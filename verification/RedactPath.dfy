/** Redaction behind a yaml path that may hold anything: when the values stay out of the message, exactly. */
module RedactPath {
  import opened Wrappers
  import opened Redact

  // ----------------------------------------------------------- what serde writes

  function StringText(w: string, body: string, tail: string): string {
    (w + "string ") + ("\"" + (body + "\"" + tail))
  }

  // ------------------------------------------------------- what the path comes to

  /** How the scan of a path for values goes on: what the value or character it begins with comes to, and what
      is behind it; not at a quote or backtick that nothing in the path closes. */
  function Next(s: string): (r: Option<(string, string)>)
    ensures r.Some? ==> |r.value.1| < |s| && r.value.1 == s[|s| - |r.value.1|..]
    ensures r.None? && s != "" ==> Mark(s[0])
  {
    if s == "" then None
    else
      match ValueAt(s)
      case Some((n, mask)) => Some((mask, s[n..]))
      case None => if Mark(s[0]) then None else Some(([s[0]], s[1..]))
  }

  /** The path from the first open quote or backtick on. */
  function Opened(s: string): (rest: string)
    ensures rest != "" ==> Mark(rest[0])
    ensures |rest| <= |s| && rest == s[|s| - |rest|..]
    decreases |s|
  {
    match Next(s) case None => s case Some((_, rest)) => Opened(rest)
  }

  /** What comes of the path before it. */
  function Kept(s: string): string
    decreases |s|
  {
    match Next(s) case None => "" case Some((mask, rest)) => mask + Kept(rest)
  }

  /** A path has no quote or backtick; or no wording before the first, and all from it on goes; or a wording
      there that is taken for serde's: about an unknown name, or any other. */
  predicate PathTold(path: string, asUnknown: bool, asOther: bool) {
    match FirstMark(path)
    case None => true
    case Some(m) =>
      match WordingStart(path[..m], 0)
      case None => true
      case Some(st) => if UnknownKind(path[st..]).Some? then asUnknown else asOther
  }

  // ----------------------------------------------------------- the first mark's case

  lemma MarkedMessage(path: string, m: nat, x: string)
    requires FirstMark(path) == Some(m)
    ensures RedactMessage(path + x, true) ==
            match WordingStart(path[..m], 0)
            case None => path[..m] + REDACTED + LocationOf(path[m..] + x)
            case Some(st) => FromStart(path + x, st)
  {
    var s := path + x;
    assert s == path[..m] + (path[m..] + x);
    FirstMarkAfter(path[..m], path[m..] + x);
    assert s[..m] == path[..m] && s[m..] == path[m..] + x;
  }

  lemma NoMarksIn(a: string, b: string)
    requires NoMarks(a) && NoMarks(b)
    ensures NoMarks(a + b)
  {
  }

  lemma LocationWords()
    ensures NoMarks(" at position ") && NoMarks(" at line ") && NoMarks(" column ")
  {
  }

  lemma PositionHasNoMarks(s: string)
    requires " at position " <= s && Digits(s[|" at position "|..])
    ensures NoMarks(s)
  {
    var pre := " at position ";
    LocationWords();
    NoMarksIn(pre, s[|pre|..]);
    assert s == pre + s[|pre|..];
  }

  lemma LineHasNoMarks(s: string, n: nat)
    requires |" at line "| < n < |s| && " at line " <= s && Digits(s[|" at line "|..n])
    requires " column " <= s[n..] && Digits(s[n..][|" column "|..])
    ensures NoMarks(s)
  {
    var pre, mid, rest := " at line ", " column ", s[n..];
    LocationWords();
    NoMarksIn(pre, s[|pre|..n]);
    NoMarksIn(mid, rest[|mid|..]);
    assert rest == mid + rest[|mid|..];
    NoMarksIn(pre + s[|pre|..n], rest);
    assert s == pre + s[|pre|..n] + rest;
  }

  lemma LocationHasNoMarks(s: string)
    ensures Location(s) ==> NoMarks(s)
  {
    if Location(s) {
      if " at position " <= s && Digits(s[|" at position "|..]) {
        PositionHasNoMarks(s);
      } else {
        var n :| |" at line "| < n < |s| && Digits(s[|" at line "|..n]) &&
                 " column " <= s[n..] && Digits(s[n..][|" column "|..]);
        LineHasNoMarks(s, n);
      }
    }
  }

  /** The location found is in what is behind the last mark. */
  lemma {:induction false} LocationAfterMark(u: string, c: char, tail: string)
    requires Mark(c)
    ensures LocationOf(u + ([c] + tail)) == LocationOf(tail)
  {
    var s := u + ([c] + tail);
    assert s[|u|] == c;
    LocationHasNoMarks(s);
    if u == "" {
      assert s[1..] == tail;
    } else {
      assert s[1..] == u[1..] + ([c] + tail);
      LocationAfterMark(u[1..], c, tail);
    }
  }

  /** Without a wording before the path's first mark, what is before the last mark makes no difference. */
  lemma UntoldPath(path: string, m: nat, u: string, c: char, tail: string)
    requires FirstMark(path) == Some(m) && WordingStart(path[..m], 0).None? && Mark(c)
    ensures RedactMessage(path + (u + ([c] + tail)), true) == path[..m] + REDACTED + LocationOf(tail)
  {
    MarkedMessage(path, m, u + ([c] + tail));
    assert path[m..] + (u + ([c] + tail)) == (path[m..] + u) + ([c] + tail);
    LocationAfterMark(path[m..] + u, c, tail);
  }

  lemma FirstMarkStays(s: string, x: string)
    requires FirstMark(s).Some?
    ensures FirstMark(s + x) == FirstMark(s)
  {
    var m := FirstMark(s).value;
    FirstMarkAfter(s[..m], s[m..] + x);
    assert s + x == s[..m] + (s[m..] + x);
  }

  lemma KindStarts(kind: string, s: string, x: string)
    requires NoMarks(kind) && FirstMark(s).Some?
    ensures kind + "`" <= s + x <==> kind + "`" <= s
  {
    var t := s + x;
    FirstMarkStays(s, x);
    if kind + "`" <= t {
      assert t[..|kind|] == kind && t[|kind|] == '`';
      FirstMarkAfter(kind, t[|kind|..]);
      assert t == kind + t[|kind|..];
      assert t[..|kind| + 1] == s[..|kind| + 1];
    }
  }

  lemma KindsHaveNoMarks()
    ensures NoMarks(VARIANT) && NoMarks(FIELD)
  {
  }

  lemma KindOfPath(s: string, x: string)
    requires FirstMark(s).Some?
    ensures UnknownKind(s + x) == UnknownKind(s)
  {
    KindsHaveNoMarks();
    KindStarts(VARIANT, s, x);
    KindStarts(FIELD, s, x);
  }

  /** The name an unknown wording in the path is taken to be about. */
  function NameIn(s: string): string {
    match UnknownKind(s)
    case None => ""
    case Some(kind) => s[|kind| + 1..]
  }

  lemma UnknownInPath(s: string, x: string)
    requires FirstMark(s).Some?
    ensures UnknownKind(s).None? ==> RedactUnknown(s + x).None?
    ensures UnknownKind(s).Some? ==> RedactUnknown(s + x) == RedactName(UnknownKind(s).value, NameIn(s) + x)
  {
    KindOfPath(s, x);
    if UnknownKind(s).Some? {
      NameGoesOn(s, UnknownKind(s).value, x);
    }
  }

  lemma NameGoesOn(s: string, kind: string, x: string)
    requires |kind| < |s|
    ensures (s + x)[|kind| + 1..] == s[|kind| + 1..] + x
  {
  }

  lemma SuffixHasMark(path: string, m: nat, st: nat)
    requires FirstMark(path) == Some(m) && st <= m
    ensures FirstMark(path[st..]).Some?
  {
    assert path[st..][m - st] == path[m];
  }

  lemma MarkedFrom(path: string, m: nat, st: nat, x: string)
    requires FirstMark(path) == Some(m) && WordingStart(path[..m], 0) == Some(st)
    ensures st <= m && RedactMessage(path + x, true) == FromStart(path + x, st)
  {
    MarkedMessage(path, m, x);
  }

  lemma Cut(path: string, st: nat, x: string)
    requires st <= |path|
    ensures path + x == path[..st] + (path[st..] + x)
  {
  }

  /** A wording in the path taken for serde's. */
  lemma FromPath(path: string, m: nat, st: nat, x: string)
    requires FirstMark(path) == Some(m) && WordingStart(path[..m], 0) == Some(st)
    ensures st <= m && FirstMark(path[st..]).Some?
    ensures var own := RedactUnknown(path[st..] + x);
            RedactMessage(path + x, true) == if own.Some? then path[..st] + own.value else RedactValues(path + x)
  {
    MarkedFrom(path, m, st, x);
    SuffixHasMark(path, m, st);
    Cut(path, st, x);
    FromStartIs(path[..st], path[st..] + x);
  }

  // ------------------------------------------------------------ closing markers

  lemma {:induction false} LastWithin<T>(value: string, tail: string, at: string -> Option<T>)
    requires LastOf(tail, at).Some?
    ensures LastOf(value + tail, at) == Some(|value| + LastOf(tail, at).value)
  {
    if value == "" {
      assert value + tail == tail;
    } else {
      assert (value + tail)[1..] == value[1..] + tail;
      LastWithin(value[1..], tail, at);
    }
  }

  lemma RunsInto(kind: string, value: string, tail: string, at: string -> Option<(string, string)>)
    requires LastOf(tail, at).Some?
    ensures RedactUpTo(kind, value + tail, at) == RedactUpTo(kind, tail, at)
    ensures RedactUpTo(kind, tail, at).Some?
  {
    LastWithin(value, tail, at);
    var i := LastOf(tail, at).value;
    assert (value + tail)[|value| + i..] == tail[i..];
  }

  /** A name runs up to a closing marker of the tail if there is one. */
  lemma NameRunsInto(kind: string, value: string, tail: string)
    requires LastClosing(tail).Some?
    ensures RedactName(kind, value + tail) == RedactName(kind, tail) && RedactName(kind, tail).Some?
  {
    RunsInto(kind, value, tail, Closing);
  }

  lemma ClosingStarts(closing: string, names: string)
    requires ClosingMarker(closing)
    ensures LastClosing(closing + names).Some?
  {
    MarkerFacts(closing, names);
  }

  // ------------------------------------------------------------------- scanning

  /** The end of a path, as it comes before serde's message. */
  predicate PathEnd(s: string) {
    && (s != "" ==> s[|s| - 1] == ' ')
    && (|s| >= 2 ==> s[|s| - 2] == ':')
  }

  lemma {:induction false} BodyStays(s: string, x: string)
    requires BodyLength(s).Some?
    ensures BodyLength(s + x) == BodyLength(s)
  {
    if s[0] != '\"' {
      var n := if s[0] == '\\' then 2 else 1;
      assert (s + x)[n..] == s[n..] + x;
      BodyStays(s[n..], x);
    }
  }

  lemma {:induction false} TickStays(s: string, x: string)
    requires TickLength(s).Some?
    ensures TickLength(s + x) == TickLength(s)
  {
    if s[0] != '`' {
      assert (s + x)[1..] == s[1..] + x;
      TickStays(s[1..], x);
    }
  }

  lemma {:induction false} NeverClosed(s: string)
    requires BodyLength(s).None? && (s != "" ==> s[|s| - 1] != '\\')
    ensures EscapedBody(s)
  {
    if s != "" {
      var n := if s[0] == '\\' then 2 else 1;
      NeverClosed(s[n..]);
    }
  }

  lemma {:induction false} NeverTicked(s: string)
    requires TickLength(s).None?
    ensures '`' !in s
  {
    if s != "" {
      NeverTicked(s[1..]);
    }
  }

  predicate CharacterAt(s: string) {
    CHARACTER + "`" <= s && |s| > |CHARACTER| + 2 && s[|CHARACTER| + 2] == '`'
  }

  lemma CharacterChars()
    ensures |CHARACTER| == 10 && CHARACTER[8] == 'r' && forall i | 0 <= i < 9 :: CHARACTER[i] != ' '
  {
  }

  lemma CharacterIn(t: string, i: nat)
    ensures |CHARACTER| == 10
    ensures CharacterAt(t) ==> t[10] == '`' && (i < 10 ==> t[i] == CHARACTER[i])
  {
    CharacterChars();
    if CharacterAt(t) {
      assert t[..11] == CHARACTER + "`";
      assert (CHARACTER + "`")[10] == '`' && t[10] == t[..11][10];
      if i < 10 { assert t[i] == t[..11][i]; }
    }
  }

  lemma NoneInEnd(s: string, x: string)
    requires s != "" && PathEnd(s) && |s| <= 12
    ensures !CharacterAt(s + x)
  {
    var t := s + x;
    assert t[|s| - 1] == ' ' && (|s| >= 2 ==> t[|s| - 2] == ':');
    CharacterChars();
    CharacterIn(t, |s| - 1);
    CharacterIn(t, 8);
  }

  /** No character value begins in a path and ends behind it. */
  lemma CharacterStays(s: string, x: string)
    requires s != "" && PathEnd(s)
    ensures CharacterAt(s + x) <==> CharacterAt(s)
  {
    CharacterChars();
    if |s| <= 12 {
      NoneInEnd(s, x);
      NoneInEnd(s, "");
      assert s + "" == s;
    } else {
      assert (s + x)[..11] == s[..11] && (s + x)[12] == s[12];
    }
  }

  /** What follows a path makes no difference to what begins and ends in it. */
  lemma ValueStays(s: string, x: string)
    requires s != "" && PathEnd(s)
    ensures ValueAt(s).Some? ==> ValueAt(s + x) == ValueAt(s)
    ensures ValueAt(s).None? && !Mark(s[0]) ==> ValueAt(s + x).None?
  {
    CharacterStays(s, x);
    assert (s + x)[1..] == s[1..] + x;
    if s[0] == '\"' {
      if BodyLength(s[1..]).Some? { BodyStays(s[1..], x); }
    } else if s[0] == '`' {
      if TickLength(s[1..]).Some? { TickStays(s[1..], x); }
    }
  }

  lemma OpenFacts(s: string)
    requires s != "" && PathEnd(s) && Next(s).None?
    ensures s[0] == '\"' ==> EscapedBody(s[1..])
    ensures s[0] == '`' ==> '`' !in s[1..]
  {
    if s[0] == '\"' {
      assert |s| > 1 && s[1..][|s[1..]| - 1] == ' ';
      NeverClosed(s[1..]);
    } else if s[0] == '`' {
      CharacterChars();
      NeverTicked(s[1..]);
    }
  }

  lemma ValueStep(s: string, x: string)
    requires s != "" && PathEnd(s)
    ensures ValueAt(s).Some? ==>
              RedactValues(s + x) == ValueAt(s).value.1 + RedactValues(s[ValueAt(s).value.0..] + x)
    ensures ValueAt(s).None? && !Mark(s[0]) ==> RedactValues(s + x) == [s[0]] + RedactValues(s[1..] + x)
  {
    ValueStays(s, x);
    if ValueAt(s).Some? {
      var n := ValueAt(s).value.0;
      assert (s + x)[n..] == s[n..] + x;
    } else {
      assert (s + x)[1..] == s[1..] + x;
    }
  }

  lemma Prepended(a: string, b: string, c: string)
    ensures a + (b + c) == (a + b) + c
  {
  }

  lemma NextIs(s: string, x: string)
    requires PathEnd(s) && Next(s).Some?
    ensures var (mask, rest) := Next(s).value;
            && PathEnd(rest) && Kept(s) == mask + Kept(rest) && Opened(s) == Opened(rest)
            && RedactValues(s + x) == mask + RedactValues(rest + x)
  {
    ValueStep(s, x);
  }

  lemma {:induction false} Scanned(s: string, x: string)
    requires PathEnd(s)
    ensures RedactValues(s + x) == Kept(s) + RedactValues(Opened(s) + x)
  {
    match Next(s) {
      case None => ScannedHere(s, x);
      case Some((mask, rest)) =>
        NextIs(s, x);
        Scanned(rest, x);
        Prepended(mask, Kept(rest), RedactValues(Opened(rest) + x));
    }
  }

  lemma ScannedHere(s: string, x: string)
    requires Next(s).None?
    ensures Kept(s) == "" && Opened(s) == s
    ensures RedactValues(s + x) == Kept(s) + RedactValues(Opened(s) + x)
  {
    assert "" + RedactValues(s + x) == RedactValues(s + x);
  }

  lemma {:induction false} OpenedIsOpen(s: string)
    requires PathEnd(s)
    ensures PathEnd(Opened(s)) && Next(Opened(s)).None?
    decreases |s|
  {
    if Next(s).Some? {
      NextIs(s, "");
      OpenedIsOpen(Next(s).value.1);
    }
  }

  /** The open mark of a path, and what is behind it. */
  lemma OpenedFacts(path: string) returns (c: char, rest: string)
    requires PathEnd(path) && Opened(path) != ""
    ensures Opened(path) == [c] + rest && Mark(c) && PathEnd([c] + rest)
    ensures c == '\"' ==> EscapedBody(rest)
    ensures c == '`' ==> '`' !in rest
  {
    var o := Opened(path);
    OpenedIsOpen(path);
    OpenFacts(o);
    c, rest := o[0], o[1..];
    assert o == [c] + rest;
  }

  // ------------------------------------------------ the message in each of the cases

  /** The path's wording is about an unknown name, and the text ends in one that holds a closing marker. */
  lemma UnknownTold(path: string, m: nat, st: nat, v: string, tail: string)
    requires FirstMark(path) == Some(m) && WordingStart(path[..m], 0) == Some(st)
    requires UnknownKind(path[st..]).Some? && LastClosing(tail).Some?
    ensures var own := RedactName(UnknownKind(path[st..]).value, tail);
            own.Some? && st <= m && RedactMessage(path + (v + tail), true) == path[..st] + own.value
  {
    FromPath(path, m, st, v + tail);
    UnknownInPath(path[st..], v + tail);
    Prepended(NameIn(path[st..]), v, tail);
    NameRunsInto(UnknownKind(path[st..]).value, NameIn(path[st..]) + v, tail);
  }

  /** The path's wording is about anything else. */
  lemma OtherTold(path: string, m: nat, st: nat, x: string)
    requires FirstMark(path) == Some(m) && WordingStart(path[..m], 0) == Some(st) && PathEnd(path)
    requires UnknownKind(path[st..]).None?
    ensures RedactMessage(path + x, true) == Kept(path) + RedactValues(Opened(path) + x)
  {
    FromPath(path, m, st, x);
    UnknownInPath(path[st..], x);
    Scanned(path, x);
  }

  lemma EndOf(path: string)
    requires BeforeMessage(path)
    ensures PathEnd(path)
  {
    assert path != "" ==> path[|path| - 2] == path[|path| - 2..][0] && path[|path| - 1] == path[|path| - 2..][1];
  }

  lemma Unlike(p: string, a: string, b: string)
    requires a != b
    ensures p + a != p + b
  {
    assert (p + a)[|p|..] == a && (p + b)[|p|..] == b;
  }

  /** Letters that begin the text stay, so that two such texts are told apart. */
  lemma LettersDiffer(a: char, b: char, rest: string)
    requires !Mark(a) && !Mark(b) && a != b && a != 'c' && b != 'c'
    ensures RedactValues([a] + rest) != RedactValues([b] + rest)
  {
    LetterStays(a, rest);
    LetterStays(b, rest);
    assert RedactValues([a] + rest)[0] == a && RedactValues([b] + rest)[0] == b;
  }

  lemma LetterStays(c: char, rest: string)
    requires !Mark(c) && c != 'c'
    ensures RedactValues([c] + rest) == [c] + RedactValues(rest)
  {
    var s := [c] + rest;
    assert s[0] == c && s[1..] == rest && CHARACTER[0] == 'c';
    assert (CHARACTER + "`")[0] == 'c';
  }

  lemma {:induction false} PlainBody(s: string)
    requires '\"' !in s && '\\' !in s
    ensures EscapedBody(s)
  {
    if s != "" {
      PlainBody(s[1..]);
    }
  }

  lemma {:induction false} BodyOf(a: string, b: string)
    requires EscapedBody(a) && EscapedBody(b)
    ensures EscapedBody(a + b)
  {
    if a == "" {
      assert a + b == b;
    } else {
      var n := if a[0] == '\\' then 2 else 1;
      assert (a + b)[n..] == a[n..] + b;
      BodyOf(a[n..], b);
    }
  }

  /** An open quote runs up to the next one, ... */
  lemma QuoteTakes(body: string, rest: string)
    requires EscapedBody(body)
    ensures RedactValues("\"" + (body + ("\"" + rest))) == REDACTED + RedactValues(rest)
  {
    QuotedRedacted("", body, rest);
    assert "" + ("\"" + (body + "\"" + rest)) == "\"" + (body + ("\"" + rest));
    assert "" + (REDACTED + RedactValues(rest)) == REDACTED + RedactValues(rest);
  }

  /** ... and an open backtick to the next backtick. */
  lemma TickTakes(body: string, rest: string)
    requires '`' !in body
    ensures RedactValues("`" + (body + ("`" + rest))) == REDACTED + RedactValues(rest)
  {
    TickedRedacted("", body, rest);
    assert "" + ("`" + (body + "`" + rest)) == "`" + (body + ("`" + rest));
    assert "" + (REDACTED + RedactValues(rest)) == REDACTED + RedactValues(rest);
  }

  lemma Opening(o: string, rest: string, x: string, body: string, c: char, y: string)
    requires o == [c] + rest && x == body + ([c] + y)
    ensures o + x == [c] + ((rest + body) + ([c] + y))
  {
  }

  /** An open quote or backtick takes in what it runs up to, and what is behind that comes out. */
  lemma OpenTakes(path: string, c: char, rest: string, body: string, y: string, x: string)
    requires Opened(path) == [c] + rest && Mark(c) && x == body + ([c] + y)
    requires c == '\"' ==> EscapedBody(rest + body)
    requires c == '`' ==> '`' !in rest + body
    ensures RedactValues(Opened(path) + x) == REDACTED + RedactValues(y)
  {
    Opening(Opened(path), rest, x, body, c, y);
    if c == '\"' {
      QuoteTakes(rest + body, y);
    } else {
      TickTakes(rest + body, y);
    }
  }

  lemma OpenLeaks(path: string, m: nat, st: nat, c: char, rest: string, body: string, y: string, x: string)
    requires FirstMark(path) == Some(m) && WordingStart(path[..m], 0) == Some(st) && PathEnd(path)
    requires UnknownKind(path[st..]).None?
    requires Opened(path) == [c] + rest && Mark(c) && x == body + ([c] + y)
    requires c == '\"' ==> EscapedBody(rest + body)
    requires c == '`' ==> '`' !in rest + body
    ensures RedactMessage(path + x, true) == (Kept(path) + REDACTED) + RedactValues(y)
  {
    OtherTold(path, m, st, x);
    OpenTakes(path, c, rest, body, y, x);
    Prepended(Kept(path), REDACTED, RedactValues(y));
  }

  lemma LeaksDiffer(pre: string, rest: string)
    ensures pre + RedactValues("a" + rest) != pre + RedactValues("b" + rest)
  {
    LettersDiffer('a', 'b', rest);
    assert "a" == ['a'] && "b" == ['b'];
    Unlike(pre, RedactValues("a" + rest), RedactValues("b" + rest));
  }

  // -------------------------------------------------------------------- strings

  /** What the message about a string comes out as. */
  function StringOut(path: string, w: string, tail: string, body: string): string {
    RedactMessage(path + StringText(w, body, tail), true)
  }

  /** All string values come out as one text. */
  ghost predicate OneStringText(path: string, w: string, tail: string) {
    forall a, b | EscapedBody(a) && EscapedBody(b) :: StringOut(path, w, tail, a) == StringOut(path, w, tail, b)
  }

  predicate StringsTold(path: string, tail: string) {
    PathTold(path, LastClosing(tail).Some?, Opened(path) == "")
  }

  lemma StringParts(w: string, body: string, tail: string)
    ensures StringText(w, body, tail) == ((w + "string ") + ("\"" + body)) + (['\"'] + tail)
    ensures StringText(w, body, tail) == ((w + "string ") + ("\"" + body) + "\"") + tail
  {
  }

  lemma StringRedacted(w: string, body: string, tail: string)
    requires InvalidWording(w) && EscapedBody(body)
    ensures RedactValues(StringText(w, body, tail)) == (w + "string ") + (REDACTED + RedactValues(tail))
  {
    InvalidFacts(w, "string ");
    QuotedRedacted(w + "string ", body, tail);
  }

  lemma StringsAlike(path: string, w: string, tail: string, a: string, b: string)
    requires BeforeMessage(path) && InvalidWording(w) && EscapedBody(a) && EscapedBody(b)
    requires StringsTold(path, tail)
    ensures StringOut(path, w, tail, a) == StringOut(path, w, tail, b)
  {
    StringParts(w, a, tail);
    StringParts(w, b, tail);
    match FirstMark(path) {
      case None =>
        StringIsIndependent(path, w, a, tail, true);
        StringIsIndependent(path, w, b, tail, true);
        Prepended(path, w + "string ", "\"" + (a + "\"" + tail));
        Prepended(path, w + "string ", "\"" + (b + "\"" + tail));
      case Some(m) =>
        match WordingStart(path[..m], 0) {
          case None =>
            UntoldPath(path, m, (w + "string ") + ("\"" + a), '\"', tail);
            UntoldPath(path, m, (w + "string ") + ("\"" + b), '\"', tail);
          case Some(st) =>
            if UnknownKind(path[st..]).Some? {
              UnknownTold(path, m, st, (w + "string ") + ("\"" + a) + "\"", tail);
              UnknownTold(path, m, st, (w + "string ") + ("\"" + b) + "\"", tail);
            } else {
              EndOf(path);
              OtherTold(path, m, st, StringText(w, a, tail));
              OtherTold(path, m, st, StringText(w, b, tail));
              StringRedacted(w, a, tail);
              StringRedacted(w, b, tail);
              assert "" + StringText(w, a, tail) == StringText(w, a, tail);
              assert "" + StringText(w, b, tail) == StringText(w, b, tail);
            }
        }
    }
  }

  lemma StringWording(w: string)
    requires InvalidWording(w)
    ensures EscapedBody(w + "string ") && '`' !in w + "string " + "\""
  {
    InvalidFacts(w, "string ");
    StringLetters();
    PlainBody(w + "string ");
  }

  lemma StringLetters()
    ensures forall w | InvalidWording(w) :: '\\' !in w + "string "
  {
  }

  lemma StringAt(w: string, letter: string, tail: string)
    ensures StringText(w, letter, tail) == (w + "string ") + (['\"'] + (letter + ("\"" + tail)))
    ensures StringText(w, "`" + letter, tail) == ((w + "string ") + "\"") + (['`'] + (letter + ("\"" + tail)))
  {
  }

  lemma QuotedString(path: string, m: nat, st: nat, w: string, tail: string, rest: string, letter: string)
    requires FirstMark(path) == Some(m) && WordingStart(path[..m], 0) == Some(st) && PathEnd(path)
    requires UnknownKind(path[st..]).None? && InvalidWording(w)
    requires Opened(path) == ['\"'] + rest && EscapedBody(rest)
    ensures RedactMessage(path + StringText(w, letter, tail), true) ==
            (Kept(path) + REDACTED) + RedactValues(letter + ("\"" + tail))
  {
    var wording, y := w + "string ", letter + ("\"" + tail);
    StringWording(w);
    BodyOf(rest, wording);
    StringAt(w, letter, tail);
    OpenLeaks(path, m, st, '\"', rest, wording, y, StringText(w, letter, tail));
  }

  lemma TickedString(path: string, m: nat, st: nat, w: string, tail: string, rest: string, letter: string)
    requires FirstMark(path) == Some(m) && WordingStart(path[..m], 0) == Some(st) && PathEnd(path)
    requires UnknownKind(path[st..]).None? && InvalidWording(w)
    requires Opened(path) == ['`'] + rest && '`' !in rest
    ensures RedactMessage(path + StringText(w, "`" + letter, tail), true) ==
            (Kept(path) + REDACTED) + RedactValues(letter + ("\"" + tail))
  {
    var wording, y := w + "string ", letter + ("\"" + tail);
    StringWording(w);
    StringAt(w, letter, tail);
    OpenLeaks(path, m, st, '`', rest, wording + "\"", y, StringText(w, "`" + letter, tail));
  }

  /** A closing marker in a value is taken for serde's by a name that begins in the path. */
  lemma MarkerTold(path: string, m: nat, st: nat, head: string, names: string)
    requires FirstMark(path) == Some(m) && WordingStart(path[..m], 0) == Some(st)
    requires UnknownKind(path[st..]).Some? && LastClosing(names).None?
    ensures var kind := UnknownKind(path[st..]).value;
            st <= m && RedactMessage(path + (head + (EXPECTED + names)), true) ==
            path[..st] + ((kind + REDACTED + EXPECTED[1..]) + names)
  {
    var kind, x := UnknownKind(path[st..]).value, head + (EXPECTED + names);
    FromPath(path, m, st, x);
    UnknownInPath(path[st..], x);
    Prepended(NameIn(path[st..]), head, EXPECTED + names);
    NameRedacted(kind, NameIn(path[st..]) + head, EXPECTED, names);
  }

  lemma NoClosingIn(letter: string, tail: string)
    requires LastClosing(tail).None? && '`' !in letter
    ensures LastClosing(letter + ("\"" + tail)).None?
  {
    ClosingFromTick();
    assert letter + ("\"" + tail) == (letter + "\"") + tail;
    NoneIn(letter + "\"", tail, Closing);
  }

  lemma StringWithMarker(w: string, letter: string, tail: string)
    ensures StringText(w, EXPECTED + letter, tail) ==
            ((w + "string ") + "\"") + (EXPECTED + (letter + ("\"" + tail)))
  {
    var e := EXPECTED;
    assert "\"" + ((e + letter) + "\"" + tail) == "\"" + (e + (letter + ("\"" + tail)));
  }

  lemma StringInName(path: string, m: nat, st: nat, w: string, tail: string, letter: string)
    requires FirstMark(path) == Some(m) && WordingStart(path[..m], 0) == Some(st)
    requires UnknownKind(path[st..]).Some? && LastClosing(tail).None? && '`' !in letter
    ensures var kind := UnknownKind(path[st..]).value;
            st <= m && RedactMessage(path + StringText(w, EXPECTED + letter, tail), true) ==
            path[..st] + ((kind + REDACTED + EXPECTED[1..]) + (letter + ("\"" + tail)))
  {
    NoClosingIn(letter, tail);
    StringWithMarker(w, letter, tail);
    MarkerTold(path, m, st, (w + "string ") + "\"", letter + ("\"" + tail));
  }

  lemma ExpectedBody(letter: string)
    requires letter == "a" || letter == "b"
    ensures EscapedBody(letter) && EscapedBody("`" + letter) && EscapedBody(EXPECTED + letter) && '`' !in letter
  {
    PlainBody(letter);
    PlainBody("`" + letter);
    PlainBody(EXPECTED + letter);
  }

  /** Two string values that do not. */
  lemma StringsDiffer(path: string, w: string, tail: string) returns (a: string, b: string)
    requires BeforeMessage(path) && InvalidWording(w) && !StringsTold(path, tail)
    ensures EscapedBody(a) && EscapedBody(b)
    ensures StringOut(path, w, tail, a) != StringOut(path, w, tail, b)
  {
    var m := FirstMark(path).value;
    var st := WordingStart(path[..m], 0).value;
    ExpectedBody("a");
    ExpectedBody("b");
    if UnknownKind(path[st..]).Some? {
      a, b := EXPECTED + "a", EXPECTED + "b";
      StringInName(path, m, st, w, tail, "a");
      StringInName(path, m, st, w, tail, "b");
      var head, rest := UnknownKind(path[st..]).value + REDACTED + EXPECTED[1..], "\"" + tail;
      assert ("a" + rest)[0] != ("b" + rest)[0];
      Unlike(head, "a" + rest, "b" + rest);
      Unlike(path[..st], head + ("a" + rest), head + ("b" + rest));
    } else {
      EndOf(path);
      var c, rest := OpenedFacts(path);
      LeaksDiffer(Kept(path) + REDACTED, "\"" + tail);
      if c == '\"' {
        a, b := "a", "b";
        QuotedString(path, m, st, w, tail, rest, a);
        QuotedString(path, m, st, w, tail, rest, b);
      } else {
        a, b := "`" + "a", "`" + "b";
        TickedString(path, m, st, w, tail, rest, "a");
        TickedString(path, m, st, w, tail, rest, "b");
      }
    }
  }

  lemma StringsAlikeIfTold(path: string, w: string, tail: string, a: string, b: string)
    ensures BeforeMessage(path) && InvalidWording(w) && StringsTold(path, tail) && EscapedBody(a) && EscapedBody(b)
            ==> StringOut(path, w, tail, a) == StringOut(path, w, tail, b)
  {
    if BeforeMessage(path) && InvalidWording(w) && StringsTold(path, tail) && EscapedBody(a) && EscapedBody(b) {
      StringsAlike(path, w, tail, a, b);
    }
  }

  lemma AllStringsAlike(path: string, w: string, tail: string)
    requires BeforeMessage(path) && InvalidWording(w) && StringsTold(path, tail)
    ensures OneStringText(path, w, tail)
  {
    forall a, b { StringsAlikeIfTold(path, w, tail, a, b); }
  }

  lemma SomeStringsDiffer(path: string, w: string, tail: string)
    requires BeforeMessage(path) && InvalidWording(w) && !StringsTold(path, tail)
    ensures !OneStringText(path, w, tail)
  {
    var a, b := StringsDiffer(path, w, tail);
  }

  /** Behind a path that may hold anything, all string values come out as one text if and only if the path has no
      quote or backtick; or no wording of serde's ends before its first one; or the wording that does is about
      an unknown name, and the text behind the value holds a closing marker; or it is another, and every quote
      and backtick of the path is closed in it. */
  lemma StringsExactly(path: string, w: string, tail: string)
    requires BeforeMessage(path) && InvalidWording(w)
    ensures OneStringText(path, w, tail) <==> StringsTold(path, tail)
  {
    if StringsTold(path, tail) {
      AllStringsAlike(path, w, tail);
    } else {
      SomeStringsDiffer(path, w, tail);
    }
  }
}
