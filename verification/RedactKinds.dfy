/** Redaction behind a yaml path of unknown names, numbers and characters: when they stay out, exactly. */
module RedactKinds {
  import opened Wrappers
  import opened Redact
  import opened RedactPath

  // -------------------------------------------------------------- unknown names

  function NameOut(path: string, kind: string, closing: string, names: string, value: string): string {
    RedactMessage(path + UnknownMessage(kind, value, closing, names), true)
  }

  /** All unknown names come out as one text. */
  ghost predicate OneNameText(path: string, kind: string, closing: string, names: string) {
    forall a, b :: NameOut(path, kind, closing, names, a) == NameOut(path, kind, closing, names, b)
  }

  predicate NamesTold(path: string) {
    PathTold(path, true, false)
  }

  lemma NameParts(kind: string, value: string, closing: string, names: string)
    requires ClosingMarker(closing)
    ensures UnknownMessage(kind, value, closing, names) == (kind + ("`" + value)) + (closing + names)
    ensures UnknownMessage(kind, value, closing, names) == (kind + ("`" + value)) + (['`'] + (closing[1..] + names))
  {
    MarkerFacts(closing, names);
    assert closing + names == ['`'] + (closing[1..] + names);
  }

  lemma NameAfterPath(path: string, kind: string, value: string, closing: string, names: string)
    requires NoMarks(path) && BeforeMessage(path) && UnknownWording(kind) && ClosingMarker(closing)
    ensures var own := RedactName(kind, closing + names);
            own.Some? && NameOut(path, kind, closing, names, value) == path + own.value
  {
    var name := value + (closing + names);
    UnknownIsNoKind(kind);
    WordingAfterPath(path, kind, 0);
    KindFacts(kind, name);
    NoMarksIn(path, kind);
    AfterPath(path, kind, "`" + name, true);
    FromStartIs(path, kind + ("`" + name));
    NameAfterKind(kind, name);
    ClosingStarts(closing, names);
    NameRunsInto(kind, value, closing + names);
  }

  lemma NamesAlike(path: string, kind: string, closing: string, names: string, a: string, b: string)
    requires BeforeMessage(path) && UnknownWording(kind) && ClosingMarker(closing) && NamesTold(path)
    ensures NameOut(path, kind, closing, names, a) == NameOut(path, kind, closing, names, b)
  {
    NameParts(kind, a, closing, names);
    NameParts(kind, b, closing, names);
    match FirstMark(path) {
      case None =>
        NameAfterPath(path, kind, a, closing, names);
        NameAfterPath(path, kind, b, closing, names);
      case Some(m) =>
        match WordingStart(path[..m], 0) {
          case None =>
            UntoldPath(path, m, kind + ("`" + a), '`', closing[1..] + names);
            UntoldPath(path, m, kind + ("`" + b), '`', closing[1..] + names);
          case Some(st) =>
            ClosingStarts(closing, names);
            UnknownTold(path, m, st, kind + ("`" + a), closing + names);
            UnknownTold(path, m, st, kind + ("`" + b), closing + names);
        }
    }
  }

  lemma KindEndsPlain(kind: string)
    requires UnknownWording(kind)
    ensures NoMarks(kind) && !Ends(kind, CHARACTER) && '\"' !in kind && '\\' !in kind
  {
    CharacterChars();
    assert |kind| > 10 && kind[|kind| - 10..][8] == kind[|kind| - 2];
  }

  lemma NameAt(kind: string, value: string, closing: string, names: string, letter: string)
    ensures var t := letter + (closing + names);
            && UnknownMessage(kind, letter, closing, names) == kind + (['`'] + t)
            && UnknownMessage(kind, "`" + letter, closing, names) == kind + ("`" + ("" + "`" + t))
            && UnknownMessage(kind, "\"" + letter, closing, names) == (kind + "`") + (['\"'] + t)
  {
  }

  /** A name with a letter behind what closes the path, and the letter comes out. */
  lemma NameLetter(path: string, m: nat, st: nat, kind: string, closing: string, names: string, letter: string)
    returns (value: string, pre: string)
    requires FirstMark(path) == Some(m) && WordingStart(path[..m], 0) == Some(st) && PathEnd(path)
    requires UnknownKind(path[st..]).None? && UnknownWording(kind)
    ensures NameOut(path, kind, closing, names, value) == pre + RedactValues(letter + (closing + names))
    ensures pre == if Opened(path) == "" then Kept(path) + (kind + REDACTED) else Kept(path) + REDACTED
  {
    var t := letter + (closing + names);
    KindEndsPlain(kind);
    NameAt(kind, "", closing, names, letter);
    if Opened(path) == "" {
      value, pre := "`" + letter, Kept(path) + (kind + REDACTED);
      OtherTold(path, m, st, UnknownMessage(kind, value, closing, names));
      TickedRedacted(kind, "", t);
      assert "" + UnknownMessage(kind, value, closing, names) == UnknownMessage(kind, value, closing, names);
      Regroup(Kept(path), kind, REDACTED, RedactValues(t));
      Prepended(Kept(path), kind, REDACTED + RedactValues(t));
      Prepended(Kept(path) + kind, REDACTED, RedactValues(t));
      Prepended(Kept(path), kind, REDACTED);
    } else {
      pre := Kept(path) + REDACTED;
      var c, rest := OpenedFacts(path);
      if c == '\"' {
        value := "\"" + letter;
        PlainBody(kind + "`");
        BodyOf(rest, kind + "`");
        OpenLeaks(path, m, st, c, rest, kind + "`", t, UnknownMessage(kind, value, closing, names));
      } else {
        value := letter;
        OpenLeaks(path, m, st, c, rest, kind, t, UnknownMessage(kind, value, closing, names));
      }
    }
  }

  lemma NamesDiffer(path: string, kind: string, closing: string, names: string) returns (a: string, b: string)
    requires BeforeMessage(path) && UnknownWording(kind) && !NamesTold(path)
    ensures NameOut(path, kind, closing, names, a) != NameOut(path, kind, closing, names, b)
  {
    var m := FirstMark(path).value;
    var st := WordingStart(path[..m], 0).value;
    EndOf(path);
    var pre, pre';
    a, pre := NameLetter(path, m, st, kind, closing, names, "a");
    b, pre' := NameLetter(path, m, st, kind, closing, names, "b");
    LeaksDiffer(pre, closing + names);
  }

  lemma NamesAlikeIfTold(path: string, kind: string, closing: string, names: string, a: string, b: string)
    ensures BeforeMessage(path) && UnknownWording(kind) && ClosingMarker(closing) && NamesTold(path) ==>
              NameOut(path, kind, closing, names, a) == NameOut(path, kind, closing, names, b)
  {
    if BeforeMessage(path) && UnknownWording(kind) && ClosingMarker(closing) && NamesTold(path) {
      NamesAlike(path, kind, closing, names, a, b);
    }
  }

  lemma AllNamesAlike(path: string, kind: string, closing: string, names: string)
    requires BeforeMessage(path) && UnknownWording(kind) && ClosingMarker(closing) && NamesTold(path)
    ensures OneNameText(path, kind, closing, names)
  {
    forall a, b { NamesAlikeIfTold(path, kind, closing, names, a, b); }
  }

  lemma SomeNamesDiffer(path: string, kind: string, closing: string, names: string)
    requires BeforeMessage(path) && UnknownWording(kind) && !NamesTold(path)
    ensures !OneNameText(path, kind, closing, names)
  {
    var a, b := NamesDiffer(path, kind, closing, names);
  }

  /** All unknown names come out as one text if and only if the path has no quote or backtick; or no wording of
      serde's ends before its first one; or the wording that does is about an unknown name too. */
  lemma NamesExactly(path: string, kind: string, closing: string, names: string)
    requires BeforeMessage(path) && UnknownWording(kind) && ClosingMarker(closing)
    ensures OneNameText(path, kind, closing, names) <==> NamesTold(path)
  {
    if NamesTold(path) {
      AllNamesAlike(path, kind, closing, names);
    } else {
      SomeNamesDiffer(path, kind, closing, names);
    }
  }

  // ----------------------------------------------------------------- characters

  function CharacterText(w: string, c: char, tail: string): string {
    (w + CHARACTER) + ("`" + [c] + "`" + tail)
  }

  function CharacterOut(path: string, w: string, tail: string, c: char): string {
    RedactMessage(path + CharacterText(w, c, tail), true)
  }

  ghost predicate OneCharacterText(path: string, w: string, tail: string) {
    forall a, b :: CharacterOut(path, w, tail, a) == CharacterOut(path, w, tail, b)
  }

  predicate CharactersTold(path: string) {
    PathTold(path, true, Opened(path) == "")
  }

  /** The text behind a value in backticks, as serde writes it: `", expected ..."`. */
  predicate TickTail(tail: string) {
    LastClosing("`" + tail).Some?
  }

  lemma CharacterParts(w: string, c: char, tail: string)
    ensures CharacterText(w, c, tail) == ((w + CHARACTER) + ("`" + [c])) + (['`'] + tail)
    ensures CharacterText(w, c, tail) == ((w + CHARACTER) + ("`" + [c])) + ("`" + tail)
    ensures CharacterText(w, c, tail) == (w + CHARACTER) + (['`'] + ([c] + ("`" + tail)))
    ensures CharacterText(w, c, tail) == w + (CHARACTER + ("`" + [c] + "`" + tail))
  {
  }

  lemma CharacterAlone(w: string, c: char, tail: string)
    requires InvalidWording(w)
    ensures RedactValues(CharacterText(w, c, tail)) == w + (CHARACTER + (REDACTED + RedactValues(tail)))
  {
    InvalidFacts(w, CHARACTER);
    CharacterParts(w, c, tail);
    CharacterAfter(w, c, tail);
  }

  lemma CharactersAlike(path: string, w: string, tail: string, a: char, b: char)
    requires BeforeMessage(path) && InvalidWording(w) && TickTail(tail) && CharactersTold(path)
    ensures CharacterOut(path, w, tail, a) == CharacterOut(path, w, tail, b)
  {
    CharacterParts(w, a, tail);
    CharacterParts(w, b, tail);
    match FirstMark(path) {
      case None =>
        CharacterIsIndependent(path, w, a, tail, true);
        CharacterIsIndependent(path, w, b, tail, true);
        Prepended(path, w + CHARACTER, "`" + [a] + "`" + tail);
        Prepended(path, w + CHARACTER, "`" + [b] + "`" + tail);
      case Some(m) =>
        match WordingStart(path[..m], 0) {
          case None =>
            UntoldPath(path, m, (w + CHARACTER) + ("`" + [a]), '`', tail);
            UntoldPath(path, m, (w + CHARACTER) + ("`" + [b]), '`', tail);
          case Some(st) =>
            if UnknownKind(path[st..]).Some? {
              UnknownTold(path, m, st, (w + CHARACTER) + ("`" + [a]), "`" + tail);
              UnknownTold(path, m, st, (w + CHARACTER) + ("`" + [b]), "`" + tail);
            } else {
              EndOf(path);
              OtherTold(path, m, st, CharacterText(w, a, tail));
              OtherTold(path, m, st, CharacterText(w, b, tail));
              CharacterAlone(w, a, tail);
              CharacterAlone(w, b, tail);
              assert "" + CharacterText(w, a, tail) == CharacterText(w, a, tail);
              assert "" + CharacterText(w, b, tail) == CharacterText(w, b, tail);
            }
        }
    }
  }

  /** Whether a quoted body goes on into the text, and how far, is up to that. */
  lemma {:induction false} BodyThrough(u: string, t: string)
    requires EscapedBody(u)
    ensures BodyLength(u + t) == match BodyLength(t) case None => None case Some(n) => Some(|u| + n)
  {
    if u == "" {
      assert u + t == t;
    } else {
      var n := if u[0] == '\\' then 2 else 1;
      assert (u + t)[n..] == u[n..] + t;
      BodyThrough(u[n..], t);
    }
  }

  lemma {:induction false} NoQuoteNoEnd(t: string)
    requires '\"' !in t
    ensures BodyLength(t).None?
  {
    if t != "" {
      if t[0] == '\\' {
        if |t| > 1 { NoQuoteNoEnd(t[2..]); }
      } else {
        NoQuoteNoEnd(t[1..]);
      }
    }
  }

  /** An open quote that nothing closes stays. */
  lemma QuoteStays(rest: string, x: string)
    requires BodyLength(rest + x).None?
    ensures RedactValues((['\"'] + rest) + x) == ['\"'] + RedactValues(rest + x)
  {
    var s := (['\"'] + rest) + x;
    assert s[1..] == rest + x && s[0] == '\"';
  }

  lemma CharacterLetters(w: string, c: char)
    requires InvalidWording(w)
    ensures NoMarks(w + CHARACTER) && '\\' !in w + CHARACTER
  {
    InvalidFacts(w, CHARACTER);
  }

  lemma OpenQuoteStays(path: string, m: nat, st: nat, rest: string, x: string)
    requires FirstMark(path) == Some(m) && WordingStart(path[..m], 0) == Some(st) && PathEnd(path)
    requires UnknownKind(path[st..]).None? && Opened(path) == ['\"'] + rest && EscapedBody(rest) && '\"' !in x
    ensures RedactMessage(path + x, true) == Kept(path) + (['\"'] + RedactValues(rest + x))
  {
    OtherTold(path, m, st, x);
    NoQuoteNoEnd(x);
    BodyThrough(rest, x);
    QuoteStays(rest, x);
  }

  lemma FirstDiffers(pre: string, y: string, z: string)
    ensures (pre + REDACTED) + y != pre + (['\"'] + z)
  {
    Prepended(pre, REDACTED, y);
    assert (REDACTED + y)[0] == '[' && (['\"'] + z)[0] == '\"';
    Unlike(pre, REDACTED + y, ['\"'] + z);
  }

  lemma CharacterBody(w: string)
    requires InvalidWording(w)
    ensures EscapedBody((w + CHARACTER) + "`")
  {
    CharacterLetters(w, 'a');
    PlainBody(w + CHARACTER);
    PlainBody("`");
    BodyOf(w + CHARACTER, "`");
  }

  lemma QuoteInText(wording: string, y: string, tail: string)
    requires y == "`" + tail
    ensures wording + ("`" + ['\"'] + "`" + tail) == (wording + "`") + (['\"'] + y)
  {
  }

  lemma QuoteCharacter(path: string, m: nat, st: nat, w: string, tail: string, rest: string)
    requires FirstMark(path) == Some(m) && WordingStart(path[..m], 0) == Some(st) && PathEnd(path)
    requires UnknownKind(path[st..]).None? && InvalidWording(w)
    requires Opened(path) == ['\"'] + rest && EscapedBody(rest)
    ensures CharacterOut(path, w, tail, '\"') == (Kept(path) + REDACTED) + RedactValues("`" + tail)
  {
    CharacterBody(w);
    BodyOf(rest, (w + CHARACTER) + "`");
    QuoteInText(w + CHARACTER, "`" + tail, tail);
    OpenLeaks(path, m, st, '\"', rest, (w + CHARACTER) + "`", "`" + tail, CharacterText(w, '\"', tail));
  }

  lemma NoQuoteInText(w: string, tail: string)
    requires InvalidWording(w) && '\"' !in tail
    ensures '\"' !in CharacterText(w, 'a', tail)
  {
    CharacterLetters(w, 'a');
    var wording, ticked := w + CHARACTER, "`" + ['a'] + "`";
    assert CharacterText(w, 'a', tail) == wording + (ticked + tail);
    assert ticked == ['`', 'a', '`'];
  }

  lemma LetterCharacter(path: string, m: nat, st: nat, w: string, tail: string, rest: string)
    requires FirstMark(path) == Some(m) && WordingStart(path[..m], 0) == Some(st) && PathEnd(path)
    requires UnknownKind(path[st..]).None? && InvalidWording(w) && '\"' !in tail
    requires Opened(path) == ['\"'] + rest && EscapedBody(rest)
    ensures CharacterOut(path, w, tail, 'a') ==
            Kept(path) + (['\"'] + RedactValues(rest + CharacterText(w, 'a', tail)))
  {
    NoQuoteInText(w, tail);
    OpenQuoteStays(path, m, st, rest, CharacterText(w, 'a', tail));
  }

  lemma QuoteDiffers(path: string, m: nat, st: nat, w: string, tail: string, rest: string)
    requires FirstMark(path) == Some(m) && WordingStart(path[..m], 0) == Some(st) && PathEnd(path)
    requires UnknownKind(path[st..]).None? && InvalidWording(w) && '\"' !in tail
    requires Opened(path) == ['\"'] + rest && EscapedBody(rest)
    ensures CharacterOut(path, w, tail, '\"') != CharacterOut(path, w, tail, 'a')
  {
    QuoteCharacter(path, m, st, w, tail, rest);
    LetterCharacter(path, m, st, w, tail, rest);
    FirstDiffers(Kept(path), RedactValues("`" + tail), RedactValues(rest + CharacterText(w, 'a', tail)));
  }

  lemma TickDiffers(path: string, m: nat, st: nat, w: string, tail: string, rest: string)
    requires FirstMark(path) == Some(m) && WordingStart(path[..m], 0) == Some(st) && PathEnd(path)
    requires UnknownKind(path[st..]).None? && InvalidWording(w)
    requires Opened(path) == ['`'] + rest && '`' !in rest
    ensures CharacterOut(path, w, tail, 'a') != CharacterOut(path, w, tail, 'b')
  {
    CharacterLetters(w, 'a');
    CharacterParts(w, 'a', tail);
    CharacterParts(w, 'b', tail);
    OpenLeaks(path, m, st, '`', rest, w + CHARACTER, "a" + ("`" + tail), CharacterText(w, 'a', tail));
    OpenLeaks(path, m, st, '`', rest, w + CHARACTER, "b" + ("`" + tail), CharacterText(w, 'b', tail));
    LeaksDiffer(Kept(path) + REDACTED, "`" + tail);
  }

  lemma CharactersDiffer(path: string, w: string, tail: string) returns (a: char, b: char)
    requires BeforeMessage(path) && InvalidWording(w) && '\"' !in tail && !CharactersTold(path)
    ensures CharacterOut(path, w, tail, a) != CharacterOut(path, w, tail, b)
  {
    var m := FirstMark(path).value;
    var st := WordingStart(path[..m], 0).value;
    EndOf(path);
    var c, rest := OpenedFacts(path);
    if c == '\"' {
      a, b := '\"', 'a';
      QuoteDiffers(path, m, st, w, tail, rest);
    } else {
      a, b := 'a', 'b';
      TickDiffers(path, m, st, w, tail, rest);
    }
  }

  lemma CharactersAlikeIfTold(path: string, w: string, tail: string, a: char, b: char)
    ensures BeforeMessage(path) && InvalidWording(w) && TickTail(tail) && CharactersTold(path) ==>
              CharacterOut(path, w, tail, a) == CharacterOut(path, w, tail, b)
  {
    if BeforeMessage(path) && InvalidWording(w) && TickTail(tail) && CharactersTold(path) {
      CharactersAlike(path, w, tail, a, b);
    }
  }

  lemma AllCharactersAlike(path: string, w: string, tail: string)
    requires BeforeMessage(path) && InvalidWording(w) && TickTail(tail) && CharactersTold(path)
    ensures OneCharacterText(path, w, tail)
  {
    forall a, b { CharactersAlikeIfTold(path, w, tail, a, b); }
  }

  lemma SomeCharactersDiffer(path: string, w: string, tail: string)
    requires BeforeMessage(path) && InvalidWording(w) && '\"' !in tail && !CharactersTold(path)
    ensures !OneCharacterText(path, w, tail)
  {
    var a, b := CharactersDiffer(path, w, tail);
  }

  /** All characters come out as one text, before a text that begins as serde's does and holds no quote, if and
      only if strings would or the path's wording is about an unknown name. */
  lemma CharactersExactly(path: string, w: string, tail: string)
    requires BeforeMessage(path) && InvalidWording(w) && TickTail(tail) && '\"' !in tail
    ensures OneCharacterText(path, w, tail) <==> CharactersTold(path)
  {
    if CharactersTold(path) {
      AllCharactersAlike(path, w, tail);
    } else {
      SomeCharactersDiffer(path, w, tail);
    }
  }

  // ------------------------------------------------------- numbers and booleans

  function NumberText(w: string, kind: string, number: string, tail: string): string {
    (w + kind) + ("`" + (number + "`" + tail))
  }

  function NumberOut(path: string, w: string, kind: string, tail: string, number: string): string {
    RedactMessage(path + NumberText(w, kind, number, tail), true)
  }

  /** What a number or boolean holds none of. */
  predicate Plain(number: string) {
    NoMarks(number) && '\\' !in number
  }

  ghost predicate OneNumberText(path: string, w: string, kind: string, tail: string) {
    forall a, b | Plain(a) && Plain(b) :: NumberOut(path, w, kind, tail, a) == NumberOut(path, w, kind, tail, b)
  }

  /** No backtick of the path is met open. An open quote takes in the whole value when the text behind closes it
      (`closes`), and stays as it is when not. */
  predicate TicksClose(s: string, closes: bool)
    decreases |s|
  {
    if s == "" then true
    else
      match Next(s)
      case Some((_, rest)) => TicksClose(rest, closes)
      case None => s[0] != '`' && (closes || TicksClose(s[1..], closes))
  }

  predicate NumbersTold(path: string, tail: string) {
    PathTold(path, true, TicksClose(path, BodyLength(tail).Some?))
  }

  lemma NumberParts(w: string, kind: string, number: string, tail: string)
    ensures NumberText(w, kind, number, tail) == ((w + kind) + ("`" + number)) + (['`'] + tail)
    ensures NumberText(w, kind, number, tail) == ((w + kind) + ("`" + number)) + ("`" + tail)
    ensures NumberText(w, kind, number, tail) == (w + kind) + (['`'] + (number + ("`" + tail)))
    ensures NumberText(w, kind, number, tail) == ((w + kind) + ("`" + number + "`")) + tail
  {
  }

  lemma NumberLetters(w: string, kind: string)
    requires InvalidWording(w) && TickedKind(kind)
    ensures NoMarks(w + kind) && '\\' !in w + kind
  {
    InvalidFacts(w, kind);
  }

  lemma PlainInBody(w: string, kind: string, number: string)
    requires InvalidWording(w) && TickedKind(kind) && Plain(number)
    ensures EscapedBody((w + kind) + ("`" + number + "`"))
  {
    var body := (w + kind) + ("`" + number + "`");
    NumberLetters(w, kind);
    assert forall c | c in body :: c in w + kind || c in number || c == '`';
    PlainBody(body);
  }

  lemma ClosedQuote(t: string, n: nat, rest: string)
    requires BodyLength(t) == Some(n) && rest == t[n..]
    ensures RedactValues(['\"'] + t) == REDACTED + RedactValues(rest)
  {
    var s := ['\"'] + t;
    assert s[1..] == t && s[1 + n..] == rest;
  }

  lemma DropPast(a: string, b: string, n: nat)
    requires n <= |b|
    ensures (a + b)[|a| + n..] == b[n..]
  {
  }

  lemma QuoteRunsInto(body: string, tail: string)
    requires EscapedBody(body) && BodyLength(tail).Some?
    ensures RedactValues(['\"'] + (body + tail)) == REDACTED + RedactValues(tail[BodyLength(tail).value..])
  {
    var n := BodyLength(tail).value;
    BodyThrough(body, tail);
    DropPast(body, tail, n);
    ClosedQuote(body + tail, |body| + n, tail[n..]);
  }

  /** An open quote takes in the value and runs into the text behind. */
  lemma QuoteRunsOn(rest: string, w: string, kind: string, number: string, tail: string)
    requires EscapedBody(rest) && InvalidWording(w) && TickedKind(kind) && Plain(number) && BodyLength(tail).Some?
    ensures RedactValues((['\"'] + rest) + NumberText(w, kind, number, tail)) ==
            REDACTED + RedactValues(tail[BodyLength(tail).value..])
  {
    var body := (w + kind) + ("`" + number + "`");
    PlainInBody(w, kind, number);
    BodyOf(rest, body);
    NumberParts(w, kind, number, tail);
    Prepended(['\"'], rest, body + tail);
    Prepended(rest, body, tail);
    QuoteRunsInto(rest + body, tail);
  }

  lemma QuoteNotClosed(rest: string, w: string, kind: string, number: string, tail: string)
    requires EscapedBody(rest) && InvalidWording(w) && TickedKind(kind) && Plain(number) && BodyLength(tail).None?
    ensures RedactValues((['\"'] + rest) + NumberText(w, kind, number, tail)) ==
            ['\"'] + RedactValues(rest + NumberText(w, kind, number, tail))
  {
    var body := (w + kind) + ("`" + number + "`");
    PlainInBody(w, kind, number);
    NumberParts(w, kind, number, tail);
    BodyThrough(body, tail);
    BodyThrough(rest, NumberText(w, kind, number, tail));
    QuoteStays(rest, NumberText(w, kind, number, tail));
  }

  lemma OpenHere(s: string) returns (c: char, rest: string)
    requires s != "" && PathEnd(s) && Next(s).None?
    ensures s == [c] + rest && s[0] == c && s[1..] == rest && Mark(c) && PathEnd(rest)
    ensures c == '\"' ==> EscapedBody(rest)
    ensures c == '`' ==> '`' !in rest
  {
    OpenFacts(s);
    c, rest := s[0], s[1..];
  }

  lemma NumberAlone(w: string, kind: string, number: string, tail: string)
    requires InvalidWording(w) && TickedKind(kind) && Plain(number)
    ensures RedactValues("" + NumberText(w, kind, number, tail)) == (w + kind) + (REDACTED + RedactValues(tail))
  {
    InvalidFacts(w, kind);
    KindEnds(w, kind);
    TickedRedacted(w + kind, number, tail);
    assert "" + NumberText(w, kind, number, tail) == NumberText(w, kind, number, tail);
  }

  lemma {:induction false} NumbersScanAlike(s: string, w: string, kind: string, tail: string, a: string, b: string)
    requires PathEnd(s) && InvalidWording(w) && TickedKind(kind) && Plain(a) && Plain(b)
    requires TicksClose(s, BodyLength(tail).Some?)
    ensures RedactValues(s + NumberText(w, kind, a, tail)) == RedactValues(s + NumberText(w, kind, b, tail))
    decreases |s|
  {
    if s == "" {
      NumberAlone(w, kind, a, tail);
      NumberAlone(w, kind, b, tail);
    } else if Next(s).Some? {
      var rest := Next(s).value.1;
      NextIs(s, NumberText(w, kind, a, tail));
      NextIs(s, NumberText(w, kind, b, tail));
      NumbersScanAlike(rest, w, kind, tail, a, b);
    } else {
      var c, rest := OpenHere(s);
      if BodyLength(tail).Some? {
        QuoteRunsOn(rest, w, kind, a, tail);
        QuoteRunsOn(rest, w, kind, b, tail);
      } else {
        QuoteNotClosed(rest, w, kind, a, tail);
        QuoteNotClosed(rest, w, kind, b, tail);
        NumbersScanAlike(rest, w, kind, tail, a, b);
      }
    }
  }

  /** An open backtick runs up to the value's, and the value comes out. */
  lemma TickLetsOut(rest: string, w: string, kind: string, number: string, tail: string)
    requires '`' !in rest && InvalidWording(w) && TickedKind(kind)
    ensures RedactValues((['`'] + rest) + NumberText(w, kind, number, tail)) ==
            REDACTED + RedactValues(number + ("`" + tail))
  {
    NumberLetters(w, kind);
    NumberParts(w, kind, number, tail);
    Opening(['`'] + rest, rest, NumberText(w, kind, number, tail), w + kind, '`', number + ("`" + tail));
    TickTakes(rest + (w + kind), number + ("`" + tail));
  }

  lemma {:induction false} NumbersScanUnlike(s: string, w: string, kind: string, tail: string)
    requires PathEnd(s) && InvalidWording(w) && TickedKind(kind) && !TicksClose(s, BodyLength(tail).Some?)
    ensures RedactValues(s + NumberText(w, kind, "1", tail)) != RedactValues(s + NumberText(w, kind, "2", tail))
    decreases |s|
  {
    var x, y := NumberText(w, kind, "1", tail), NumberText(w, kind, "2", tail);
    if Next(s).Some? {
      var (mask, rest) := Next(s).value;
      NextIs(s, x);
      NextIs(s, y);
      NumbersScanUnlike(rest, w, kind, tail);
      Unlike(mask, RedactValues(rest + x), RedactValues(rest + y));
    } else {
      var c, rest := OpenHere(s);
      if c == '`' {
        TickLetsOut(rest, w, kind, "1", tail);
        TickLetsOut(rest, w, kind, "2", tail);
        DigitsDiffer("`" + tail);
        Unlike(REDACTED, RedactValues("1" + ("`" + tail)), RedactValues("2" + ("`" + tail)));
      } else {
        QuoteNotClosed(rest, w, kind, "1", tail);
        QuoteNotClosed(rest, w, kind, "2", tail);
        NumbersScanUnlike(rest, w, kind, tail);
        Unlike(['\"'], RedactValues(rest + x), RedactValues(rest + y));
      }
    }
  }

  lemma DigitsDiffer(rest: string)
    ensures RedactValues("1" + rest) != RedactValues("2" + rest)
  {
    LettersDiffer('1', '2', rest);
    assert "1" == ['1'] && "2" == ['2'];
  }

  /** The path's wording is about anything but an unknown name: all depends on the scan. */
  lemma OtherScanned(path: string, m: nat, st: nat, x: string)
    requires FirstMark(path) == Some(m) && WordingStart(path[..m], 0) == Some(st) && UnknownKind(path[st..]).None?
    ensures RedactMessage(path + x, true) == RedactValues(path + x)
  {
    FromPath(path, m, st, x);
    UnknownInPath(path[st..], x);
  }

  lemma NumbersAlike(path: string, w: string, kind: string, tail: string, a: string, b: string)
    requires BeforeMessage(path) && InvalidWording(w) && TickedKind(kind) && TickTail(tail) && Plain(a) && Plain(b)
    requires NumbersTold(path, tail)
    ensures NumberOut(path, w, kind, tail, a) == NumberOut(path, w, kind, tail, b)
  {
    NumberParts(w, kind, a, tail);
    NumberParts(w, kind, b, tail);
    match FirstMark(path) {
      case None =>
        NumberIsIndependent(path, w, kind, a, tail, true);
        NumberIsIndependent(path, w, kind, b, tail, true);
        Prepended(path, w + kind, "`" + (a + "`" + tail));
        Prepended(path, w + kind, "`" + (b + "`" + tail));
      case Some(m) =>
        match WordingStart(path[..m], 0) {
          case None =>
            UntoldPath(path, m, (w + kind) + ("`" + a), '`', tail);
            UntoldPath(path, m, (w + kind) + ("`" + b), '`', tail);
          case Some(st) =>
            if UnknownKind(path[st..]).Some? {
              UnknownTold(path, m, st, (w + kind) + ("`" + a), "`" + tail);
              UnknownTold(path, m, st, (w + kind) + ("`" + b), "`" + tail);
            } else {
              EndOf(path);
              OtherScanned(path, m, st, NumberText(w, kind, a, tail));
              OtherScanned(path, m, st, NumberText(w, kind, b, tail));
              NumbersScanAlike(path, w, kind, tail, a, b);
            }
        }
    }
  }

  lemma NumbersDiffer(path: string, w: string, kind: string, tail: string)
    requires BeforeMessage(path) && InvalidWording(w) && TickedKind(kind) && !NumbersTold(path, tail)
    ensures NumberOut(path, w, kind, tail, "1") != NumberOut(path, w, kind, tail, "2")
  {
    var m := FirstMark(path).value;
    var st := WordingStart(path[..m], 0).value;
    EndOf(path);
    OtherScanned(path, m, st, NumberText(w, kind, "1", tail));
    OtherScanned(path, m, st, NumberText(w, kind, "2", tail));
    NumbersScanUnlike(path, w, kind, tail);
  }

  lemma NumbersAlikeIfTold(path: string, w: string, kind: string, tail: string, a: string, b: string)
    ensures BeforeMessage(path) && InvalidWording(w) && TickedKind(kind) && TickTail(tail) && Plain(a) && Plain(b)
            && NumbersTold(path, tail) ==>
              NumberOut(path, w, kind, tail, a) == NumberOut(path, w, kind, tail, b)
  {
    if BeforeMessage(path) && InvalidWording(w) && TickedKind(kind) && TickTail(tail) && Plain(a) && Plain(b)
       && NumbersTold(path, tail)
    {
      NumbersAlike(path, w, kind, tail, a, b);
    }
  }

  lemma AllNumbersAlike(path: string, w: string, kind: string, tail: string)
    requires BeforeMessage(path) && InvalidWording(w) && TickedKind(kind) && TickTail(tail) && NumbersTold(path, tail)
    ensures OneNumberText(path, w, kind, tail)
  {
    forall a, b { NumbersAlikeIfTold(path, w, kind, tail, a, b); }
  }

  lemma SomeNumbersDiffer(path: string, w: string, kind: string, tail: string)
    requires BeforeMessage(path) && InvalidWording(w) && TickedKind(kind) && !NumbersTold(path, tail)
    ensures !OneNumberText(path, w, kind, tail)
  {
    NumbersDiffer(path, w, kind, tail);
    assert Plain("1") && Plain("2");
  }

  /** All numbers and booleans come out as one text, before a text that begins as serde's does, if and only if the
      path has no quote or backtick; or no wording of serde's ends before its first one; or the wording that does
      is about an unknown name; or no backtick of the path is met open. */
  lemma NumbersExactly(path: string, w: string, kind: string, tail: string)
    requires BeforeMessage(path) && InvalidWording(w) && TickedKind(kind) && TickTail(tail)
    ensures OneNumberText(path, w, kind, tail) <==> NumbersTold(path, tail)
  {
    if NumbersTold(path, tail) {
      AllNumbersAlike(path, w, kind, tail);
    } else {
      SomeNumbersDiffer(path, w, kind, tail);
    }
  }

  // --------------------------------------------------------------- what gets out

  /** A path that is a wording of serde's, a quote or backtick, and `": "`. */
  lemma WordingPath(wording: string, mark: char)
    requires (wording == VARIANT && mark == '\"') || (wording == MISSING && mark == '`')
    ensures NoMarks(wording) && !Ends(wording, CHARACTER)
    ensures var path := wording + ([mark] + ": ");
            && BeforeMessage(path) && FirstMark(path) == Some(|wording|)
            && WordingStart(path[..|wording|], 0) == Some(0) && UnknownKind(path[0..]).None?
  {
    var path := wording + ([mark] + ": ");
    MissingFacts();
    KindEndsPlain(VARIANT);
    FirstMarkAfter(wording, [mark] + ": ");
    assert path[..|wording|] == wording && wording[0..] == wording;
    assert path[|path| - 2..] == ": ";
    assert path[0..] == path;
    NoKindIn(path, |wording|);
  }

  const MISSING := "missing field "

  lemma MissingFacts()
    ensures NoMarks(MISSING) && !Ends(MISSING, CHARACTER) && Wording(MISSING) && Wording(VARIANT)
    ensures |MISSING| == 14 && |VARIANT| == 16 && |FIELD| == 14
    ensures MISSING[0] == 'm' && FIELD[0] == 'u' && VARIANT[0] == 'u'
  {
    CharacterChars();
    assert MISSING[|MISSING| - 10..][8] == 'd';
  }

  lemma NoKindIn(path: string, m: nat)
    requires FirstMark(path) == Some(m)
    requires path[m] == '\"' || path[0] == 'm'
    ensures UnknownKind(path).None?
  {
    KindFirsts();
    NoKindAt(VARIANT, path, m);
    NoKindAt(FIELD, path, m);
    NeitherKind(path);
  }

  lemma KindFirsts()
    ensures NoMarks(VARIANT) && NoMarks(FIELD) && VARIANT != "" && FIELD != "" && VARIANT[0] == FIELD[0] == 'u'
  {
  }

  lemma NeitherKind(path: string)
    requires !(VARIANT + "`" <= path) && !(FIELD + "`" <= path)
    ensures UnknownKind(path).None?
  {
  }

  lemma KindAtMark(kind: string, path: string, m: nat)
    requires NoMarks(kind) && kind != "" && FirstMark(path) == Some(m)
    ensures kind + "`" <= path ==> path[m] == '`' && path[0] == kind[0]
  {
    if kind + "`" <= path {
      assert path[..|kind| + 1] == kind + "`";
      assert path == kind + path[|kind|..] && path[|kind|..][0] == '`';
      FirstMarkAfter(kind, path[|kind|..]);
    }
  }

  lemma NoKindAt(kind: string, path: string, m: nat)
    requires NoMarks(kind) && kind != "" && FirstMark(path) == Some(m)
    requires path[m] == '\"' || path[0] != kind[0]
    ensures !(kind + "`" <= path)
  {
    KindAtMark(kind, path, m);
  }

  /** Behind the path `unknown variant ": ` every string without quotes and backticks comes out. */
  lemma StringLeaks(v: string, tail: string)
    requires NoMarks(v)
    ensures RedactMessage((VARIANT + "\": ") + StringText(INVALID[0], v, tail), true) ==
            VARIANT + (REDACTED + (v + RedactValues("\"" + tail)))
  {
    var path, x := VARIANT + (['\"'] + ": "), StringText(INVALID[0], v, tail);
    assert VARIANT + "\": " == path;
    WordingPath(VARIANT, '\"');
    OtherScanned(path, |VARIANT|, 0, x);
    var body, rest := ": " + (INVALID[0] + "string "), v + ("\"" + tail);
    LeakedString(v, tail);
    StringWording(INVALID[0]);
    BodyOf(": ", INVALID[0] + "string ");
    QuotedRedacted(VARIANT, body, rest);
    PlainStays(v, "\"" + tail);
  }

  lemma LeakedString(v: string, tail: string)
    ensures (VARIANT + (['\"'] + ": ")) + StringText(INVALID[0], v, tail) ==
            VARIANT + ("\"" + ((": " + (INVALID[0] + "string ")) + "\"" + (v + ("\"" + tail))))
  {
    LeakedText(VARIANT, '\"', ": ", INVALID[0] + "string ", '\"', v + "\"" + tail);
    Prepended(v, "\"", tail);
  }

  lemma LeakedText(a: string, mark: char, b: string, wording: string, opening: char, rest: string)
    ensures (a + ([mark] + b)) + (wording + ([opening] + rest)) == a + ([mark] + ((b + wording) + [opening] + rest))
  {
  }

  /** Behind the path `missing field `: ` every number comes out. */
  lemma NumberLeaks(number: string, tail: string)
    requires Digits(number)
    ensures RedactMessage((MISSING + "`: ") + NumberText(INVALID[0], "integer ", number, tail), true) ==
            MISSING + (REDACTED + (number + RedactValues("`" + tail)))
  {
    var path, x := MISSING + (['`'] + ": "), NumberText(INVALID[0], "integer ", number, tail);
    assert MISSING + "`: " == path;
    WordingPath(MISSING, '`');
    OtherScanned(path, |MISSING|, 0, x);
    NumberLetters(INVALID[0], "integer ");
    LeakedText(MISSING, '`', ": ", INVALID[0] + "integer ", '`', number + "`" + tail);
    Prepended(number, "`", tail);
    TickedRedacted(MISSING, ": " + (INVALID[0] + "integer "), number + ("`" + tail));
    DigitsEnd(number);
    PlainStays(number, "`" + tail);
  }

  lemma DigitsEnd(number: string)
    requires Digits(number)
    ensures NoMarks(number) && !Ends(number, CHARACTER)
  {
    CharacterChars();
    assert |number| >= 10 ==> number[|number| - 10..][8] == number[|number| - 2];
  }

  /** So does every unknown name without quotes and backticks. */
  lemma NameLeaks(kind: string, value: string, closing: string, names: string)
    requires UnknownWording(kind) && ClosingMarker(closing) && NoMarks(value) && !Ends(value, CHARACTER)
    ensures RedactMessage((MISSING + "`: ") + UnknownMessage(kind, value, closing, names), true) ==
            MISSING + (REDACTED + (value + RedactValues(closing + names)))
  {
    var path, x := MISSING + (['`'] + ": "), UnknownMessage(kind, value, closing, names);
    assert MISSING + "`: " == path;
    WordingPath(MISSING, '`');
    OtherScanned(path, |MISSING|, 0, x);
    KindEndsPlain(kind);
    LeakedText(MISSING, '`', ": ", kind, '`', value + (closing + names));
    TickedRedacted(MISSING, ": " + kind, value + (closing + names));
    MarkerFacts(closing, names);
    PlainStays(value, closing + names);
  }
}
