/** Redaction of the values in serde's error messages. */
module Redact {
  import opened Wrappers

  const REDACTED := "[redacted]"
  const CHARACTER := "character "

  predicate Mark(c: char) { c == '\"' || c == '`' }

  predicate NoMarks(s: string) {
    forall i | 0 <= i < |s| :: !Mark(s[i])
  }

  /** The position of the first quote or backtick. */
  function FirstMark(s: string): (i: Option<nat>)
    ensures i.Some? ==> i.value < |s| && Mark(s[i.value]) && NoMarks(s[..i.value])
    ensures i.None? ==> NoMarks(s)
  {
    if s == "" then None
    else if Mark(s[0]) then Some(0)
    else match FirstMark(s[1..]) case None => None case Some(i) => Some(i + 1)
  }

  // --------------------------------------------------------------- redact_values

  /** The length of a string body with its closing quote: `(?:[^"\\]|\\.)*"`. */
  function BodyLength(s: string): (n: Option<nat>)
    ensures n.Some? ==> 1 <= n.value <= |s|
  {
    if s == "" then None
    else if s[0] == '\"' then Some(1)
    else if s[0] == '\\' then
      if |s| == 1 then None
      else match BodyLength(s[2..]) case None => None case Some(n) => Some(n + 2)
    else match BodyLength(s[1..]) case None => None case Some(n) => Some(n + 1)
  }

  /** The length up to and with the next backtick: "[^`]*`". */
  function TickLength(s: string): (n: Option<nat>)
    ensures n.Some? ==> 1 <= n.value <= |s|
  {
    if s == "" then None
    else if s[0] == '`' then Some(1)
    else match TickLength(s[1..]) case None => None case Some(n) => Some(n + 1)
  }

  /** What the pattern of a value matches at the start of the text, and what replaces it. */
  function ValueAt(s: string): (r: Option<(nat, string)>)
    ensures r.Some? ==> 1 <= r.value.0 <= |s|
  {
    if s == "" then None
    else if s[0] == '\"' then
      match BodyLength(s[1..]) case None => None case Some(n) => Some((n + 1, REDACTED))
    else if CHARACTER + "`" <= s && |s| > |CHARACTER| + 2 && s[|CHARACTER| + 2] == '`' then
      Some((|CHARACTER| + 3, CHARACTER + REDACTED))
    else if s[0] == '`' then
      match TickLength(s[1..]) case None => None case Some(n) => Some((n + 1, REDACTED))
    else None
  }

  /** The text with each value `at` finds replaced by what it gives, from the left. */
  function Replaced(s: string, at: string -> Option<(nat, string)>): string {
    if s == "" then ""
    else
      match at(s)
      case None => [s[0]] + Replaced(s[1..], at)
      case Some((n, mask)) => if 1 <= n <= |s| then mask + Replaced(s[n..], at) else s
  }

  function RedactValues(s: string): string {
    Replaced(s, ValueAt)
  }

  // -------------------------------------------------------------- redact_message

  const EXPECTED := "`, expected"
  const NONE := "`, there are no"

  /** The closing marker at the start of the text, without its backtick, and what follows it. */
  function Closing(s: string): Option<(string, string)> {
    if EXPECTED <= s then Some((EXPECTED[1..], s[|EXPECTED|..]))
    else if NONE <= s then Some((NONE[1..], s[|NONE|..]))
    else None
  }

  /** The last place where something is: the greedy `.*` runs up to it. */
  function LastOf<T>(s: string, at: string -> Option<T>): (i: Option<nat>)
    ensures i.Some? ==> i.value < |s| && at(s[i.value..]).Some?
  {
    if s == "" then None
    else
      match LastOf(s[1..], at)
      case Some(i) => Some(i + 1)
      case None => if at(s).Some? then Some(0) else None
  }

  function LastClosing(s: string): Option<nat> {
    LastOf(s, Closing)
  }

  const VARIANT := "unknown variant "
  const FIELD := "unknown field "

  /** What kind of unknown name the message is about. */
  function UnknownKind(s: string): Option<string> {
    if VARIANT + "`" <= s then Some(VARIANT)
    else if FIELD + "`" <= s then Some(FIELD)
    else None
  }

  /** The message after the backtick, with the name redacted up to the last closing marker. */
  function RedactName(kind: string, name: string): Option<string> {
    RedactUpTo(kind, name, Closing)
  }

  function RedactUpTo(kind: string, name: string, at: string -> Option<(string, string)>): Option<string> {
    match LastOf(name, at)
    case None => None
    case Some(i) =>
      var (closing, rest) := at(name[i..]).value;
      Some(kind + REDACTED + closing + rest)
  }

  /** The form of an unknown variant or field, with the name's text redacted whole. */
  function RedactUnknown(s: string): Option<string> {
    match UnknownKind(s)
    case None => None
    case Some(kind) => RedactName(kind, s[|kind| + 1..])
  }

  const INVALID := ["invalid type: ", "invalid value: "]
  const KINDS := ["string ", "character ", "boolean ", "integer ", "floating point "]

  /** serde's wording before the first value of a message. */
  predicate Wording(w: string) {
    w == VARIANT || w == FIELD || w == "missing field " || w == "duplicate field " ||
    exists a, b :: a in INVALID && b in KINDS && w == a + b
  }

  /** Where serde's wording starts, when the text before the first value ends with it, at the start
      or after a path: the longest of the endings that do. */
  function WordingStart(before: string, from: nat): (start: Option<nat>)
    requires from <= |before|
    ensures start.Some? ==> start.value <= |before|
    decreases |before| - from
  {
    if Wording(before[from..]) && (from == 0 || (from >= 2 && before[from - 2..from] == ": ")) then Some(from)
    else if from == |before| then None
    else WordingStart(before, from + 1)
  }

  predicate Digits(s: string) {
    s != "" && forall i | 0 <= i < |s| :: '0' <= s[i] <= '9'
  }

  /** " at line N column M", or " at position N", and nothing after it. */
  predicate Location(s: string) {
    (" at position " <= s && Digits(s[|" at position "|..])) ||
    (" at line " <= s &&
     exists n :: |" at line "| < n < |s| && Digits(s[|" at line "|..n]) &&
                 " column " <= s[n..] && Digits(s[n..][|" column "|..]))
  }

  function LocationOf(s: string): string {
    if s == "" || Location(s) then s else LocationOf(s[1..])
  }

  /** `redact_message`. With `pathPrefix` (yaml) the message may begin with a path. */
  function RedactMessage(s: string, pathPrefix: bool): string {
    match FirstMark(s)
    case Some(mark) =>
      if pathPrefix then
        match WordingStart(s[..mark], 0)
        case None => s[..mark] + REDACTED + LocationOf(s[mark..])
        case Some(start) => FromStart(s, start)
      else FromStart(s, 0)
    case None => FromStart(s, 0)
  }

  function FromStart(s: string, start: nat): string
    requires start <= |s|
  {
    match RedactUnknown(s[start..])
    case Some(redacted) => s[..start] + redacted
    case None => RedactValues(s)
  }

  // ------------------------------------------------------------ what serde writes

  /** The body of a string in double quotes, its quotes and backslashes escaped: whatever else is
      escaped, and however. */
  predicate EscapedBody(body: string) {
    if body == "" then true
    else if body[0] == '\\' then |body| > 1 && EscapedBody(body[2..])
    else body[0] != '\"' && EscapedBody(body[1..])
  }

  /** A value as Rust's `{:?}` writes it, but for the escapes of control characters, which
      `EscapedBody` allows too. */
  function DebugBody(value: string): string {
    if value == "" then ""
    else (if value[0] == '\"' || value[0] == '\\' then ['\\', value[0]] else [value[0]]) + DebugBody(value[1..])
  }

  lemma {:induction false} DebugIsEscaped(value: string)
    ensures EscapedBody(DebugBody(value))
  {
    if value != "" {
      DebugIsEscaped(value[1..]);
      var head := if value[0] == '\"' || value[0] == '\\' then ['\\', value[0]] else [value[0]];
      assert DebugBody(value)[|head|..] == DebugBody(value[1..]);
    }
  }

  lemma {:induction false} BodyEnds(body: string, tail: string)
    requires EscapedBody(body)
    ensures BodyLength(body + "\"" + tail) == Some(|body| + 1)
  {
    var s := body + "\"" + tail;
    if body != "" {
      var n := if body[0] == '\\' then 2 else 1;
      BodyEnds(body[n..], tail);
      assert s[n..] == body[n..] + "\"" + tail;
    }
  }

  lemma {:induction false} TickEnds(body: string, tail: string)
    requires '`' !in body
    ensures TickLength(body + "`" + tail) == Some(|body| + 1)
  {
    var s := body + "`" + tail;
    if body != "" {
      TickEnds(body[1..], tail);
      assert s[1..] == body[1..] + "`" + tail;
    }
  }

  lemma NoCharacterValue(pre: string, s: string)
    requires NoMarks(pre) && pre != "" && (s == "" || s[0] == '\"' || (s[0] == '`' && !Ends(pre, CHARACTER)))
    ensures !(CHARACTER + "`" <= pre + s)
  {
    var all := pre + s;
    assert |pre| < |CHARACTER| && s != "" ==> all[|pre|] == s[0];
    assert |pre| == |CHARACTER| ==> pre[|pre| - |CHARACTER|..] == pre && all[..|CHARACTER|] == pre;
    assert (CHARACTER + "`")[|CHARACTER|] == '`' && (CHARACTER + "`")[..|CHARACTER|] == CHARACTER;
    assert |all| > |CHARACTER| ==>
        all[|CHARACTER|] == if |pre| > |CHARACTER| then pre[|CHARACTER|] else s[|CHARACTER| - |pre|];
  }

  /** Text in which no value begins stays as it is. */
  lemma {:induction false} ReplacedAfter(pre: string, s: string, at: string -> Option<(nat, string)>)
    requires forall i | 0 <= i < |pre| :: at(pre[i..] + s).None?
    ensures Replaced(pre + s, at) == pre + Replaced(s, at)
  {
    if pre == "" {
      assert pre + s == s;
    } else {
      var rest := pre[1..];
      forall i | 0 <= i < |rest| ensures at(rest[i..] + s).None? {
        assert rest[i..] == pre[i + 1..];
      }
      assert pre[0..] == pre && (pre + s)[1..] == rest + s;
      ReplacedAfter(rest, s, at);
    }
  }

  /** Text before the first value stays as it is. */
  lemma PlainStays(pre: string, s: string)
    requires NoMarks(pre) && (s == "" || s[0] == '\"' || (s[0] == '`' && !Ends(pre, CHARACTER)))
    ensures RedactValues(pre + s) == pre + RedactValues(s)
  {
    forall i | 0 <= i < |pre| ensures ValueAt(pre[i..] + s).None? {
      if s != "" && s[0] == '`' { EndsTail(pre, i); }
      NoCharacterValue(pre[i..], s);
    }
    ReplacedAfter(pre, s, ValueAt);
  }

  predicate Ends(s: string, end: string) {
    |s| >= |end| && s[|s| - |end|..] == end
  }

  lemma EndsTail(pre: string, i: nat)
    requires i < |pre| && !Ends(pre, CHARACTER)
    ensures !Ends(pre[i..], CHARACTER)
  {
    var tail := pre[i..];
    if |tail| >= |CHARACTER| {
      assert tail[|tail| - |CHARACTER|..] == pre[|pre| - |CHARACTER|..];
    }
  }

  // -------------------------------------------------------------- independence

  /** What is looked for starts with a backtick. */
  ghost predicate FromTick<T>(at: string -> Option<T>) {
    forall s: string :: at(s).Some? ==> s != "" && s[0] == '`'
  }

  /** Text without backticks holds nothing that starts with one. */
  lemma {:induction false} NoneIn<T>(pre: string, rest: string, at: string -> Option<T>)
    requires FromTick(at) && '`' !in pre && LastOf(rest, at).None?
    ensures LastOf(pre + rest, at).None?
  {
    if pre == "" {
      assert pre + rest == rest;
    } else {
      assert (pre + rest)[1..] == pre[1..] + rest && (pre + rest)[0] == pre[0];
      NoneIn(pre[1..], rest, at);
    }
  }

  /** The last of all is found whatever text is before it. */
  lemma {:induction false} LastAfter<T>(value: string, tail: string, at: string -> Option<T>)
    requires tail != "" && at(tail).Some? && LastOf(tail[1..], at).None?
    ensures LastOf(value + tail, at) == Some(|value|)
  {
    if value == "" {
      assert value + tail == tail;
    } else {
      assert (value + tail)[1..] == value[1..] + tail;
      LastAfter(value[1..], tail, at);
    }
  }

  lemma RedactedUpTo(kind: string, value: string, tail: string, at: string -> Option<(string, string)>)
    requires LastOf(value + tail, at) == Some(|value|) && at(tail).Some?
    ensures RedactUpTo(kind, value + tail, at) == Some(kind + REDACTED + at(tail).value.0 + at(tail).value.1)
  {
  }

  predicate ClosingMarker(closing: string) {
    closing == EXPECTED || closing == NONE
  }

  lemma MarkerFacts(closing: string, names: string)
    requires ClosingMarker(closing)
    ensures closing != "" && closing[0] == '`' && '`' !in closing[1..]
    ensures Closing(closing + names) == Some((closing[1..], names))
  {
    assert (closing + names)[|closing|..] == names;
    if closing == NONE {
      assert (NONE + names)[3] == 't' && EXPECTED[3] == 'e';
    }
  }

  lemma ClosingFromTick()
    ensures FromTick(Closing)
  {
  }

  /** The last closing marker is serde's own, whatever the value before it holds. */
  lemma ClosingIsLast(value: string, closing: string, names: string)
    requires ClosingMarker(closing) && LastClosing(names).None?
    ensures LastClosing(value + (closing + names)) == Some(|value|)
  {
    MarkerFacts(closing, names);
    ClosingFromTick();
    var tail := closing + names;
    assert tail[1..] == closing[1..] + names;
    NoneIn(closing[1..], names, Closing);
    LastAfter(value, tail, Closing);
  }

  lemma NameRedacted(kind: string, value: string, closing: string, names: string)
    requires ClosingMarker(closing) && LastClosing(names).None?
    ensures RedactName(kind, value + (closing + names)) == Some(kind + REDACTED + closing[1..] + names)
  {
    ClosingIsLast(value, closing, names);
    MarkerFacts(closing, names);
    RedactedUpTo(kind, value, closing + names, Closing);
  }

  predicate UnknownWording(kind: string) {
    kind == VARIANT || kind == FIELD
  }

  lemma KindFacts(kind: string, name: string)
    requires UnknownWording(kind)
    ensures UnknownKind(kind + ("`" + name)) == Some(kind) && NoMarks(kind)
  {
    assert kind + ("`" + name) == kind + "`" + name;
    if kind == FIELD {
      assert (kind + ("`" + name))[8] == 'f' && VARIANT[8] == 'v';
    }
  }

  /** serde's message about an unknown name. */
  function UnknownMessage(kind: string, value: string, closing: string, names: string): string {
    kind + ("`" + (value + (closing + names)))
  }

  lemma NameAfterKind(kind: string, name: string)
    requires UnknownKind(kind + ("`" + name)) == Some(kind)
    ensures RedactUnknown(kind + ("`" + name)) == RedactName(kind, name)
  {
    var s := kind + ("`" + name);
    assert s[|kind| + 1..] == name;
  }

  lemma UnknownForm(kind: string, value: string, closing: string, names: string)
    requires UnknownWording(kind) && ClosingMarker(closing) && LastClosing(names).None?
    ensures RedactUnknown(UnknownMessage(kind, value, closing, names)) ==
            Some(kind + REDACTED + closing[1..] + names)
  {
    var name := value + (closing + names);
    KindFacts(kind, name);
    NameAfterKind(kind, name);
    NameRedacted(kind, value, closing, names);
  }

  /** For every value, the message about an unknown variant or field comes out as one text, with the
      names expected after the value kept, as long as those hold no closing marker. */
  lemma UnknownIsIndependent(kind: string, value: string, closing: string, names: string)
    requires UnknownWording(kind) && ClosingMarker(closing) && LastClosing(names).None?
    ensures RedactMessage(UnknownMessage(kind, value, closing, names), false) ==
            kind + REDACTED + closing[1..] + names
  {
    var s := UnknownMessage(kind, value, closing, names);
    UnknownForm(kind, value, closing, names);
    assert s[0..] == s;
    assert s[..0] + (kind + REDACTED + closing[1..] + names) == kind + REDACTED + closing[1..] + names;
  }

  lemma {:induction false} FirstMarkAfter(pre: string, s: string)
    requires NoMarks(pre) && s != "" && Mark(s[0])
    ensures FirstMark(pre + s) == Some(|pre|)
  {
    if pre == "" {
      assert pre + s == s;
    } else {
      assert (pre + s)[1..] == pre[1..] + s;
      FirstMarkAfter(pre[1..], s);
    }
  }

  predicate Colonless(s: string) { ':' !in s }

  lemma ColonOf(a: string, b: string, i: nat)
    requires |a| >= 2 && Colonless(a[..|a| - 2]) && a[|a| - 1] != ':' && Colonless(b)
    requires i < |a + b| && (a + b)[i] == ':'
    ensures (a + b)[i + 2..] == b
  {
    assert forall j :: 0 <= j < |a| - 2 ==> a[..|a| - 2][j] == a[j];
    assert forall j :: 0 <= j < |b| ==> (a + b)[|a| + j] == b[j];
  }

  lemma ColonOfInvalid(a: string)
    requires a in INVALID
    ensures |a| >= 2 && a[0] != ' ' && Colonless(a[..|a| - 2]) && a[|a| - 1] != ':'
  {
  }

  lemma PlainFacts(w: string)
    requires w == VARIANT || w == FIELD || w == "missing field " || w == "duplicate field "
    ensures w != "" && w[0] != ' ' && Colonless(w)
  {
  }

  lemma KindsFacts(b: string)
    requires b in KINDS
    ensures Colonless(b)
  {
  }

  /** A colon in serde's wording is followed by the kind of a value. */
  lemma ColonInWording(w: string, i: nat)
    requires Wording(w)
    ensures w != "" && w[0] != ' '
    ensures i < |w| && w[i] == ':' ==> i + 2 <= |w| && w[i + 2..] in KINDS
  {
    if a, b :| a in INVALID && b in KINDS && w == a + b {
      ColonOfInvalid(a);
      KindsFacts(b);
      assert w[0] == a[0];
      if i < |w| && w[i] == ':' { ColonOf(a, b, i); }
    } else {
      PlainFacts(w);
    }
  }

  lemma UnknownIsNoKind(kind: string)
    requires UnknownWording(kind)
    ensures kind !in KINDS && Wording(kind)
  {
  }

  /** A path, if any, as yaml writes it before serde's message. */
  predicate BeforeMessage(path: string) {
    path == "" || (|path| >= 2 && path[|path| - 2..] == ": ")
  }

  /** No wording begins in the path: a colon in it would be followed by a kind. */
  lemma NoWordingInPath(path: string, wording: string, from: nat)
    requires wording !in KINDS && from < |path| && BeforeMessage(path)
    ensures !Wording((path + wording)[from..])
  {
    var w, colon := (path + wording)[from..], |path| - 2;
    assert path[colon] == path[colon..][0] == ':' && path[colon + 1] == path[colon..][1] == ' ';
    if from <= colon {
      assert w[colon - from] == ':' && w[colon - from + 2..] == wording;
    } else {
      assert w[0] == ' ';
    }
    if Wording(w) {
      ColonInWording(w, if from <= colon then colon - from else 0);
    }
  }

  /** serde's wording is found right after a path. */
  lemma {:induction false} WordingAfterPath(path: string, wording: string, from: nat)
    requires Wording(wording) && wording !in KINDS && from <= |path| && BeforeMessage(path)
    ensures WordingStart(path + wording, from) == Some(|path|)
    decreases |path| - from
  {
    var before := path + wording;
    if from == |path| {
      assert before[from..] == wording;
      assert from >= 2 ==> before[from - 2..from] == path[from - 2..];
    } else {
      NoWordingInPath(path, wording, from);
      WordingAfterPath(path, wording, from + 1);
    }
  }

  /** The same with a yaml path before it that holds no quote or backtick. */
  lemma UnknownAfterPath(path: string, kind: string, value: string, closing: string, names: string)
    requires NoMarks(path) && BeforeMessage(path)
    requires UnknownWording(kind) && ClosingMarker(closing) && LastClosing(names).None?
    ensures RedactMessage(path + UnknownMessage(kind, value, closing, names), true) ==
            path + (kind + REDACTED + closing[1..] + names)
  {
    UnknownIsNoKind(kind);
    WordingAfterPath(path, kind, 0);
    var name := value + (closing + names);
    KindFacts(kind, name);
    UnknownForm(kind, value, closing, names);
    AfterPath(path, kind, "`" + name, true);
    FromStartIs(path, kind + ("`" + name));
  }

  /** What a message comes to when serde's own begins at `start`. */
  lemma MessageFrom(s: string, mark: nat, start: nat, pathPrefix: bool)
    requires FirstMark(s) == Some(mark) && start <= mark
    requires if pathPrefix then WordingStart(s[..mark], 0) == Some(start) else start == 0
    ensures RedactMessage(s, pathPrefix) == FromStart(s, start)
  {
  }

  lemma FromStartIs(path: string, message: string)
    ensures FromStart(path + message, |path|) ==
            if RedactUnknown(message).Some? then path + RedactUnknown(message).value
            else RedactValues(path + message)
  {
    var s := path + message;
    assert s[|path|..] == message && s[..|path|] == path;
  }

  lemma AfterPath(path: string, w: string, rest: string, pathPrefix: bool)
    requires NoMarks(path + w) && rest != "" && Mark(rest[0])
    requires if pathPrefix then WordingStart(path + w, 0) == Some(|path|) else path == ""
    ensures RedactMessage(path + (w + rest), pathPrefix) == FromStart(path + (w + rest), |path|)
  {
    var s := path + (w + rest);
    assert s == (path + w) + rest;
    FirstMarkAfter(path + w, rest);
    assert s[..|path + w|] == path + w;
    MessageFrom(s, |path + w|, |path|, pathPrefix);
  }

  lemma QuotedRedacted(w: string, body: string, tail: string)
    requires NoMarks(w) && EscapedBody(body)
    ensures RedactValues(w + ("\"" + (body + "\"" + tail))) == w + (REDACTED + RedactValues(tail))
  {
    var quoted := "\"" + (body + "\"" + tail);
    BodyEnds(body, tail);
    assert quoted[1..] == body + "\"" + tail && quoted[|body| + 2..] == tail;
    PlainStays(w, quoted);
  }

  lemma TickedRedacted(w: string, number: string, tail: string)
    requires NoMarks(w) && !Ends(w, CHARACTER) && '`' !in number
    ensures RedactValues(w + ("`" + (number + "`" + tail))) == w + (REDACTED + RedactValues(tail))
  {
    var ticked := "`" + (number + "`" + tail);
    TickEnds(number, tail);
    assert ticked[1..] == number + "`" + tail && ticked[|number| + 2..] == tail;
    assert ticked[0] == '`' && CHARACTER[0] == 'c';
    PlainStays(w, ticked);
  }

  lemma CharacterRedacted(c: char, tail: string)
    ensures RedactValues(CHARACTER + ("`" + [c] + "`" + tail)) == CHARACTER + (REDACTED + RedactValues(tail))
  {
    var value := CHARACTER + ("`" + [c] + "`" + tail);
    assert CHARACTER + "`" <= value;
    assert value[|CHARACTER| + 2] == '`' && value[|CHARACTER| + 3..] == tail;
  }

  /** Text up to a character value stays. */
  lemma PlainStaysBefore(pre: string, s: string)
    requires NoMarks(pre) && CHARACTER + "`" <= s
    ensures RedactValues(pre + s) == pre + RedactValues(s)
  {
    forall i | 0 <= i < |pre| ensures ValueAt(pre[i..] + s).None? {
      NoMarkIn(pre[i..], s);
    }
    ReplacedAfter(pre, s, ValueAt);
  }

  /** The backtick of a character value comes later than where one begun in `pre` would have it. */
  lemma NoMarkIn(pre: string, s: string)
    requires NoMarks(pre) && pre != "" && CHARACTER + "`" <= s
    ensures !(CHARACTER + "`" <= pre + s)
  {
    var at := |CHARACTER|;
    if at < |pre| {
      assert (pre + s)[at] == pre[at];
    } else {
      assert (pre + s)[at] == s[at - |pre|] == CHARACTER[at - |pre|];
      CharacterFacts(at - |pre|);
    }
  }

  lemma CharacterFacts(i: nat)
    requires i < |CHARACTER|
    ensures CHARACTER[i] != '`'
  {
  }

  /** serde's wording before a value of a type. */
  predicate InvalidWording(w: string) {
    w == INVALID[0] || w == INVALID[1]
  }

  predicate TickedKind(kind: string) {
    kind == "boolean " || kind == "integer " || kind == "floating point "
  }

  lemma InvalidFacts(w: string, kind: string)
    requires InvalidWording(w) && kind in KINDS
    ensures w != "" && w[0] == 'i' && NoMarks(w) && NoMarks(w + kind) && Wording(w + kind) && w + kind !in KINDS
  {
    assert w in INVALID;
    KindFirst(kind);
    forall k | k in KINDS ensures w + kind != k {
      KindSecond(k);
      assert (w + kind)[1] == w[1] == 'n' && (w + kind)[2] == w[2] == 'v';
    }
  }

  lemma KindFirst(kind: string)
    requires kind in KINDS
    ensures NoMarks(kind)
  {
  }

  lemma KindSecond(kind: string)
    requires kind in KINDS
    ensures |kind| > 2 && !(kind[1] == 'n' && kind[2] == 'v')
  {
  }

  lemma KindEnds(w: string, kind: string)
    requires TickedKind(kind) && NoMarks(w)
    ensures NoMarks(w + kind) && !Ends(w + kind, CHARACTER)
  {
    var all := w + kind;
    assert all[|all| - 4] == kind[|kind| - 4] && all[|all| - 2] == kind[|kind| - 2];
    assert |all| >= |CHARACTER| ==>
        var end := all[|all| - |CHARACTER|..];
        end[6] == all[|all| - 4] && end[8] == all[|all| - 2];
  }

  /** The path there may be before a message: yaml's, without quotes and backticks. */
  predicate PathOf(path: string, pathPrefix: bool) {
    NoMarks(path) && BeforeMessage(path) && (path != "" ==> pathPrefix)
  }

  lemma NotUnknown(s: string)
    requires s != "" && s[0] == 'i'
    ensures RedactUnknown(s).None?
  {
    assert (VARIANT + "`")[0] == 'u' && (FIELD + "`")[0] == 'u';
  }

  /** A message that is not about an unknown name has its values redacted, and those only. */
  lemma ValuesAfterPath(path: string, wording: string, rest: string, pathPrefix: bool)
    requires PathOf(path, pathPrefix) && NoMarks(wording) && Wording(wording) && wording !in KINDS
    requires wording != "" && wording[0] == 'i' && rest != "" && Mark(rest[0])
    ensures RedactMessage(path + wording + rest, pathPrefix) == RedactValues(path + wording + rest)
  {
    assert path + wording + rest == path + (wording + rest);
    WordingAfterPath(path, wording, 0);
    AfterPath(path, wording, rest, pathPrefix);
    FromStartIs(path, wording + rest);
    NotUnknown(wording + rest);
  }

  /** For every string value, its message comes out as one text: the value is escaped in double
      quotes, and may hold any escapes, backticks, or text like serde's own. */
  lemma StringIsIndependent(path: string, w: string, body: string, tail: string, pathPrefix: bool)
    requires PathOf(path, pathPrefix) && InvalidWording(w) && EscapedBody(body)
    ensures RedactMessage(path + (w + "string ") + ("\"" + (body + "\"" + tail)), pathPrefix) ==
            path + (w + "string ") + (REDACTED + RedactValues(tail))
  {
    var wording := w + "string ";
    InvalidFacts(w, "string ");
    ValuesAfterPath(path, wording, "\"" + (body + "\"" + tail), pathPrefix);
    QuotedRedacted(path + wording, body, tail);
  }

  lemma Regroup(a: string, b: string, c: string, d: string)
    ensures a + (b + c) + d == (a + b) + (c + d)
  {
  }

  lemma CharacterAfter(pre: string, c: char, tail: string)
    requires NoMarks(pre)
    ensures RedactValues(pre + (CHARACTER + ("`" + [c] + "`" + tail))) ==
            pre + (CHARACTER + (REDACTED + RedactValues(tail)))
  {
    var ticked := "`" + [c] + "`" + tail;
    CharacterRedacted(c, tail);
    assert CHARACTER + "`" <= CHARACTER + ticked;
    PlainStaysBefore(pre, CHARACTER + ticked);
  }

  /** For every character value, a backtick or a quote too. */
  lemma CharacterIsIndependent(path: string, w: string, c: char, tail: string, pathPrefix: bool)
    requires PathOf(path, pathPrefix) && InvalidWording(w)
    ensures RedactMessage(path + (w + CHARACTER) + ("`" + [c] + "`" + tail), pathPrefix) ==
            path + (w + CHARACTER) + (REDACTED + RedactValues(tail))
  {
    var kind, ticked := CHARACTER, "`" + [c] + "`" + tail;
    InvalidFacts(w, kind);
    ValuesAfterPath(path, w + kind, ticked, pathPrefix);
    Regroup(path, w, kind, ticked);
    Regroup(path, w, kind, REDACTED + RedactValues(tail));
    CharacterAfter(path + w, c, tail);
  }

  lemma TickedAfter(path: string, w: string, kind: string, number: string, tail: string)
    requires NoMarks(path) && NoMarks(w) && TickedKind(kind) && '`' !in number
    ensures RedactValues(path + (w + kind) + ("`" + (number + "`" + tail))) ==
            path + (w + kind) + (REDACTED + RedactValues(tail))
  {
    assert path + (w + kind) == (path + w) + kind;
    KindEnds(path + w, kind);
    TickedRedacted(path + (w + kind), number, tail);
  }

  /** For every number or boolean, which hold no backtick. */
  lemma NumberIsIndependent(path: string, w: string, kind: string, number: string, tail: string, pathPrefix: bool)
    requires PathOf(path, pathPrefix) && InvalidWording(w) && TickedKind(kind) && '`' !in number
    ensures RedactMessage(path + (w + kind) + ("`" + (number + "`" + tail)), pathPrefix) ==
            path + (w + kind) + (REDACTED + RedactValues(tail))
  {
    InvalidFacts(w, kind);
    ValuesAfterPath(path, w + kind, "`" + (number + "`" + tail), pathPrefix);
    TickedAfter(path, w, kind, number, tail);
  }

  // ------------------------------------------------- a quote or backtick in the path

  lemma SpaceInPosition(t: string, i: nat)
    requires " at position " <= t && Digits(t[|" at position "|..])
    requires 0 < i && i + 1 < |t| && t[i] == ' '
    ensures t[i + 1] != 'a'
  {
    var pre := " at position ";
    assert t[..|pre|] == pre;
    if i + 1 < |pre| { assert t[i] == pre[i] && t[i + 1] == pre[i + 1]; }
    else { assert t[i + 1] == t[|pre|..][i + 1 - |pre|]; }
  }

  lemma SpaceInLine(t: string, n: nat, i: nat)
    requires |" at line "| < n < |t| && " at line " <= t && Digits(t[|" at line "|..n])
    requires " column " <= t[n..] && Digits(t[n..][|" column "|..])
    requires 0 < i && i + 1 < |t| && t[i] == ' '
    ensures t[i + 1] != 'a'
  {
    var pre, mid := " at line ", " column ";
    assert t[..|pre|] == pre;
    assert t[n..][..|mid|] == mid;
    if i + 1 < |pre| {
      assert t[i] == pre[i] && t[i + 1] == pre[i + 1];
    } else if i + 1 < n {
      assert t[i + 1] == t[|pre|..n][i + 1 - |pre|];
    } else if i + 1 < n + |mid| {
      assert t[i + 1] == mid[i + 1 - n];
      if i >= n { assert t[i] == mid[i - n]; }
    } else {
      assert t[i + 1] == t[n..][|mid|..][i + 1 - n - |mid|];
    }
  }

  /** A location begins at its only " a". */
  lemma LocationBegins(u: string, at: string)
    requires u != "" && Location(at)
    ensures !Location(u + at)
  {
    var t := u + at;
    assert at[0] == ' ' && at[1] == 'a' by {
      assert " at position "[0] == ' ' && " at position "[1] == 'a';
      assert " at line "[0] == ' ' && " at line "[1] == 'a';
    }
    assert t[|u|] == ' ' && t[|u| + 1] == 'a';
    if Location(t) {
      if " at position " <= t && Digits(t[|" at position "|..]) {
        SpaceInPosition(t, |u|);
      } else {
        var n :| |" at line "| < n < |t| && Digits(t[|" at line "|..n]) &&
                 " column " <= t[n..] && Digits(t[n..][|" column "|..]);
        SpaceInLine(t, n, |u|);
      }
    }
  }

  lemma {:induction false} LocationIsLast(u: string, at: string)
    requires Location(at)
    ensures LocationOf(u + at) == at
  {
    if u == "" {
      assert u + at == at;
    } else {
      LocationBegins(u, at);
      assert (u + at)[1..] == u[1..] + at;
      LocationIsLast(u[1..], at);
    }
  }

  /** When a path's own quote or backtick cannot be told from a value's, all from it on goes, but for
      where the error is: whatever value follows, the message comes out as one text. */
  lemma MarkedPathIsIndependent(before: string, rest: string, at: string)
    requires NoMarks(before) && WordingStart(before, 0).None?
    requires rest != "" && Mark(rest[0]) && Location(at)
    ensures RedactMessage(before + (rest + at), true) == before + REDACTED + at
  {
    var s := before + (rest + at);
    FirstMarkAfter(before, rest + at);
    assert s[..|before|] == before && s[|before|..] == rest + at;
    LocationIsLast(rest, at);
  }

  /** A message without quotes and backticks stays as it is. */
  lemma PlainMessageStays(s: string, pathPrefix: bool)
    requires NoMarks(s)
    ensures RedactMessage(s, pathPrefix) == s
  {
    assert FirstMark(s).None?;
    assert s[0..] == s && RedactUnknown(s).None? by { NoKind(s); }
    PlainStays(s, "");
    NothingStays();
    assert s + "" == s;
  }

  lemma NoKind(s: string)
    requires NoMarks(s)
    ensures UnknownKind(s).None?
  {
    NotBehind(VARIANT, s);
    NotBehind(FIELD, s);
  }

  lemma NotBehind(kind: string, s: string)
    requires NoMarks(s)
    ensures !(kind + "`" <= s)
  {
    assert (kind + "`")[|kind|] == '`';
  }

  lemma NothingStays()
    ensures RedactValues("") == ""
  {
  }
}
