/** Env file syntax: `NAME=value` lines. */
module EnvFile {
  import opened Wrappers
  import opened Text

  datatype Entry = Entry(line: nat, name: string, value: string)

  datatype Problem =
    | ExpectedEntry
    | MissingName
    | DuplicateName(name: string)
    | UnsupportedEscape(name: string)
    | UnterminatedDouble
    | UnterminatedSingle
    | ContentAfterQuote

  datatype EnvFileError = EnvFileError(line: nat, problem: Problem)

  const BOM: char := '\U{FEFF}'
  const EXPORT := "export "

  // ------------------------------------------------------------------- values

  function Decoded(c: char): Option<char> {
    match c
    case 'n' => Some('\n')
    case 'r' => Some('\r')
    case 't' => Some('\t')
    case '\"' => Some('\"')
    case '\\' => Some('\\')
    case _ => None
  }

  /** The text up to the closing double quote, and what follows it. */
  function Unquoted(s: string, name: string): Result<(string, string), Problem> {
    if s == "" then Err(UnterminatedDouble)
    else if s[0] == '\\' then
      if |s| == 1 then Err(UnterminatedDouble)
      else if Decoded(s[1]).None? then Err(UnsupportedEscape(name))
      else Prefixed([Decoded(s[1]).value], Unquoted(s[2..], name))
    else if s[0] == '\"' then Ok(("", s[1..]))
    else Prefixed([s[0]], Unquoted(s[1..], name))
  }

  function Prefixed(out: string, r: Result<(string, string), Problem>): Result<(string, string), Problem> {
    match r
    case Ok((text, rest)) => Ok((out + text, rest))
    case Err(_) => r
  }

  /** The position of the last `c`. */
  function LastIndex(s: string, c: char): (i: Option<nat>)
    ensures i.Some? ==> i.value < |s| && s[i.value] == c && c !in s[i.value + 1..]
    ensures i.None? ==> c !in s
  {
    if s == "" then None
    else if s[|s| - 1] == c then Some(|s| - 1)
    else LastIndex(s[..|s| - 1], c)
  }

  /** A value after `=`, already trimmed. */
  function ValueOf(value: string, name: string): Result<string, Problem> {
    if value != "" && value[0] == '\"' then
      match Unquoted(value[1..], name)
      case Err(e) => Err(e)
      case Ok((text, rest)) => if rest == "" then Ok(text) else Err(ContentAfterQuote)
    else if value != "" && value[0] == '\'' then
      match LastIndex(value[1..], '\'')
      case None => Err(UnterminatedSingle)
      case Some(end) =>
        if value[1..][end + 1..] != "" then Err(ContentAfterQuote) else Ok(value[1..][..end])
    else Ok(value)
  }

  /** `parse_value`: the double quoted form is read character by character. */
  method ParseValue(value: string, name: string) returns (r: Result<string, Problem>)
    ensures r == ValueOf(value, name)
  {
    if value != "" && value[0] == '\'' {
      var rest := value[1..];
      var end := LastIndex(rest, '\'');
      if end.None? {
        return Err(UnterminatedSingle);
      }
      if rest[end.value + 1..] != "" {
        return Err(ContentAfterQuote);
      }
      return Ok(rest[..end.value]);
    }
    if value == "" || value[0] != '\"' {
      return Ok(value);
    }
    var out, i := "", 1;
    PrefixedNothing(Unquoted(value[1..], name));
    while true
      invariant 1 <= i <= |value|
      invariant Unquoted(value[1..], name) == Prefixed(out, Unquoted(value[i..], name))
      decreases |value| - i
    {
      if i == |value| {
        return Err(UnterminatedDouble);
      }
      var c := value[i];
      if c == '\\' {
        if i + 1 == |value| {
          return Err(UnterminatedDouble);
        }
        match Decoded(value[i + 1]) {
          case None => return Err(UnsupportedEscape(name));
          case Some(d) =>
            PrefixedTwice(out, [d], Unquoted(value[i + 2..], name));
            out := out + [d];
        }
        i := i + 2;
      } else if c == '\"' {
        assert value[i..][1..] == value[i + 1..] && out + "" == out;
        break;
      } else {
        PrefixedTwice(out, [c], Unquoted(value[i + 1..], name));
        out := out + [c];
        i := i + 1;
      }
    }
    if i + 1 < |value| {
      return Err(ContentAfterQuote);
    }
    return Ok(out);
  }

  lemma PrefixedNothing(r: Result<(string, string), Problem>)
    ensures Prefixed("", r) == r
  {
    if r.Ok? { assert "" + r.value.0 == r.value.0; }
  }

  lemma PrefixedTwice(a: string, b: string, r: Result<(string, string), Problem>)
    ensures Prefixed(a, Prefixed(b, r)) == Prefixed(a + b, r)
  {
    if r.Ok? { assert a + (b + r.value.0) == a + b + r.value.0; }
  }

  // -------------------------------------------------------------------- lines

  function WithoutReturn(line: string): string {
    if line != "" && line[|line| - 1] == '\r' then line[..|line| - 1] else line
  }

  /** `str::lines`: every line ends with a newline, or a carriage return and a newline; the last one
      may end with the text. */
  function LinesOf(parts: seq<string>): seq<string>
    requires parts != []
  {
    Ended(parts[..|parts| - 1]) + (if parts[|parts| - 1] == "" then [] else [parts[|parts| - 1]])
  }

  function Ended(parts: seq<string>): seq<string> {
    if parts == [] then []
    else Ended(parts[..|parts| - 1]) + [WithoutReturn(parts[|parts| - 1])]
  }

  function WithoutBom(content: string): string {
    if content != "" && content[0] == BOM then content[1..] else content
  }

  function Lines(content: string): seq<string> {
    LinesOf(Split(WithoutBom(content), '\n'))
  }

  function WithoutExport(line: string): string {
    if EXPORT <= line then TrimStart(line[|EXPORT|..]) else line
  }

  /** The text before and after the first `c`. */
  function SplitOnce(s: string, c: char): (r: Option<(string, string)>)
    ensures r.None? <==> c !in s
    ensures r.Some? ==> s == r.value.0 + [c] + r.value.1 && c !in r.value.0
  {
    if s == "" then None
    else if s[0] == c then Some(("", s[1..]))
    else
      match SplitOnce(s[1..], c)
      case None => None
      case Some((a, b)) => Some(([s[0]] + a, b))
  }

  function Names(entries: seq<Entry>): set<string> {
    set e | e in entries :: e.name
  }

  /** What one line, the `number`th, adds to the entries before it. */
  function WithLine(entries: seq<Entry>, raw: string, number: nat): Result<seq<Entry>, EnvFileError> {
    var line := Trim(raw);
    if line == "" || line[0] == '#' then Ok(entries)
    else
      match SplitOnce(WithoutExport(line), '=')
      case None => Err(EnvFileError(number, ExpectedEntry))
      case Some((before, after)) =>
        var name := Trim(before);
        if name == "" then Err(EnvFileError(number, MissingName))
        else if name in Names(entries) then Err(EnvFileError(number, DuplicateName(name)))
        else
          match ValueOf(Trim(after), name)
          case Err(e) => Err(EnvFileError(number, e))
          case Ok(value) => Ok(entries + [Entry(number, name, value)])
  }

  type LineStep = (seq<Entry>, string, nat) -> Result<seq<Entry>, EnvFileError>

  /** The entries of the lines, each line taken by the step. */
  function Fold(lines: seq<string>, step: LineStep): Result<seq<Entry>, EnvFileError> {
    if lines == [] then Ok([])
    else
      match Fold(lines[..|lines| - 1], step)
      case Err(e) => Err(e)
      case Ok(entries) => step(entries, lines[|lines| - 1], |lines|)
  }

  function EntriesOf(lines: seq<string>): Result<seq<Entry>, EnvFileError> {
    Fold(lines, WithLine)
  }

  lemma {:induction false} ErrorStays(lines: seq<string>, n: nat, step: LineStep)
    requires n <= |lines| && Fold(lines[..n], step).Err?
    ensures Fold(lines, step) == Fold(lines[..n], step)
  {
    if n < |lines| {
      assert lines[..|lines| - 1][..n] == lines[..n];
      ErrorStays(lines[..|lines| - 1], n, step);
    } else {
      assert lines[..n] == lines;
    }
  }

  lemma FoldMore(lines: seq<string>, line: string, entries: seq<Entry>, step: LineStep)
    requires Fold(lines, step) == Ok(entries)
    ensures Fold(lines + [line], step) == step(entries, line, |lines| + 1)
  {
  }

  lemma FoldNext(lines: seq<string>, i: nat, entries: seq<Entry>, step: LineStep)
    requires i < |lines| && Fold(lines[..i], step) == Ok(entries)
    ensures Fold(lines[..i + 1], step) == step(entries, lines[i], i + 1)
    ensures Fold(lines[..i + 1], step).Err? ==> Fold(lines, step) == Fold(lines[..i + 1], step)
  {
    assert lines[..i + 1] == lines[..i] + [lines[i]];
    FoldMore(lines[..i], lines[i], entries, step);
    if Fold(lines[..i + 1], step).Err? {
      ErrorStays(lines, i + 1, step);
    }
  }

  /** One line: the entry it holds, if any. */
  method ParseLine(ghost entries: seq<Entry>, names: set<string>, raw: string, number: nat)
    returns (r: Result<Option<Entry>, EnvFileError>)
    requires names == Names(entries)
    ensures WithLine(entries, raw, number) ==
            match r
            case Err(e) => Err(e)
            case Ok(None) => Ok(entries)
            case Ok(Some(entry)) => Ok(entries + [entry])
  {
    var line := Trim(raw);
    if line == "" || line[0] == '#' {
      return Ok(None);
    }
    var pair := SplitOnce(WithoutExport(line), '=');
    if pair.None? {
      return Err(EnvFileError(number, ExpectedEntry));
    }
    var name := Trim(pair.value.0);
    if name == "" {
      return Err(EnvFileError(number, MissingName));
    }
    if name in names {
      return Err(EnvFileError(number, DuplicateName(name)));
    }
    var value := ParseValue(Trim(pair.value.1), name);
    match value {
      case Err(e) => return Err(EnvFileError(number, e));
      case Ok(text) => return Ok(Some(Entry(number, name, text)));
    }
  }

  lemma NamesMore(entries: seq<Entry>, e: Entry)
    ensures Names(entries + [e]) == Names(entries) + {e.name}
  {
  }

  /** `parse_entries`: line by line, with the names seen so far. */
  method ParseEntries(content: string) returns (r: Result<seq<Entry>, EnvFileError>)
    ensures r == EntriesOf(Lines(content))
  {
    var lines := Lines(content);
    var entries: seq<Entry> := [];
    var names: set<string> := {};
    for i := 0 to |lines|
      invariant EntriesOf(lines[..i]) == Ok(entries)
      invariant names == Names(entries)
    {
      FoldNext(lines, i, entries, WithLine);
      var added := ParseLine(entries, names, lines[i], i + 1);
      match added {
        case Err(e) => return Err(e);
        case Ok(None) =>
        case Ok(Some(entry)) =>
          NamesMore(entries, entry);
          names := names + {entry.name};
          entries := entries + [entry];
      }
    }
    assert lines[..|lines|] == lines;
    return Ok(entries);
  }

  datatype Pair = Pair(name: string, value: string)

  function PairsOf(entries: seq<Entry>): seq<Pair> {
    if entries == [] then []
    else
      var e := entries[|entries| - 1];
      PairsOf(entries[..|entries| - 1]) + [Pair(e.name, e.value)]
  }

  /** `parse_env_file`. */
  method ParseEnvFile(content: string) returns (r: Result<seq<Pair>, EnvFileError>)
    ensures r == Parsed(content)
  {
    var entries := ParseEntries(content);
    match entries {
      case Err(e) => return Err(e);
      case Ok(es) => return Ok(PairsOf(es));
    }
  }

  function Parsed(content: string): Result<seq<Pair>, EnvFileError> {
    match EntriesOf(Lines(content))
    case Err(e) => Err(e)
    case Ok(entries) => Ok(PairsOf(entries))
  }

  /** A single quoted value is what is between the first and the last character, quotes and all. */
  lemma SingleQuotedIsLiteral(value: string, name: string, text: string)
    requires value != "" && value[0] == '\''
    ensures ValueOf(value, name) == Ok(text) <==> value == "'" + text + "'"
  {
    var rest := value[1..];
    assert value == "'" + rest;
    if value == "'" + text + "'" {
      assert rest == text + "'" && rest[|rest| - 1] == '\'';
      assert LastIndex(rest, '\'') == Some(|text|) && rest[..|text|] == text;
    }
    if ValueOf(value, name) == Ok(text) {
      var end := LastIndex(rest, '\'').value;
      assert rest == text + [rest[end]] + rest[end + 1..];
    }
  }

  /** The error is that of the first line that has one. */
  lemma {:induction false} ErrorIsFirst(lines: seq<string>)
    requires EntriesOf(lines).Err?
    ensures var n := EntriesOf(lines).error.line;
            && 1 <= n <= |lines| && EntriesOf(lines[..n - 1]).Ok?
            && WithLine(EntriesOf(lines[..n - 1]).value, lines[n - 1], n) == EntriesOf(lines)
  {
    var init := lines[..|lines| - 1];
    if EntriesOf(init).Err? {
      ErrorIsFirst(init);
      var n := EntriesOf(init).error.line;
      assert init[..n - 1] == lines[..n - 1];
    }
  }

  ghost predicate InOrder(entries: seq<Entry>, lines: nat) {
    && (forall i :: 0 <= i < |entries| ==> 1 <= entries[i].line <= lines && entries[i].name != "")
    && (forall i, j :: 0 <= i < j < |entries| ==>
          entries[i].line < entries[j].line && entries[i].name != entries[j].name)
  }

  /** The entries come in the order of their lines, and have distinct names. */
  lemma {:induction false} EntriesAreDistinct(lines: seq<string>)
    requires EntriesOf(lines).Ok?
    ensures InOrder(EntriesOf(lines).value, |lines|)
  {
    if lines != [] {
      var init := lines[..|lines| - 1];
      EntriesAreDistinct(init);
      LineKeepsOrder(EntriesOf(init).value, lines[|lines| - 1], |lines|);
    }
  }

  lemma LineKeepsOrder(entries: seq<Entry>, raw: string, number: nat)
    requires number > 0 && InOrder(entries, number - 1) && WithLine(entries, raw, number).Ok?
    ensures InOrder(WithLine(entries, raw, number).value, number)
  {
    forall e | e in entries ensures e.name in Names(entries) {}
  }

  // --------------------------------------------------------------- round trip

  function EscapedChar(c: char): string {
    match c
    case '\n' => "\\n"
    case '\r' => "\\r"
    case '\t' => "\\t"
    case '\"' => "\\\""
    case '\\' => "\\\\"
    case _ => [c]
  }

  function Escaped(value: string): string {
    if value == "" then "" else EscapedChar(value[0]) + Escaped(value[1..])
  }

  function PrintedLine(p: Pair): string {
    p.name + "=\"" + Escaped(p.value) + "\""
  }

  /** Each entry on a line of its own, its value double quoted. */
  function Printed(pairs: seq<Pair>): string {
    if pairs == [] then ""
    else Printed(pairs[..|pairs| - 1]) + PrintedLine(pairs[|pairs| - 1]) + "\n"
  }

  /** A name that reads back as written. */
  predicate PrintableName(name: string) {
    && name != "" && Trimmed(name) && '=' !in name && '\n' !in name
    && name[0] != '#' && !(EXPORT <= name)
  }

  ghost predicate Printable(pairs: seq<Pair>) {
    && (forall i :: 0 <= i < |pairs| ==> PrintableName(pairs[i].name))
    && (forall i, j :: 0 <= i < j < |pairs| ==> pairs[i].name != pairs[j].name)
    && (pairs != [] ==> pairs[0].name[0] != BOM)
  }

  lemma UnquotedChar(c: char, more: string, name: string)
    ensures Unquoted(EscapedChar(c) + more, name) == Prefixed([c], Unquoted(more, name))
  {
  }

  lemma {:induction false} UnquotedEscaped(value: string, tail: string, name: string)
    ensures Unquoted(Escaped(value) + "\"" + tail, name) == Ok((value, tail))
  {
    if value == "" {
      assert Escaped(value) + "\"" + tail == "\"" + tail;
    } else {
      var more := Escaped(value[1..]) + "\"" + tail;
      assert Escaped(value) + "\"" + tail == EscapedChar(value[0]) + more;
      UnquotedEscaped(value[1..], tail, name);
      UnquotedChar(value[0], more, name);
      assert [value[0]] + value[1..] == value;
    }
  }

  lemma {:induction false} EscapedHasNoNewline(value: string)
    ensures '\n' !in Escaped(value)
  {
    if value != "" {
      EscapedHasNoNewline(value[1..]);
    }
  }

  lemma {:induction false} SplitOnceAfter(a: string, b: string, c: char)
    requires c !in a
    ensures SplitOnce(a + [c] + b, c) == Some((a, b))
  {
    var s := a + [c] + b;
    if a == "" {
      assert s[1..] == b;
    } else {
      assert s[1..] == a[1..] + [c] + b;
      SplitOnceAfter(a[1..], b, c);
      assert [a[0]] + a[1..] == a;
    }
  }

  lemma NoExport(name: string, more: string)
    requires PrintableName(name)
    ensures !(EXPORT <= name + "=" + more)
  {
    var line := name + "=" + more;
    assert line[|name|] == '=';
    assert |name| >= |EXPORT| ==> line[..|EXPORT|] == name[..|EXPORT|];
  }

  function Quoted(value: string): string {
    "\"" + Escaped(value) + "\""
  }

  lemma ValueReadsBack(value: string, name: string)
    ensures ValueOf(Quoted(value), name) == Ok(value) && Trim(Quoted(value)) == Quoted(value)
  {
    UnquotedEscaped(value, "", name);
    assert Quoted(value)[1..] == Escaped(value) + "\"" + "";
    TrimmedStays(Quoted(value));
  }

  lemma PrintedLineFacts(p: Pair)
    requires PrintableName(p.name)
    ensures var line := PrintedLine(p);
            && line == p.name + ['='] + Quoted(p.value) && Trim(line) == line
            && line != "" && Trimmed(line) && line[0] != '#' && WithoutExport(line) == line
            && SplitOnce(line, '=') == Some((p.name, Quoted(p.value)))
  {
    var line, quoted := PrintedLine(p), Quoted(p.value);
    assert line == p.name + "=" + quoted == p.name + ['='] + quoted;
    TrimmedStays(line);
    NoExport(p.name, quoted);
    SplitOnceAfter(p.name, quoted, '=');
  }

  lemma LineReadsBack(entries: seq<Entry>, p: Pair, number: nat)
    requires PrintableName(p.name) && p.name !in Names(entries)
    ensures WithLine(entries, PrintedLine(p), number) == Ok(entries + [Entry(number, p.name, p.value)])
  {
    PrintedLineFacts(p);
    TrimmedStays(p.name);
    ValueReadsBack(p.value, p.name);
  }

  lemma ExportedFacts(line: string)
    requires line != "" && Trimmed(line)
    ensures var exported := EXPORT + line;
            Trim(exported) == exported && exported != "" && exported[0] == 'e' && WithoutExport(exported) == line
  {
    var exported := EXPORT + line;
    assert exported[|exported| - 1] == line[|line| - 1];
    TrimmedStays(exported);
    assert exported[|EXPORT|..] == line;
  }

  /** The line does so too with `export ` before it. */
  lemma ExportIsPassedOver(entries: seq<Entry>, p: Pair, number: nat)
    requires PrintableName(p.name) && p.name !in Names(entries)
    ensures WithLine(entries, EXPORT + PrintedLine(p), number) ==
            Ok(entries + [Entry(number, p.name, p.value)])
  {
    PrintedLineFacts(p);
    TrimmedStays(p.name);
    ValueReadsBack(p.value, p.name);
    ExportedFacts(PrintedLine(p));
  }

  function PrintedLines(pairs: seq<Pair>): seq<string> {
    if pairs == [] then []
    else PrintedLines(pairs[..|pairs| - 1]) + [PrintedLine(pairs[|pairs| - 1])]
  }

  lemma PrintedLineIsLine(p: Pair)
    requires PrintableName(p.name)
    ensures '\n' !in PrintedLine(p) && WithoutReturn(PrintedLine(p)) == PrintedLine(p)
  {
    EscapedHasNoNewline(p.value);
  }

  /** One more line, and its newline. */
  lemma SplitLine(text: string, line: string, lines: seq<string>)
    requires '\n' !in line && Split(text, '\n') == lines + [""]
    ensures Split(text + line + "\n", '\n') == lines + [line] + [""]
  {
    SplitAppend(text, line, '\n');
    assert "" + line == line && (lines + [""])[..|lines|] == lines;
    assert text + line + "\n" == text + line + ['\n'] + "";
    SplitAt(text + line, "", '\n');
  }

  lemma {:induction false} PrintedSplits(pairs: seq<Pair>)
    requires forall i :: 0 <= i < |pairs| ==> PrintableName(pairs[i].name)
    ensures Split(Printed(pairs), '\n') == PrintedLines(pairs) + [""]
  {
    if pairs != [] {
      var init, p := pairs[..|pairs| - 1], pairs[|pairs| - 1];
      PrintedSplits(init);
      PrintedLineIsLine(p);
      SplitLine(Printed(init), PrintedLine(p), PrintedLines(init));
    }
  }

  lemma {:induction false} PrintedEnd(pairs: seq<Pair>)
    requires forall i :: 0 <= i < |pairs| ==> PrintableName(pairs[i].name)
    ensures Ended(PrintedLines(pairs)) == PrintedLines(pairs)
  {
    if pairs != [] {
      var init, p := pairs[..|pairs| - 1], pairs[|pairs| - 1];
      PrintedEnd(init);
      PrintedLineIsLine(p);
      assert PrintedLines(pairs)[..|PrintedLines(pairs)| - 1] == PrintedLines(init);
    }
  }

  lemma ExtendedLast(front: seq<string>, last: string, c: char, sep: char)
    requires c != sep
    ensures Extended(front + [last], c, sep) == front + [last + [c]]
  {
    assert (front + [last])[..|front|] == front;
  }

  lemma SplitAppendOne(a: string, init: string, c: char, sep: char, front: seq<string>, last: string)
    requires c != sep && Split(a + init, sep) == front + [last + init]
    ensures Split(a + (init + [c]), sep) == front + [last + (init + [c])]
  {
    assert a + (init + [c]) == (a + init) + [c];
    SplitStep(a + init, c, sep);
    ExtendedLast(front, last + init, c, sep);
    assert last + (init + [c]) == (last + init) + [c];
  }

  lemma {:induction false} SplitAppendTo(a: string, b: string, sep: char, front: seq<string>, last: string)
    requires sep !in b && Split(a, sep) == front + [last]
    ensures Split(a + b, sep) == front + [last + b]
  {
    if b == "" {
      assert a + b == a && last + b == last;
    } else {
      var init, c := b[..|b| - 1], b[|b| - 1];
      assert b == init + [c];
      SplitAppendTo(a, init, sep, front, last);
      SplitAppendOne(a, init, c, sep, front, last);
    }
  }

  /** Text without separators goes to the last piece. */
  lemma SplitAppend(a: string, b: string, sep: char)
    requires sep !in b
    ensures var parts := Split(a, sep);
            Split(a + b, sep) == parts[..|parts| - 1] + [parts[|parts| - 1] + b]
  {
    var parts := Split(a, sep);
    SplitAppendTo(a, b, sep, parts[..|parts| - 1], parts[|parts| - 1]);
  }

  /** The entries of the printed lines. */
  function ReadBack(pairs: seq<Pair>): (entries: seq<Entry>)
    ensures |entries| == |pairs|
    ensures forall i :: 0 <= i < |pairs| ==> entries[i].name == pairs[i].name
  {
    if pairs == [] then []
    else
      var last := |pairs| - 1;
      ReadBack(pairs[..last]) + [Entry(last + 1, pairs[last].name, pairs[last].value)]
  }

  lemma PairsMore(entries: seq<Entry>, e: Entry)
    ensures PairsOf(entries + [e]) == PairsOf(entries) + [Pair(e.name, e.value)]
  {
    assert (entries + [e])[..|entries|] == entries;
  }

  lemma {:induction false} PairsReadBack(pairs: seq<Pair>)
    ensures PairsOf(ReadBack(pairs)) == pairs
  {
    if pairs != [] {
      var init, p := pairs[..|pairs| - 1], pairs[|pairs| - 1];
      PairsReadBack(init);
      PairsMore(ReadBack(init), Entry(|pairs|, p.name, p.value));
      assert pairs == init + [p];
    }
  }

  lemma NewName(pairs: seq<Pair>, i: nat)
    requires Printable(pairs) && i < |pairs|
    ensures pairs[i].name !in Names(ReadBack(pairs[..i]))
  {
  }

  /** Lines that each add their entry add them all. */
  lemma {:induction false} FoldReadsBack(pairs: seq<Pair>, n: nat, step: LineStep)
    requires n <= |pairs|
    requires forall i | 0 <= i < |pairs| ::
               step(ReadBack(pairs[..i]), PrintedLine(pairs[i]), i + 1) ==
               Ok(ReadBack(pairs[..i]) + [Entry(i + 1, pairs[i].name, pairs[i].value)])
    ensures Fold(PrintedLines(pairs[..n]), step) == Ok(ReadBack(pairs[..n])) && |PrintedLines(pairs[..n])| == n
  {
    if n > 0 {
      FoldReadsBack(pairs, n - 1, step);
      assert pairs[..n][..n - 1] == pairs[..n - 1];
      FoldMore(PrintedLines(pairs[..n - 1]), PrintedLine(pairs[n - 1]), ReadBack(pairs[..n - 1]), step);
    }
  }

  lemma NextReadsBack(pairs: seq<Pair>, i: nat)
    requires Printable(pairs) && i < |pairs|
    ensures WithLine(ReadBack(pairs[..i]), PrintedLine(pairs[i]), i + 1) ==
            Ok(ReadBack(pairs[..i]) + [Entry(i + 1, pairs[i].name, pairs[i].value)])
  {
    NewName(pairs, i);
    LineReadsBack(ReadBack(pairs[..i]), pairs[i], i + 1);
  }

  lemma LinesReadBack(pairs: seq<Pair>)
    requires Printable(pairs)
    ensures EntriesOf(PrintedLines(pairs)) == Ok(ReadBack(pairs))
  {
    forall i | 0 <= i < |pairs|
      ensures WithLine(ReadBack(pairs[..i]), PrintedLine(pairs[i]), i + 1) ==
              Ok(ReadBack(pairs[..i]) + [Entry(i + 1, pairs[i].name, pairs[i].value)])
    {
      NextReadsBack(pairs, i);
    }
    FoldReadsBack(pairs, |pairs|, WithLine);
    assert pairs[..|pairs|] == pairs;
  }

  /** Printing entries with distinct well-formed names and any values, and parsing that, gives the
      same entries. */
  lemma RoundTrip(pairs: seq<Pair>)
    requires Printable(pairs)
    ensures Parsed(Printed(pairs)) == Ok(pairs)
  {
    PrintedSplits(pairs);
    PrintedEnd(pairs);
    LinesReadBack(pairs);
    PairsReadBack(pairs);
    assert WithoutBom(Printed(pairs)) == Printed(pairs) by {
      FirstOfPrinted(pairs);
    }
    assert LinesOf(PrintedLines(pairs) + [""]) == PrintedLines(pairs);
  }

  lemma {:induction false} FirstOfPrinted(pairs: seq<Pair>)
    requires forall i :: 0 <= i < |pairs| ==> PrintableName(pairs[i].name)
    ensures pairs != [] ==> Printed(pairs) != "" && pairs[0].name != "" && Printed(pairs)[0] == pairs[0].name[0]
    ensures pairs == [] ==> Printed(pairs) == ""
  {
    if |pairs| > 0 {
      FirstOfPrinted(pairs[..|pairs| - 1]);
    }
  }
}
