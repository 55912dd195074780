/** Env files as people write them: the three forms of a value, space around them, `export`, blank lines and
    comments. Each is written out here, and parsing gives the entries that were written. */
module EnvForms {
  import opened Wrappers
  import opened Text
  import opened EnvFile

  datatype Form = Bare | SingleQuoted | DoubleQuoted

  /** The space before the entry, before and after `=`, and behind the value. */
  datatype Space = Space(lead: string, before: string, after: string, trail: string)

  /** A line with an entry, or one without. */
  datatype Item = Assigned(p: Pair, form: Form, exported: bool, space: Space) | Passed(line: string)

  function ValueText(value: string, form: Form): string {
    match form
    case Bare => value
    case SingleQuoted => "'" + value + "'"
    case DoubleQuoted => "\"" + Escaped(value) + "\""
  }

  function NameText(item: Item): string
    requires item.Assigned?
  {
    (if item.exported then "export " else "") + item.p.name
  }

  function LineOf(item: Item): string {
    match item
    case Assigned(p, form, _, space) =>
      space.lead + (NameText(item) + space.before + "=" + (space.after + ValueText(p.value, form) + space.trail))
    case Passed(line) => line
  }

  ghost predicate Blank(s: string) {
    forall i :: 0 <= i < |s| ==> IsWhitespace(s[i]) && s[i] != '\n'
  }

  /** A value that can be written so. */
  predicate Writable(value: string, form: Form) {
    match form
    case Bare => Trimmed(value) && '\n' !in value && (value != "" ==> value[0] != '\"' && value[0] != '\'')
    case SingleQuoted => '\n' !in value
    case DoubleQuoted => true
  }

  ghost predicate Comment(line: string) {
    exists i :: 0 <= i < |line| && Blank(line[..i]) && line[i] == '#'
  }

  ghost predicate WellWritten(item: Item) {
    match item
    case Assigned(p, form, exported, space) =>
      && p.name != "" && Trimmed(p.name) && '=' !in p.name && '\n' !in p.name
      && (!exported ==> p.name[0] != '#' && !("export " <= p.name + space.before + "="))
      && Writable(p.value, form)
      && Blank(space.lead) && Blank(space.before) && Blank(space.after) && Blank(space.trail)
    case Passed(line) => '\n' !in line && (Blank(line) || Comment(line))
  }

  // ---------------------------------------------------------------- trimming

  lemma {:induction false} BlankIsTrimmed(b: string, s: string)
    requires Blank(b)
    ensures TrimStart(b + s) == TrimStart(s) && TrimEnd(s + b) == TrimEnd(s)
    decreases |b|
  {
    if b == "" {
      assert b + s == s && s + b == s;
    } else {
      assert (b + s)[1..] == b[1..] + s;
      assert (s + b)[..|s + b| - 1] == s + b[..|b| - 1];
      BlankIsTrimmed(b[1..], s);
      BlankIsTrimmed(b[..|b| - 1], s);
    }
  }

  lemma {:induction false} TrimEndBehind(a: string, c: char, r: string)
    requires !IsWhitespace(c)
    ensures TrimEnd(a + [c] + r) == a + [c] + TrimEnd(r)
  {
    if r == "" {
      assert a + [c] + r == a + [c];
    } else {
      var last := |r| - 1;
      assert (a + [c] + r)[..|a + [c] + r| - 1] == a + [c] + r[..last];
      if IsWhitespace(r[last]) { TrimEndBehind(a, c, r[..last]); }
    }
  }

  /** Space around a text goes. */
  lemma PaddedIsTrimmed(a: string, s: string, b: string)
    requires Blank(a) && Blank(b) && Trimmed(s)
    ensures Trim(a + s + b) == s
  {
    assert a + s + b == a + (s + b);
    BlankIsTrimmed(a, s + b);
    if s == "" {
      assert s + b == b + "";
      BlankIsTrimmed(b, "");
    } else {
      assert TrimStart(s + b) == s + b;
      BlankIsTrimmed(b, s);
    }
  }

  /** What is left of the space behind the value once the line is trimmed goes with the rest. */
  lemma BehindIsTrimmed(after: string, s: string, trail: string)
    requires Blank(after) && Blank(trail) && Trimmed(s)
    ensures Trim(TrimEnd(after + s + trail)) == s
  {
    BlankIsTrimmed(trail, after + s);
    if s == "" {
      assert after + s == "" + after;
      BlankIsTrimmed(after, "");
    } else {
      assert TrimEnd(after + s) == after + s;
      assert after + s == after + s + "";
      PaddedIsTrimmed(after, s, "");
    }
  }

  // ------------------------------------------------------------------ one line

  lemma ValueIsRead(value: string, form: Form, name: string)
    requires Writable(value, form)
    ensures Trimmed(ValueText(value, form)) && '\n' !in ValueText(value, form)
    ensures ValueOf(ValueText(value, form), name) == Ok(value)
  {
    match form
    case Bare =>
    case SingleQuoted => SingleQuotedIsLiteral("'" + value + "'", name, value);
    case DoubleQuoted =>
      ValueReadsBack(value, name);
      EscapedHasNoNewline(value);
  }

  /** The line of an entry without the space around it. */
  lemma EntryIsTrimmed(lead: string, head: string, behind: string)
    requires Blank(lead) && head != "" && !IsWhitespace(head[0])
    ensures Trim(lead + (head + "=" + behind)) == head + "=" + TrimEnd(behind)
  {
    var core := head + "=" + behind;
    BlankIsTrimmed(lead, core);
    assert TrimStart(core) == core;
    assert core == head + ['='] + behind;
    TrimEndBehind(head, '=', behind);
  }

  lemma ExportGoes(name: string, before: string, rest: string, exported: bool)
    requires name != "" && !IsWhitespace(name[0])
    requires !exported ==> !("export " <= name + before + "=")
    requires '=' !in name + before
    ensures WithoutExport((if exported then "export " else "") + name + before + "=" + rest) ==
            name + before + "=" + rest
  {
    var line := name + before + "=" + rest;
    if exported {
      var all := "export " + name + before + "=" + rest;
      assert all == "export " + line;
      assert all[7..] == line && line[0] == name[0];
    } else {
      assert "" + name + before + "=" + rest == line;
      var head := name + before + "=";
      assert head <= line && head[|head| - 1] == '=';
    }
  }

  lemma NameIsSplit(name: string, before: string, rest: string)
    requires '=' !in name && Blank(before) && Trimmed(name)
    ensures '=' !in name + before
    ensures SplitOnce(name + before + "=" + rest, '=') == Some((name + before, rest))
    ensures Trim(name + before) == name
  {
    assert name + before + "=" + rest == (name + before) + ['='] + rest;
    SplitOnceAfter(name + before, rest, '=');
    assert name + before == "" + name + before;
    PaddedIsTrimmed("", name, before);
  }

  lemma EntryIsRead(entries: seq<Entry>, item: Item, number: nat)
    requires item.Assigned? && WellWritten(item) && item.p.name !in Names(entries)
    ensures WithLine(entries, LineOf(item), number) == Ok(entries + [Entry(number, item.p.name, item.p.value)])
  {
    var Assigned(p, form, exported, space) := item;
    var text := ValueText(p.value, form);
    var rest := TrimEnd(space.after + text + space.trail);
    ValueIsRead(p.value, form, p.name);
    BehindIsTrimmed(space.after, text, space.trail);
    EntryIsTrimmed(space.lead, NameText(item) + space.before, space.after + text + space.trail);
    NameIsSplit(p.name, space.before, rest);
    ExportGoes(p.name, space.before, rest, exported);
  }

  lemma BlankFront(b: string, c: char, rest: string)
    requires Blank(b) && !IsWhitespace(c)
    ensures Trim(b + ([c] + rest)) != "" && Trim(b + ([c] + rest))[0] == c
  {
    BlankIsTrimmed(b, [c] + rest);
    assert [c] + rest == "" + [c] + rest;
    TrimEndBehind("", c, rest);
  }

  lemma PassedIsPassed(entries: seq<Entry>, line: string, number: nat)
    requires Blank(line) || Comment(line)
    ensures WithLine(entries, line, number) == Ok(entries)
  {
    if Blank(line) {
      assert line == line + "" + "";
      PaddedIsTrimmed(line, "", "");
    } else {
      var i :| 0 <= i < |line| && Blank(line[..i]) && line[i] == '#';
      assert line == line[..i] + (['#'] + line[i + 1..]);
      BlankFront(line[..i], '#', line[i + 1..]);
    }
  }

  /** A carriage return at the end of a line makes no difference. */
  lemma ReturnGoes(entries: seq<Entry>, line: string, number: nat)
    ensures WithLine(entries, WithoutReturn(line), number) == WithLine(entries, line, number)
  {
    if line != "" && line[|line| - 1] == '\r' {
      var s := line[..|line| - 1];
      assert line == s + "\r";
      ReturnTrimmed(s);
    }
  }

  lemma {:induction false} ReturnTrimmed(s: string)
    ensures Trim(s + "\r") == Trim(s)
  {
    if s != "" && IsWhitespace(s[0]) {
      assert (s + "\r")[1..] == s[1..] + "\r";
      ReturnTrimmed(s[1..]);
    } else if s == "" {
      assert TrimStart("\r") == TrimStart("\r"[1..]) == "";
      assert s + "\r" == "\r";
    } else {
      assert (s + "\r")[..|s|] == s;
    }
  }

  // -------------------------------------------------------------- whole files

  function TextOf(items: seq<Item>): string {
    if items == [] then "" else TextOf(items[..|items| - 1]) + LineOf(items[|items| - 1]) + "\n"
  }

  /** The file, with a byte order mark or without; its last line may lack the newline. */
  function Document(items: seq<Item>, bom: bool, ended: bool): string {
    var text := TextOf(items);
    (if bom then [BOM] else "") + (if ended || text == "" then text else text[..|text| - 1])
  }

  /** What was written, in order. */
  function PairsIn(items: seq<Item>): seq<Pair> {
    if items == [] then []
    else
      var item := items[|items| - 1];
      PairsIn(items[..|items| - 1]) + (if item.Assigned? then [item.p] else [])
  }

  /** No name is assigned twice. */
  ghost predicate NamesDiffer(items: seq<Item>) {
    forall i, j :: 0 <= i < j < |items| && items[i].Assigned? && items[j].Assigned? ==>
      items[i].p.name != items[j].p.name
  }

  ghost predicate AllWellWritten(items: seq<Item>) {
    forall i :: 0 <= i < |items| ==> WellWritten(items[i])
  }

  function LinesFor(items: seq<Item>): (lines: seq<string>)
    ensures |lines| == |items|
  {
    if items == [] then [] else LinesFor(items[..|items| - 1]) + [LineOf(items[|items| - 1])]
  }

  /** The entries with the numbers of their lines. */
  function EntriesIn(items: seq<Item>): seq<Entry> {
    if items == [] then []
    else
      var item := items[|items| - 1];
      EntriesIn(items[..|items| - 1]) +
      (if item.Assigned? then [Entry(|items|, item.p.name, item.p.value)] else [])
  }

  lemma {:induction false} PairsAreIn(items: seq<Item>)
    ensures PairsOf(EntriesIn(items)) == PairsIn(items)
  {
    if items != [] {
      var init, item := items[..|items| - 1], items[|items| - 1];
      PairsAreIn(init);
      if item.Assigned? {
        PairsMore(EntriesIn(init), Entry(|items|, item.p.name, item.p.value));
      } else {
        assert EntriesIn(items) == EntriesIn(init);
      }
    }
  }

  lemma {:induction false} NamesAreIn(items: seq<Item>, name: string)
    requires name in Names(EntriesIn(items))
    ensures exists i :: 0 <= i < |items| && items[i].Assigned? && items[i].p.name == name
  {
    var init, item := items[..|items| - 1], items[|items| - 1];
    if !(item.Assigned? && item.p.name == name) {
      var e :| e in EntriesIn(items) && e.name == name;
      assert e in EntriesIn(init);
      NamesAreIn(init, name);
    }
  }

  lemma ItemIsRead(items: seq<Item>)
    requires items != [] && AllWellWritten(items) && NamesDiffer(items)
    ensures var init, line := items[..|items| - 1], LineOf(items[|items| - 1]);
            && WithLine(EntriesIn(init), line, |items|) == Ok(EntriesIn(items))
            && WithLine(EntriesIn(init), WithoutReturn(line), |items|) == Ok(EntriesIn(items))
  {
    var init, item := items[..|items| - 1], items[|items| - 1];
    ReturnGoes(EntriesIn(init), LineOf(item), |items|);
    if item.Assigned? {
      if item.p.name in Names(EntriesIn(init)) {
        NamesAreIn(init, item.p.name);
        assert false;
      }
      EntryIsRead(EntriesIn(init), item, |items|);
    } else {
      PassedIsPassed(EntriesIn(init), item.line, |items|);
      assert EntriesIn(items) == EntriesIn(init);
    }
  }

  lemma {:induction false} ItemsAreRead(items: seq<Item>)
    requires AllWellWritten(items) && NamesDiffer(items)
    ensures EntriesOf(Ended(LinesFor(items))) == Ok(EntriesIn(items)) && |Ended(LinesFor(items))| == |items|
  {
    if items != [] {
      var init, line := items[..|items| - 1], LineOf(items[|items| - 1]);
      ItemsAreRead(init);
      ItemIsRead(items);
      assert LinesFor(items)[..|items| - 1] == LinesFor(init);
      FoldMore(Ended(LinesFor(init)), WithoutReturn(line), EntriesIn(init), WithLine);
    }
  }

  lemma LineHasNoNewline(item: Item)
    requires WellWritten(item)
    ensures '\n' !in LineOf(item)
  {
    if item.Assigned? {
      ValueIsRead(item.p.value, item.form, item.p.name);
      forall c | c in LineOf(item) ensures c != '\n' {}
    }
  }

  lemma {:induction false} TextIsSplit(items: seq<Item>)
    requires AllWellWritten(items)
    ensures Split(TextOf(items), '\n') == LinesFor(items) + [""]
  {
    if items != [] {
      var init, item := items[..|items| - 1], items[|items| - 1];
      TextIsSplit(init);
      LineHasNoNewline(item);
      SplitLine(TextOf(init), LineOf(item), LinesFor(init));
    }
  }

  lemma EndedTextIsRead(items: seq<Item>)
    requires AllWellWritten(items) && NamesDiffer(items)
    ensures EntriesOf(LinesOf(Split(TextOf(items), '\n'))) == Ok(EntriesIn(items))
  {
    TextIsSplit(items);
    ItemsAreRead(items);
    var parts := LinesFor(items) + [""];
    assert parts[..|parts| - 1] == LinesFor(items);
    assert LinesOf(parts) == Ended(LinesFor(items)) + [] == Ended(LinesFor(items));
  }

  lemma LinesOfOpen(lines: seq<string>, line: string)
    ensures LinesOf(lines + [line]) == Ended(lines) + (if line == "" then [] else [line])
  {
    var parts := lines + [line];
    assert parts[..|parts| - 1] == lines;
  }

  lemma OpenTextIsSplit(items: seq<Item>, item: Item)
    requires AllWellWritten(items) && WellWritten(item)
    ensures Split(TextOf(items) + LineOf(item), '\n') == LinesFor(items) + [LineOf(item)]
  {
    TextIsSplit(items);
    LineHasNoNewline(item);
    SplitAppendTo(TextOf(items), LineOf(item), '\n', LinesFor(items), "");
    assert "" + LineOf(item) == LineOf(item);
  }

  lemma OpenLines(lines: seq<string>, line: string, before: seq<Entry>, entries: seq<Entry>, step: LineStep)
    requires Fold(Ended(lines), step) == Ok(before) && |Ended(lines)| == |lines|
    requires step(before, line, |lines| + 1) == Ok(entries) && (line == "" ==> entries == before)
    ensures Fold(LinesOf(lines + [line]), step) == Ok(entries)
  {
    LinesOfOpen(lines, line);
    if line == "" {
      assert Ended(lines) + [] == Ended(lines);
    } else {
      FoldMore(Ended(lines), line, before, step);
    }
  }

  /** A last line without its newline is read all the same; an empty one is no line. */
  lemma OpenTextIsRead(items: seq<Item>)
    requires items != [] && AllWellWritten(items) && NamesDiffer(items)
    ensures var text := TextOf(items[..|items| - 1]) + LineOf(items[|items| - 1]);
            EntriesOf(LinesOf(Split(text, '\n'))) == Ok(EntriesIn(items))
  {
    var init, item := items[..|items| - 1], items[|items| - 1];
    OpenTextIsSplit(init, item);
    ItemsAreRead(init);
    ItemIsRead(items);
    EmptyIsPassed(items);
    OpenLines(LinesFor(init), LineOf(item), EntriesIn(init), EntriesIn(items), WithLine);
  }

  lemma EmptyIsPassed(items: seq<Item>)
    requires items != []
    ensures LineOf(items[|items| - 1]) == "" ==> EntriesIn(items) == EntriesIn(items[..|items| - 1])
  {
    var item := items[|items| - 1];
    if item.Assigned? { assert '=' in LineOf(item); }
  }

  /** What is split into lines. */
  lemma DocumentIs(items: seq<Item>, bom: bool, ended: bool)
    requires !bom ==> Document(items, bom, ended) == "" || Document(items, bom, ended)[0] != BOM
    ensures WithoutBom(Document(items, bom, ended)) ==
            if ended || items == [] then TextOf(items) else TextOf(items[..|items| - 1]) + LineOf(items[|items| - 1])
  {
    var text := TextOf(items);
    var body := if ended || text == "" then text else text[..|text| - 1];
    if items != [] {
      var open := TextOf(items[..|items| - 1]) + LineOf(items[|items| - 1]);
      assert text == open + "\n" && text[..|text| - 1] == open;
    }
    if bom {
      assert ([BOM] + body)[1..] == body;
    } else {
      assert "" + body == body;
    }
  }

  /** Parsing a file written in any mix of the forms gives the entries that were written, in order. */
  lemma FormsReadBack(items: seq<Item>, bom: bool, ended: bool)
    requires AllWellWritten(items) && NamesDiffer(items)
    requires !bom ==> Document(items, bom, ended) == "" || Document(items, bom, ended)[0] != BOM
    ensures Parsed(Document(items, bom, ended)) == Ok(PairsIn(items))
  {
    DocumentIs(items, bom, ended);
    PairsAreIn(items);
    if ended || items == [] {
      EndedTextIsRead(items);
    } else {
      OpenTextIsRead(items);
    }
  }

  // ------------------------------------------------------- nothing else is accepted

  /** What a backslash and this character stand for. */
  predicate Escapes(e: char, c: char) {
    || (e == 'n' && c == '\n') || (e == 'r' && c == '\r') || (e == 't' && c == '\t')
    || (e == '\"' && c == '\"') || (e == '\\' && c == '\\')
  }

  /** The text between double quotes stands for the value. */
  ghost predicate Spells(body: string, text: string)
    decreases |body|
  {
    if body == "" then text == ""
    else if text == "" then false
    else if body[0] == '\\' then |body| > 1 && Escapes(body[1], text[0]) && Spells(body[2..], text[1..])
    else body[0] != '\"' && body[0] == text[0] && Spells(body[1..], text[1..])
  }

  lemma {:induction false} SpelledIsRead(body: string, text: string, rest: string, name: string)
    requires Spells(body, text)
    ensures Unquoted(body + "\"" + rest, name) == Ok((text, rest))
    decreases |body|
  {
    var s := body + "\"" + rest;
    if body == "" {
      assert s == "\"" + rest;
    } else if body[0] == '\\' {
      assert s[2..] == body[2..] + "\"" + rest;
      SpelledIsRead(body[2..], text[1..], rest, name);
      assert [text[0]] + text[1..] == text;
    } else {
      assert s[1..] == body[1..] + "\"" + rest;
      SpelledIsRead(body[1..], text[1..], rest, name);
      assert [text[0]] + text[1..] == text;
    }
  }

  lemma {:induction false} ReadIsSpelled(s: string, text: string, rest: string, name: string) returns (body: string)
    requires Unquoted(s, name) == Ok((text, rest))
    ensures s == body + "\"" + rest && Spells(body, text)
    decreases |s|
  {
    if s[0] == '\"' {
      body := "";
    } else {
      var n := if s[0] == '\\' then 2 else 1;
      var (more, _) := Unquoted(s[n..], name).value;
      assert text[1..] == more;
      var inner := ReadIsSpelled(s[n..], more, rest, name);
      body := s[..n] + inner;
      assert body[n..] == inner;
    }
  }

  /** A value that begins with a double quote is accepted as `text` if and only if it is that, spelled with the five
      escapes, up to a last quote. */
  lemma DoubleQuotedExactly(value: string, name: string, text: string)
    requires value != "" && value[0] == '\"'
    ensures ValueOf(value, name) == Ok(text) <==> exists body :: value == "\"" + body + "\"" && Spells(body, text)
  {
    if body :| value == "\"" + body + "\"" && Spells(body, text) {
      assert value[1..] == body + "\"" + "";
      SpelledIsRead(body, text, "", name);
    }
    if ValueOf(value, name) == Ok(text) {
      var body := ReadIsSpelled(value[1..], text, "", name);
      assert value == "\"" + body + "\"";
    }
  }

  /** A line that adds no entry, without an error, is blank or a comment. */
  lemma PassedExactly(entries: seq<Entry>, line: string, number: nat)
    requires '\n' !in line
    ensures WithLine(entries, line, number) == Ok(entries) <==> Blank(line) || Comment(line)
  {
    if Blank(line) || Comment(line) {
      PassedIsPassed(entries, line, number);
    } else {
      var i := FirstInk(line);
      assert line == line[..i] + ([line[i]] + line[i + 1..]);
      BlankFront(line[..i], line[i], line[i + 1..]);
      assert line[i] != '#';
    }
  }

  lemma FirstInk(line: string) returns (i: nat)
    requires !Blank(line) && '\n' !in line
    ensures i < |line| && Blank(line[..i]) && !IsWhitespace(line[i])
  {
    i := 0;
    while i < |line| && IsWhitespace(line[i])
      invariant i <= |line| && forall k :: 0 <= k < i ==> IsWhitespace(line[k])
    {
      i := i + 1;
    }
  }

  // ------------------------------------------------------------------- errors

  /** Where reading between double quotes stops, and what comes of it. */
  ghost predicate StopsAt(rest: string, text: string, name: string, r: Result<(string, string), Problem>) {
    || (rest == "" && r == Err(UnterminatedDouble))
    || (rest == "\\" && r == Err(UnterminatedDouble))
    || (|rest| > 1 && rest[0] == '\\' && (forall c :: !Escapes(rest[1], c)) && r == Err(UnsupportedEscape(name)))
    || (rest != "" && rest[0] == '\"' && r == Ok((text, rest[1..])))
  }

  lemma {:induction false} UnquotedStops(s: string, name: string) returns (body: string, text: string, rest: string)
    ensures s == body + rest && Spells(body, text) && StopsAt(rest, text, name, Unquoted(s, name))
    decreases |s|
  {
    if s == "" || s[0] == '\"' || s == "\\" {
      body, text, rest := "", "", s;
    } else if s[0] == '\\' && Decoded(s[1]).None? {
      body, text, rest := "", "", s;
    } else {
      var n := if s[0] == '\\' then 2 else 1;
      var c := if n == 2 then Decoded(s[1]).value else s[0];
      var b, t, more := UnquotedStops(s[n..], name);
      body, text, rest := s[..n] + b, [c] + t, more;
      assert body[n..] == b && text[1..] == t;
      assert s == body + rest;
    }
  }

  /** A double quoted value fails at the first thing that is not spelled: its end, a backslash at its end, another
      escape, or something behind the closing quote. */
  lemma DoubleQuotedError(value: string, name: string) returns (body: string, text: string, rest: string)
    requires value != "" && value[0] == '\"'
    ensures value == "\"" + body + rest && Spells(body, text)
    ensures match ValueOf(value, name)
            case Err(UnsupportedEscape(n)) =>
              n == name && |rest| > 1 && rest[0] == '\\' && forall c :: !Escapes(rest[1], c)
            case Err(UnterminatedDouble) => rest == "" || rest == "\\"
            case Err(ContentAfterQuote) => |rest| > 1 && rest[0] == '\"'
            case Err(_) => false
            case Ok(read) => rest == "\"" && read == text
  {
    body, text, rest := UnquotedStops(value[1..], name);
  }

  lemma SingleQuotedError(value: string, name: string)
    requires value != "" && value[0] == '\''
    ensures ValueOf(value, name).Err? ==>
              ValueOf(value, name).error == if '\'' in value[1..] then ContentAfterQuote else UnterminatedSingle
  {
  }

  lemma TrimKeeps(s: string, c: char)
    ensures c in Trim(s) ==> c in s
  {
    TrimStartKeeps(s, c);
    TrimEndKeeps(TrimStart(s), c);
  }

  lemma {:induction false} TrimStartKeeps(s: string, c: char)
    ensures c in TrimStart(s) ==> c in s
  {
    if s != "" && IsWhitespace(s[0]) { TrimStartKeeps(s[1..], c); }
  }

  lemma {:induction false} TrimEndKeeps(s: string, c: char)
    ensures c in TrimEnd(s) ==> c in s
  {
    if s != "" && IsWhitespace(s[|s| - 1]) { TrimEndKeeps(s[..|s| - 1], c); }
  }

  /** A line without `=` that is neither blank nor a comment is an error. */
  lemma NoEqualsIsError(entries: seq<Entry>, line: string, number: nat)
    requires '\n' !in line && '=' !in line && !Blank(line) && !Comment(line)
    ensures WithLine(entries, line, number) == Err(EnvFileError(number, ExpectedEntry))
  {
    var trimmed := Trim(line);
    var i := FirstInk(line);
    assert line == line[..i] + ([line[i]] + line[i + 1..]);
    BlankFront(line[..i], line[i], line[i + 1..]);
    TrimKeeps(line, '=');
    if EXPORT <= trimmed { TrimStartKeeps(trimmed[|EXPORT|..], '='); }
  }

  lemma HeadStays(head: string, rest: string)
    requires '=' !in head && !("export " <= head + "=")
    ensures WithoutExport(head + "=" + rest) == head + "=" + rest
    ensures SplitOnce(head + "=" + rest, '=') == Some((head, rest))
  {
    var line := head + "=" + rest;
    assert head + "=" <= line && line[|head|] == '=';
    assert line == head + ['='] + rest;
    SplitOnceAfter(head, rest, '=');
  }

  lemma HeadIsName(name: string, before: string)
    requires Trimmed(name) && '=' !in name && name != "" && Blank(before)
    ensures '=' !in name + before && Trim(name + before) == name && (name + before)[0] == name[0]
  {
    assert name + before == "" + name + before;
    PaddedIsTrimmed("", name, before);
  }

  /** How a line that assigns a name is taken apart. */
  lemma NamedLine(lead: string, head: string, rest: string)
    requires Blank(lead) && head != "" && !IsWhitespace(head[0])
    requires '=' !in head && !("export " <= head + "=")
    ensures var line := Trim(lead + (head + "=" + rest));
            && line != "" && line[0] == head[0]
            && SplitOnce(WithoutExport(line), '=') == Some((head, TrimEnd(rest)))
  {
    EntryIsTrimmed(lead, head, rest);
    HeadStays(head, TrimEnd(rest));
  }

  /** A line that assigns a name again is an error, whatever the value. */
  lemma DuplicateIsError(entries: seq<Entry>, space: Space, name: string, rest: string, number: nat)
    requires Trimmed(name) && '=' !in name && name != "" && !("export " <= name + space.before + "=")
    requires Blank(space.lead) && Blank(space.before)
    requires name[0] != '#' && name in Names(entries)
    ensures WithLine(entries, space.lead + (name + space.before + "=" + rest), number) ==
            Err(EnvFileError(number, DuplicateName(name)))
  {
    HeadIsName(name, space.before);
    NamedLine(space.lead, name + space.before, rest);
  }

  /** So is one without a name. */
  lemma MissingNameIsError(entries: seq<Entry>, lead: string, rest: string, number: nat)
    requires Blank(lead)
    ensures WithLine(entries, lead + ("=" + rest), number) == Err(EnvFileError(number, MissingName))
  {
    BlankFrontIs(lead, '=', rest);
    var line := "=" + TrimEnd(rest);
    assert line == "" + ['='] + TrimEnd(rest);
    SplitOnceAfter("", TrimEnd(rest), '=');
  }

  lemma BlankFrontIs(b: string, c: char, rest: string)
    requires Blank(b) && !IsWhitespace(c)
    ensures Trim(b + ([c] + rest)) == [c] + TrimEnd(rest)
  {
    BlankIsTrimmed(b, [c] + rest);
    assert [c] + rest == "" + [c] + rest;
    TrimEndBehind("", c, rest);
  }
}
