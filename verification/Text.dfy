/** The string operations the models share: trimming, splitting and joining. */
module Text {

  /** The characters with the White_Space property. */
  predicate IsWhitespace(c: char) {
    var n := c as int;
    0x09 <= n <= 0x0d || n == 0x20 || n == 0x85 || n == 0xa0 || n == 0x1680 ||
    0x2000 <= n <= 0x200a || n == 0x2028 || n == 0x2029 || n == 0x202f || n == 0x205f || n == 0x3000
  }

  function TrimStart(s: string): string {
    if s != "" && IsWhitespace(s[0]) then TrimStart(s[1..]) else s
  }

  function TrimEnd(s: string): string {
    if s != "" && IsWhitespace(s[|s| - 1]) then TrimEnd(s[..|s| - 1]) else s
  }

  function Trim(s: string): string {
    TrimEnd(TrimStart(s))
  }

  predicate Trimmed(s: string) {
    s != "" ==> !IsWhitespace(s[0]) && !IsWhitespace(s[|s| - 1])
  }

  /** The pieces when one more character follows. */
  function Extended(init: seq<string>, c: char, sep: char): (parts: seq<string>)
    requires init != []
    ensures parts != []
  {
    if c == sep then init + [""] else init[..|init| - 1] + [init[|init| - 1] + [c]]
  }

  /** The pieces of `s` between the separators, at least one. */
  function Split(s: string, sep: char): (parts: seq<string>)
    ensures parts != []
  {
    if s == "" then [""] else Extended(Split(s[..|s| - 1], sep), s[|s| - 1], sep)
  }

  function Join(parts: seq<string>, sep: char): string {
    if parts == [] then ""
    else if |parts| == 1 then parts[0]
    else Join(parts[..|parts| - 1], sep) + [sep] + parts[|parts| - 1]
  }

  lemma TrimmedStays(s: string)
    requires Trimmed(s)
    ensures Trim(s) == s
  {
  }

  lemma {:induction false} SplitWithout(s: string, sep: char)
    requires sep !in s
    ensures Split(s, sep) == [s]
  {
    if s != "" {
      var last := |s| - 1;
      SplitWithout(s[..last], sep);
      assert s == s[..last] + [s[last]];
    }
  }

  lemma SplitStep(s: string, c: char, sep: char)
    ensures Split(s + [c], sep) == Extended(Split(s, sep), c, sep)
  {
  }

  lemma ExtendedAfter(a: seq<string>, b: seq<string>, c: char, sep: char)
    requires b != []
    ensures Extended(a + b, c, sep) == a + Extended(b, c, sep)
  {
  }

  /** A separator between two texts splits them apart. */
  lemma {:induction false} SplitAt(a: string, b: string, sep: char)
    ensures Split(a + [sep] + b, sep) == Split(a, sep) + Split(b, sep)
  {
    SplitStep(a, sep, sep);
    if b == "" {
      assert a + [sep] + b == a + [sep];
    } else {
      var init, c := b[..|b| - 1], b[|b| - 1];
      assert b == init + [c];
      assert a + [sep] + b == a + [sep] + init + [c];
      SplitAt(a, init, sep);
      SplitStep(a + [sep] + init, c, sep);
      SplitStep(init, c, sep);
      ExtendedAfter(Split(a, sep), Split(init, sep), c, sep);
    }
  }

  /** No piece holds a separator. */
  lemma {:induction false} SplitPieces(s: string, sep: char)
    ensures forall i :: 0 <= i < |Split(s, sep)| ==> sep !in Split(s, sep)[i]
  {
    if s != "" {
      SplitPieces(s[..|s| - 1], sep);
    }
  }

  lemma JoinExtended(init: seq<string>, c: char, sep: char)
    requires init != []
    ensures Join(Extended(init, c, sep), sep) == Join(init, sep) + [c]
  {
  }

  lemma {:induction false} JoinSplit(s: string, sep: char)
    ensures Join(Split(s, sep), sep) == s
  {
    if s != "" {
      var init, c := s[..|s| - 1], s[|s| - 1];
      JoinSplit(init, sep);
      JoinExtended(Split(init, sep), c, sep);
      assert s == init + [c];
    }
  }

  lemma {:induction false} SplitJoin(parts: seq<string>, sep: char)
    requires parts != [] && forall i :: 0 <= i < |parts| ==> sep !in parts[i]
    ensures Split(Join(parts, sep), sep) == parts
  {
    var last := parts[|parts| - 1];
    SplitWithout(last, sep);
    if |parts| > 1 {
      var init := parts[..|parts| - 1];
      SplitJoin(init, sep);
      SplitAt(Join(init, sep), last, sep);
      assert parts == init + [last];
    }
  }
}
