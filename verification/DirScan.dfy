/** The configuration files of one directory. */
module DirScan {
  import opened Wrappers

  datatype DirEntry = DirEntry(name: string, isFile: bool)

  datatype Match = Match(index: nat, name: string)

  /** What makes a file of a directory a configuration file. */
  datatype Filter = Filter(patterns: seq<string -> bool>, includeFile: string, isEnv: string -> bool)

  /** `rposition`: the last of the patterns that match. */
  function LastMatch(patterns: seq<string -> bool>, name: string): Option<nat> {
    if patterns == [] then None
    else if patterns[|patterns| - 1](name) then Some(|patterns| - 1)
    else LastMatch(patterns[..|patterns| - 1], name)
  }

  /** The priority of a directory entry among the configuration files, if it is one. */
  function Priority(f: Filter, e: DirEntry): Option<nat> {
    if !e.isFile || e.name == f.includeFile || (f.patterns == [] && f.isEnv(e.name)) then None
    else if f.patterns == [] then Some(0)
    else LastMatch(f.patterns, e.name)
  }

  /** Names compare like their bytes. */
  predicate NameLeq(a: string, b: string) {
    a == "" || (b != "" && (a[0] < b[0] || (a[0] == b[0] && NameLeq(a[1..], b[1..]))))
  }

  predicate Leq(a: Match, b: Match) {
    a.index < b.index || (a.index == b.index && NameLeq(a.name, b.name))
  }

  lemma {:induction false} NamesTotal(a: string, b: string)
    ensures NameLeq(a, b) || NameLeq(b, a)
  {
    if a != "" && b != "" && a[0] == b[0] {
      NamesTotal(a[1..], b[1..]);
    }
  }

  lemma {:induction false} NamesTransitive(a: string, b: string, c: string)
    requires NameLeq(a, b) && NameLeq(b, c)
    ensures NameLeq(a, c)
  {
    if a != "" && a[0] == b[0] && b[0] == c[0] {
      NamesTransitive(a[1..], b[1..], c[1..]);
    }
  }

  ghost predicate InOrder(ms: seq<Match>) {
    forall i, j :: 0 <= i < j < |ms| ==> Leq(ms[i], ms[j])
  }

  /** Where `Vec::sort` puts one more element. */
  function Inserted(ms: seq<Match>, m: Match): seq<Match> {
    if ms == [] || Leq(ms[|ms| - 1], m) then ms + [m]
    else Inserted(ms[..|ms| - 1], m) + [ms[|ms| - 1]]
  }

  function Sorted(ms: seq<Match>): seq<Match> {
    if ms == [] then [] else Inserted(Sorted(ms[..|ms| - 1]), ms[|ms| - 1])
  }

  ghost predicate AllLeq(ms: seq<Match>, top: Match) {
    forall i :: 0 <= i < |ms| ==> Leq(ms[i], top)
  }

  lemma {:induction false} InsertedBelow(ms: seq<Match>, m: Match, top: Match)
    requires AllLeq(ms, top) && Leq(m, top)
    ensures AllLeq(Inserted(ms, m), top)
  {
    if ms != [] && !Leq(ms[|ms| - 1], m) {
      InsertedBelow(ms[..|ms| - 1], m, top);
    }
  }

  lemma {:induction false} InsertedSame(ms: seq<Match>, m: Match)
    ensures multiset(Inserted(ms, m)) == multiset(ms) + multiset{m}
  {
    if ms != [] && !Leq(ms[|ms| - 1], m) {
      InsertedSame(ms[..|ms| - 1], m);
      assert ms == ms[..|ms| - 1] + [ms[|ms| - 1]];
    }
  }

  lemma LastIsTop(ms: seq<Match>, m: Match)
    requires InOrder(ms) && ms != [] && Leq(ms[|ms| - 1], m)
    ensures AllLeq(ms, m)
  {
    var last := ms[|ms| - 1];
    forall i | 0 <= i < |ms| - 1 ensures Leq(ms[i], m) {
      assert Leq(ms[i], last);
      if ms[i].index == m.index { NamesTransitive(ms[i].name, last.name, m.name); }
    }
  }

  lemma {:induction false} InsertedInOrder(ms: seq<Match>, m: Match)
    requires InOrder(ms)
    ensures InOrder(Inserted(ms, m))
  {
    if ms != [] {
      var init, last := ms[..|ms| - 1], ms[|ms| - 1];
      if Leq(last, m) {
        LastIsTop(ms, m);
      } else {
        NamesTotal(last.name, m.name);
        InsertedInOrder(init, m);
        InsertedBelow(init, m, last);
      }
    }
  }

  /** Sorting gives the same matches, ordered by the matched pattern, then by name. */
  lemma {:induction false} SortedInOrder(ms: seq<Match>)
    ensures InOrder(Sorted(ms)) && multiset(Sorted(ms)) == multiset(ms)
  {
    if ms != [] {
      SortedInOrder(ms[..|ms| - 1]);
      InsertedInOrder(Sorted(ms[..|ms| - 1]), ms[|ms| - 1]);
      InsertedSame(Sorted(ms[..|ms| - 1]), ms[|ms| - 1]);
      assert ms == ms[..|ms| - 1] + [ms[|ms| - 1]];
    }
  }

  function Matches(f: Filter, entries: seq<DirEntry>): seq<Match> {
    if entries == [] then []
    else
      var e := entries[|entries| - 1];
      Matches(f, entries[..|entries| - 1]) +
      match Priority(f, e) case None => [] case Some(i) => [Match(i, e.name)]
  }

  /** The scan of a directory: its configuration files by priority, then by name. */
  method DirFiles(f: Filter, entries: seq<DirEntry>) returns (files: seq<Match>)
    ensures files == Sorted(Matches(f, entries))
    ensures InOrder(files) && multiset(files) == multiset(Matches(f, entries))
  {
    files := [];
    for i := 0 to |entries|
      invariant files == Matches(f, entries[..i])
    {
      assert entries[..i + 1][..i] == entries[..i];
      var e := entries[i];
      if !e.isFile || e.name == f.includeFile {
        continue;
      }
      if f.patterns == [] && f.isEnv(e.name) {
        continue;
      }
      var index := if f.patterns == [] then Some(0) else LastMatch(f.patterns, e.name);
      if index.None? {
        continue;
      }
      files := files + [Match(index.value, e.name)];
    }
    assert entries[..|entries|] == entries;
    SortedInOrder(files);
    files := Sorted(files);
  }

  /** The matches are exactly those of the directory's entries. */
  lemma {:induction false} MatchOfEntry(f: Filter, entries: seq<DirEntry>, m: Match)
    ensures m in Matches(f, entries) <==>
            exists e :: e in entries && e.name == m.name && Priority(f, e) == Some(m.index)
  {
    if entries != [] {
      var init, e := entries[..|entries| - 1], entries[|entries| - 1];
      MatchOfEntry(f, init, m);
      assert entries == init + [e];
      if x :| x in init && x.name == m.name && Priority(f, x) == Some(m.index) {
        assert x in entries;
      }
    }
  }

  /** The last pattern that matches. */
  lemma {:induction false} LastMatchIsLast(patterns: seq<string -> bool>, name: string, i: nat)
    ensures LastMatch(patterns, name) == Some(i) <==>
            i < |patterns| && patterns[i](name) && forall j :: i < j < |patterns| ==> !patterns[j](name)
  {
    if patterns != [] {
      var init := patterns[..|patterns| - 1];
      LastMatchIsLast(init, name, i);
      assert forall j :: 0 <= j < |init| ==> init[j] == patterns[j];
    }
  }

  /** What the priority of a directory entry is. */
  lemma PriorityExactly(f: Filter, e: DirEntry, i: nat)
    ensures Priority(f, e) == Some(i) <==>
            && e.isFile && e.name != f.includeFile
            && (if f.patterns == [] then i == 0 && !f.isEnv(e.name)
                else i < |f.patterns| && f.patterns[i](e.name)
                     && forall j :: i < j < |f.patterns| ==> !f.patterns[j](e.name))
  {
    LastMatchIsLast(f.patterns, e.name, i);
  }

  /** A name that is a front of the other, or less where they first differ, comes first. */
  ghost predicate Precedes(a: string, b: string) {
    a <= b || exists n :: 0 <= n < |a| && n < |b| && a[..n] == b[..n] && a[n] < b[n]
  }

  lemma FirstAgrees(a: string, b: string, n: nat)
    ensures 0 < n < |a| && n < |b| && a[..n] == b[..n] ==> a[0] == b[0]
  {
    if 0 < n < |a| && n < |b| && a[..n] == b[..n] {
      assert a[..n][0] == a[0] && b[..n][0] == b[0];
    }
  }

  lemma {:induction false} NameLeqExactly(a: string, b: string)
    ensures NameLeq(a, b) <==> Precedes(a, b)
  {
    if a != "" && b != "" && a[0] == b[0] {
      var x, y := a[1..], b[1..];
      NameLeqExactly(x, y);
      assert a == [a[0]] + x && b == [a[0]] + y;
      if n :| 0 <= n < |x| && n < |y| && x[..n] == y[..n] && x[n] < y[n] {
        assert a[..n + 1] == [a[0]] + x[..n] && b[..n + 1] == [a[0]] + y[..n];
        assert a[n + 1] < b[n + 1];
      }
      if n :| 0 <= n < |a| && n < |b| && a[..n] == b[..n] && a[n] < b[n] {
        assert n > 0;
        assert x[..n - 1] == a[..n][1..] && y[..n - 1] == b[..n][1..];
        assert x[n - 1] < y[n - 1];
      }
    } else if a != "" && b != "" {
      if a[0] < b[0] { assert a[..0] == b[..0]; }
      if n :| 0 <= n < |a| && n < |b| && a[..n] == b[..n] && a[n] < b[n] {
        FirstAgrees(a, b, n);
      }
    }
  }

  /** The files of a directory are exactly its configuration files, by the last pattern each matches, then by name. */
  lemma ScanIsOrdered(f: Filter, entries: seq<DirEntry>)
    ensures var files := Sorted(Matches(f, entries));
            forall i, j :: 0 <= i < j < |files| ==>
              || files[i].index < files[j].index
              || (files[i].index == files[j].index && Precedes(files[i].name, files[j].name))
  {
    var files := Sorted(Matches(f, entries));
    SortedInOrder(Matches(f, entries));
    forall i, j | 0 <= i < j < |files|
      ensures || files[i].index < files[j].index
              || (files[i].index == files[j].index && Precedes(files[i].name, files[j].name))
    {
      NameLeqExactly(files[i].name, files[j].name);
      assert Leq(files[i], files[j]);
    }
  }
}
