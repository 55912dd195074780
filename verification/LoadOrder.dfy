/** The order configuration files are loaded in, over all paths. */
module LoadOrder {
  import opened Wrappers
  import opened Includes

  // -------------------------------------------------------------- over all paths

  /** A file found, under its dedupe key (its canonical path). */
  datatype Emission = Emission(key: Path, path: Path)

  ghost predicate DistinctKeys(all: seq<Emission>) {
    forall i, j :: 0 <= i < j < |all| ==> all[i].key != all[j].key
  }

  function IndexOf(all: seq<Emission>, key: Path): (i: Option<nat>)
    ensures i.Some? ==> i.value < |all| && all[i.value].key == key
    ensures i.None? ==> forall j :: 0 <= j < |all| ==> all[j].key != key
  {
    if all == [] then None
    else if all[|all| - 1].key == key then Some(|all| - 1)
    else IndexOf(all[..|all| - 1], key)
  }

  /** The files so far in order, each loaded from one path. */
  class FileOrder {
    var all: seq<Emission>

    constructor ()
      ensures all == []
    {
      all := [];
    }

    /** The `push` closure: `shift_remove`, then `insert` at the end, keeping a path whose type is
        known. */
    method Push(e: Emission, known: Path -> bool)
      requires DistinctKeys(all)
      modifies this
      ensures all == Pushed(old(all), e, known) && DistinctKeys(all)
    {
      var path := e.path;
      var i := IndexOf(all, e.key);
      if i.Some? {
        var prev := all[i.value].path;
        all := all[..i.value] + all[i.value + 1..];
        if !known(path) && known(prev) {
          path := prev;
        }
      }
      all := all + [Emission(e.key, path)];
    }
  }

  function Pushed(all: seq<Emission>, e: Emission, known: Path -> bool): seq<Emission> {
    match IndexOf(all, e.key)
    case None => all + [e]
    case Some(i) =>
      all[..i] + all[i + 1..] +
      [Emission(e.key, if !known(e.path) && known(all[i].path) then all[i].path else e.path)]
  }

  function PushedAll(es: seq<Emission>, known: Path -> bool): seq<Emission> {
    if es == [] then [] else Pushed(PushedAll(es[..|es| - 1], known), es[|es| - 1], known)
  }

  /** The path of the last occurrence of the key whose type is known. */
  function LastKnown(es: seq<Emission>, known: Path -> bool, key: Path): Option<Path> {
    if es == [] then None
    else
      var e := es[|es| - 1];
      if e.key == key && known(e.path) then Some(e.path) else LastKnown(es[..|es| - 1], known, key)
  }

  /** That path, or else the one of the last occurrence. */
  function Spelling(es: seq<Emission>, known: Path -> bool, key: Path): Path
    requires IndexOf(es, key).Some?
  {
    match LastKnown(es, known, key)
    case Some(path) => path
    case None => es[IndexOf(es, key).value].path
  }

  ghost predicate SameKeys(es: seq<Emission>, all: seq<Emission>) {
    forall key :: IndexOf(es, key).Some? <==> IndexOf(all, key).Some?
  }

  ghost predicate Spelled(es: seq<Emission>, known: Path -> bool, e: Emission) {
    IndexOf(es, e.key).Some? && e.path == Spelling(es, known, e.key)
  }

  ghost predicate LastEarlier(es: seq<Emission>, a: Path, b: Path) {
    IndexOf(es, a).Some? && IndexOf(es, b).Some? && IndexOf(es, a).value < IndexOf(es, b).value
  }

  /** Each key comes once, under its spelling, and the keys are ordered by last occurrence. */
  ghost predicate Deduped(es: seq<Emission>, known: Path -> bool, all: seq<Emission>) {
    && DistinctKeys(all) && SameKeys(es, all)
    && (forall k :: 0 <= k < |all| ==> Spelled(es, known, all[k]))
    && (forall k, m :: 0 <= k < m < |all| ==> LastEarlier(es, all[k].key, all[m].key))
  }

  lemma {:induction false} KnownIsKnown(es: seq<Emission>, known: Path -> bool, key: Path)
    ensures LastKnown(es, known, key).Some? ==>
              known(LastKnown(es, known, key).value) && IndexOf(es, key).Some?
    ensures LastKnown(es, known, key).None? && IndexOf(es, key).Some? ==>
              !known(es[IndexOf(es, key).value].path)
  {
    if es != [] {
      KnownIsKnown(es[..|es| - 1], known, key);
    }
  }

  /** One more emission: its key comes last, spelled anew; the others stay as they were. */
  lemma SpellingOnEmission(es: seq<Emission>, e: Emission, known: Path -> bool, key: Path)
    ensures key == e.key ==> IndexOf(es + [e], key) == Some(|es|)
    ensures key != e.key ==> IndexOf(es + [e], key) == IndexOf(es, key)
    ensures key != e.key && IndexOf(es, key).Some? ==>
              Spelling(es + [e], known, key) == Spelling(es, known, key)
    ensures key == e.key ==> (
              var kept := IndexOf(es, key).Some? && !known(e.path) && known(Spelling(es, known, key));
              Spelling(es + [e], known, key) == if kept then Spelling(es, known, key) else e.path)
  {
    assert (es + [e])[..|es|] == es;
    KnownIsKnown(es, known, key);
  }

  /** `all` without the key, in the same order. */
  function Without(all: seq<Emission>, key: Path): seq<Emission> {
    match IndexOf(all, key)
    case None => all
    case Some(i) => all[..i] + all[i + 1..]
  }

  /** Where an entry is that is without the key. */
  lemma WithoutAt(all: seq<Emission>, key: Path, k: nat) returns (i: nat)
    requires DistinctKeys(all) && k < |Without(all, key)|
    ensures i < |all| && Without(all, key)[k] == all[i] && all[i].key != key
    ensures i == if IndexOf(all, key).Some? && k >= IndexOf(all, key).value then k + 1 else k
  {
    i := if IndexOf(all, key).Some? && k >= IndexOf(all, key).value then k + 1 else k;
  }

  lemma WithoutDistinct(all: seq<Emission>, key: Path)
    requires DistinctKeys(all)
    ensures DistinctKeys(Without(all, key))
    ensures forall k :: 0 <= k < |Without(all, key)| ==> Without(all, key)[k].key != key
  {
    var rest := Without(all, key);
    forall k | 0 <= k < |rest| ensures rest[k].key != key {
      var i := WithoutAt(all, key, k);
    }
    forall k, m | 0 <= k < m < |rest| ensures rest[k].key != rest[m].key {
      var i := WithoutAt(all, key, k);
      var j := WithoutAt(all, key, m);
    }
  }

  lemma WithoutFinds(all: seq<Emission>, key: Path, other: Path)
    requires DistinctKeys(all) && other != key
    ensures IndexOf(Without(all, key), other).Some? <==> IndexOf(all, other).Some?
  {
    var rest := Without(all, key);
    if IndexOf(all, other).Some? && IndexOf(all, key).Some? {
      var i, j := IndexOf(all, key).value, IndexOf(all, other).value;
      assert rest[if j < i then j else j - 1] == all[j];
    }
    if IndexOf(rest, other).Some? {
      var i := WithoutAt(all, key, IndexOf(rest, other).value);
    }
  }

  lemma WithoutKeeps(all: seq<Emission>, key: Path)
    requires DistinctKeys(all)
    ensures DistinctKeys(Without(all, key))
    ensures forall k :: 0 <= k < |Without(all, key)| ==> Without(all, key)[k].key != key
    ensures forall other :: other != key ==>
              (IndexOf(Without(all, key), other).Some? <==> IndexOf(all, other).Some?)
  {
    WithoutDistinct(all, key);
    forall other | other != key
      ensures IndexOf(Without(all, key), other).Some? <==> IndexOf(all, other).Some?
    {
      WithoutFinds(all, key, other);
    }
  }

  lemma PushShape(all: seq<Emission>, e: Emission, known: Path -> bool)
    ensures var pushed, rest := Pushed(all, e, known), Without(all, e.key);
            |pushed| == |rest| + 1 && pushed[..|rest|] == rest && pushed[|rest|].key == e.key
  {
  }

  lemma PushKeys(es: seq<Emission>, e: Emission, known: Path -> bool, all: seq<Emission>)
    requires DistinctKeys(all) && SameKeys(es, all)
    ensures DistinctKeys(Pushed(all, e, known)) && SameKeys(es + [e], Pushed(all, e, known))
  {
    var rest, pushed := Without(all, e.key), Pushed(all, e, known);
    WithoutKeeps(all, e.key);
    PushShape(all, e, known);
    forall key ensures IndexOf(es + [e], key).Some? <==> IndexOf(pushed, key).Some? {
      SpellingOnEmission(es, e, known, key);
    }
  }

  /** A key that stays was there before, at some other place. */
  lemma PushStays(all: seq<Emission>, e: Emission, known: Path -> bool, k: nat) returns (i: nat)
    requires DistinctKeys(all) && k < |Pushed(all, e, known)| - 1
    ensures i < |all| && Pushed(all, e, known)[k] == all[i] && all[i].key != e.key
    ensures i == if IndexOf(all, e.key).Some? && k >= IndexOf(all, e.key).value then k + 1 else k
  {
    WithoutKeeps(all, e.key);
    PushShape(all, e, known);
    i := if IndexOf(all, e.key).Some? && k >= IndexOf(all, e.key).value then k + 1 else k;
    assert Without(all, e.key)[k] == all[i];
  }

  lemma PushSpelled(es: seq<Emission>, e: Emission, known: Path -> bool, all: seq<Emission>, k: nat)
    requires Deduped(es, known, all) && k < |Pushed(all, e, known)|
    ensures Spelled(es + [e], known, Pushed(all, e, known)[k])
  {
    if k < |Pushed(all, e, known)| - 1 {
      var i := PushStays(all, e, known, k);
      SpellingOnEmission(es, e, known, all[i].key);
    } else {
      SpellingOnEmission(es, e, known, e.key);
    }
  }

  lemma PushOrdered(es: seq<Emission>, e: Emission, known: Path -> bool, all: seq<Emission>, k: nat, m: nat)
    requires Deduped(es, known, all) && k < m < |Pushed(all, e, known)|
    ensures LastEarlier(es + [e], Pushed(all, e, known)[k].key, Pushed(all, e, known)[m].key)
  {
    var i := PushStays(all, e, known, k);
    SpellingOnEmission(es, e, known, all[i].key);
    assert Spelled(es, known, all[i]);
    if m < |Pushed(all, e, known)| - 1 {
      var j := PushStays(all, e, known, m);
      SpellingOnEmission(es, e, known, all[j].key);
    } else {
      SpellingOnEmission(es, e, known, e.key);
    }
  }

  lemma PushDeduped(es: seq<Emission>, e: Emission, known: Path -> bool, all: seq<Emission>)
    requires Deduped(es, known, all)
    ensures Deduped(es + [e], known, Pushed(all, e, known))
  {
    PushKeys(es, e, known, all);
    forall k | 0 <= k < |Pushed(all, e, known)|
      ensures Spelled(es + [e], known, Pushed(all, e, known)[k])
    {
      PushSpelled(es, e, known, all, k);
    }
    forall k, m | 0 <= k < m < |Pushed(all, e, known)|
      ensures LastEarlier(es + [e], Pushed(all, e, known)[k].key, Pushed(all, e, known)[m].key)
    {
      PushOrdered(es, e, known, all, k, m);
    }
  }

  lemma PushedStep(es: seq<Emission>, e: Emission, known: Path -> bool)
    ensures PushedAll(es + [e], known) == Pushed(PushedAll(es, known), e, known)
  {
  }

  lemma NothingIsDeduped(known: Path -> bool)
    ensures Deduped([], known, [])
  {
  }

  /** Pushing the emissions one by one leaves each key once, ordered by its last occurrence, under
      its last path with a known type if any of its paths has one, else its last path. */
  lemma {:induction false} PushedIsDeduped(es: seq<Emission>, known: Path -> bool)
    ensures Deduped(es, known, PushedAll(es, known))
  {
    if es == [] {
      NothingIsDeduped(known);
    } else {
      var init, e := es[..|es| - 1], es[|es| - 1];
      assert es == init + [e];
      PushedIsDeduped(init, known);
      PushedStep(init, e, known);
      PushDeduped(init, e, known, PushedAll(init, known));
    }
  }

  // ------------------------------------------------------------------ the loader

  function Keyed(files: seq<Path>, key: Path -> Path): seq<Emission> {
    if files == [] then []
    else
      var path := files[|files| - 1];
      Keyed(files[..|files| - 1], key) + [Emission(key(path), path)]
  }

  /** `ConfigLoader::load` up to reading the files: all paths unfolded in order, each on a stack of
      its own, and every file pushed. */
  method Collect(fs: FileSystem, paths: seq<Path>, key: Path -> Path, known: Path -> bool)
    returns (r: Result<seq<Emission>, LoadError>)
    requires fs.Closed()
    ensures match UnfoldedAll(fs, {}, paths)
            case Err(e) => r == Err(e)
            case Ok(files) => r == Ok(PushedAll(Keyed(files, key), known))
                              && Deduped(Keyed(files, key), known, r.value)
  {
    var order := new FileOrder();
    ghost var done: seq<Path> := [];
    assert paths[0..] == paths;
    BeforeTwice([], [], UnfoldedAll(fs, {}, paths));
    for i := 0 to |paths|
      invariant fresh(order)
      invariant order.all == PushedAll(Keyed(done, key), known) && DistinctKeys(order.all)
      invariant UnfoldedAll(fs, {}, paths) == Before(done, UnfoldedAll(fs, {}, paths[i..]))
    {
      assert paths[i..][0] == paths[i] && paths[i..][1..] == paths[i + 1..];
      var walk := new Walk();
      var found := walk.LoadConfigFiles(fs, paths[i]);
      if found.Err? {
        return Err(found.error);
      }
      var files := walk.files;
      assert files == Unfolded(fs, {}, paths[i]).value;
      PushAll(order, files, Keyed(done, key), key, known);
      KeyedAppend(done, files, key);
      BeforeTwice(done, files, UnfoldedAll(fs, {}, paths[i + 1..]));
      done := done + files;
    }
    PushedIsDeduped(Keyed(done, key), known);
    assert done + [] == done;
    return Ok(order.all);
  }

  lemma {:induction false} KeyedAppend(a: seq<Path>, b: seq<Path>, key: Path -> Path)
    ensures Keyed(a + b, key) == Keyed(a, key) + Keyed(b, key)
  {
    if b == [] {
      assert a + b == a;
    } else {
      var last := |b| - 1;
      KeyedAppend(a, b[..last], key);
      assert (a + b)[..|a + b| - 1] == a + b[..last];
    }
  }

  lemma KeyedStep(files: seq<Path>, i: nat, key: Path -> Path)
    requires i < |files|
    ensures Keyed(files[..i + 1], key) == Keyed(files[..i], key) + [Emission(key(files[i]), files[i])]
  {
    assert files[..i + 1][..i] == files[..i];
  }

  method PushAll(order: FileOrder, files: seq<Path>, ghost es: seq<Emission>, key: Path -> Path,
                 known: Path -> bool)
    requires order.all == PushedAll(es, known) && DistinctKeys(order.all)
    modifies order
    ensures order.all == PushedAll(es + Keyed(files, key), known) && DistinctKeys(order.all)
  {
    ghost var seen := es;
    for i := 0 to |files|
      invariant seen == es + Keyed(files[..i], key)
      invariant order.all == PushedAll(seen, known) && DistinctKeys(order.all)
    {
      var e := Emission(key(files[i]), files[i]);
      PushedStep(seen, e, known);
      KeyedStep(files, i, key);
      order.Push(e, known);
      seen := seen + [e];
    }
    assert files[..|files|] == files;
  }
}
