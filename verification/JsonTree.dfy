/** Nested objects as trees of paths. */
module JsonTree {
  import opened Wrappers
  import opened Json

  /** Sets the value at a path, with objects on the way. */
  function Put(o: Fields, path: Path, v: Json): Fields
    requires path != []
    decreases |path|
  {
    if |path| == 1 then o[path[0] := v]
    else
      var inner := if path[0] in o && o[path[0]].Object? then o[path[0]].fields else map[];
      o[path[0] := Object(Put(inner, path[1..], v))]
  }

  /** Every key on the way to the path that is there holds an object. */
  ghost predicate Open(o: Fields, path: Path) {
    forall n :: 0 < n < |path| ==>
      var x := At(Object(o), path[..n]); x.None? || x.value.Object?
  }

  lemma OpenBelow(o: Fields, path: Path)
    requires |path| > 1 && Open(o, path) && path[0] in o
    ensures o[path[0]].Object? && Open(o[path[0]].fields, path[1..])
  {
    var k := path[0];
    assert path[..1][1..] == [];
    assert At(Object(o), path[..1]) == Some(o[k]);
    forall n | 0 < n < |path[1..]|
      ensures var x := At(o[k], path[1..][..n]); x.None? || x.value.Object?
    {
      assert path[..n + 1][1..] == path[1..][..n];
      assert At(Object(o), path[..n + 1]) == At(o[k], path[1..][..n]);
    }
  }

  lemma OpenNothing(path: Path)
    ensures Open(map[], path)
  {
  }

  /** What is where after setting a path: the value below it, objects on the way to it, and
      everything else as before. */
  lemma {:induction false} PutAt(o: Fields, path: Path, v: Json, q: Path)
    requires path != [] && q != [] && Open(o, path)
    ensures var x := At(Object(Put(o, path, v)), q);
            if path <= q then x == At(v, q[|path|..])
            else if q <= path then x.Some? && x.value.Object?
            else x == At(Object(o), q)
    decreases |path|
  {
    if q[0] == path[0] {
      var inner := if path[0] in o && o[path[0]].Object? then o[path[0]].fields else map[];
      if |path| == 1 {
        assert q[1..] == q[|path|..];
      } else if |q| > 1 {
        if path[0] in o { OpenBelow(o, path); } else { OpenNothing(path[1..]); }
        PutAt(inner, path[1..], v, q[1..]);
        assert path <= q <==> path[1..] <= q[1..] by { PrefixTail(path, q); }
        assert q <= path <==> q[1..] <= path[1..] by { PrefixTail(q, path); }
        assert path <= q ==> q[1..][|path[1..]|..] == q[|path|..];
      }
    }
  }

  lemma PrefixTail(a: Path, b: Path)
    requires a != [] && b != [] && a[0] == b[0]
    ensures a <= b <==> a[1..] <= b[1..]
  {
    if a[1..] <= b[1..] {
      assert a == [a[0]] + a[1..] && b == [b[0]] + b[1..];
    }
  }

  lemma PutOver(o: Fields, x: Fields, path: Path, v: Json)
    requires |path| > 1
    ensures Put(o[path[0] := Object(x)], path, v) == o[path[0] := Object(Put(x, path[1..], v))]
  {
  }

  /** Setting a new object on the way first changes nothing. */
  lemma {:induction false} PutTwice(o: Fields, path: Path, n: nat, v: Json)
    requires 0 < n < |path| && At(Object(o), path[..n]).None?
    ensures Put(Put(o, path[..n], Object(map[])), path, v) == Put(o, path, v)
    decreases n
  {
    var k := path[0];
    if n == 1 {
      assert path[..1][1..] == [];
      PutOver(o, map[], path, v);
    } else {
      var inner := if k in o && o[k].Object? then o[k].fields else map[];
      assert path[..n][1..] == path[1..][..n - 1];
      assert k in o ==> At(Object(o), path[..n]) == At(o[k], path[..n][1..]);
      PutTwice(inner, path[1..], n - 1, v);
      PutOver(o, Put(inner, path[1..][..n - 1], Object(map[])), path, v);
    }
  }

  // ------------------------------------------------------- trees of string leaves

  type Leaves = map<Path, string>

  /** `q` leads to a leaf. */
  ghost predicate Inside(leaves: Leaves, q: Path) {
    exists p :: p in leaves && q <= p && q != p
  }

  ghost predicate Shows(x: Option<Json>, leaves: Leaves, q: Path) {
    && (q in leaves ==> x == Some(String(leaves[q])))
    && (Inside(leaves, q) ==> x.Some? && x.value.Object?)
    && (q !in leaves && !Inside(leaves, q) ==> x.None?)
  }

  /** The object's leaves are exactly these, and it holds no object that does not lead to one. */
  ghost predicate Holds(o: Fields, leaves: Leaves) {
    forall q: Path :: q != [] ==> Shows(At(Object(o), q), leaves, q)
  }

  /** Two paths that cannot both be leaves. */
  predicate Clash(p: Path, q: Path) {
    p <= q || q <= p
  }

  ghost predicate Free(leaves: Leaves, path: Path) {
    forall p :: p in leaves ==> !Clash(p, path)
  }

  lemma FreeIsOpen(o: Fields, leaves: Leaves, path: Path)
    requires path != [] && Holds(o, leaves) && Free(leaves, path)
    ensures Open(o, path)
  {
  }

  lemma PutHolds(o: Fields, leaves: Leaves, path: Path, s: string)
    requires path != [] && Holds(o, leaves) && Free(leaves, path)
    ensures Holds(Put(o, path, String(s)), leaves[path := s])
  {
    FreeIsOpen(o, leaves, path);
    forall q: Path | q != []
      ensures Shows(At(Object(Put(o, path, String(s))), q), leaves[path := s], q)
    {
      PutShows(o, leaves, path, s, q);
    }
  }

  lemma PutShows(o: Fields, leaves: Leaves, path: Path, s: string, q: Path)
    requires path != [] && q != [] && Open(o, path) && Free(leaves, path)
    requires Shows(At(Object(o), q), leaves, q)
    ensures Shows(At(Object(Put(o, path, String(s))), q), leaves[path := s], q)
  {
    PutAt(o, path, String(s), q);
    var more := leaves[path := s];
    assert Inside(more, q) <==> Inside(leaves, q) || (q <= path && q != path) by {
      if q <= path && q != path { assert path in more; }
      if Inside(leaves, q) {
        var p :| p in leaves && q <= p && q != p;
        assert p in more;
      }
    }
  }

  /** The leaves determine the object. */
  lemma {:induction false} SameLeavesSameObject(a: Json, b: Json)
    requires forall q: Path :: AlikeAt(a, b, q)
    ensures a == b
    decreases a
  {
    assert AlikeAt(a, b, []);
    if a.Object? {
      forall k | k in a.fields || k in b.fields
        ensures k in a.fields && k in b.fields && a.fields[k] == b.fields[k]
      {
        assert AlikeAt(a, b, [k]);
        assert [k][1..] == [];
        assert k in a.fields ==> At(a, [k]) == Some(a.fields[k]);
        assert k in b.fields ==> At(b, [k]) == Some(b.fields[k]);
        assert k in a.fields && k in b.fields;
        forall q: Path ensures AlikeAt(a.fields[k], b.fields[k], q) {
          assert AlikeAt(a, b, [k] + q);
          assert ([k] + q)[1..] == q;
        }
        SameLeavesSameObject(a.fields[k], b.fields[k]);
      }
    }
  }

  /** Both have nothing, the same string, or an object at the path. */
  ghost predicate AlikeAt(a: Json, b: Json, q: Path) {
    match (At(a, q), At(b, q))
    case (None, None) => true
    case (Some(x), Some(y)) => (x.String? && x == y) || (x.Object? && y.Object?)
    case _ => false
  }

  lemma HoldsUniquely(a: Fields, b: Fields, leaves: Leaves)
    requires Holds(a, leaves) && Holds(b, leaves)
    ensures a == b
  {
    forall q: Path ensures AlikeAt(Object(a), Object(b), q) {
      if q != [] {
        assert Shows(At(Object(a), q), leaves, q) && Shows(At(Object(b), q), leaves, q);
      }
    }
    SameLeavesSameObject(Object(a), Object(b));
  }
}
