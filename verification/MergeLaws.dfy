/** Laws of the lenient merge: when it is associative, and what it gives path by path. */
module MergeLaws {
  import opened Wrappers
  import opened Json
  import opened Merge
  import opened Text

  /** What a configuration holds at a place: an object with some of these keys, an array, or a
      value that is neither; each may also be null. */
  datatype Shape = ObjectShape(fields: map<string, Shape>) | ArrayShape | ScalarShape

  ghost predicate Conforms(v: Json, shape: Shape)
    decreases shape
  {
    match shape
    case ObjectShape(fields) => v.Null? || (v.Object? && FieldsConform(v.fields, shape))
    case ArrayShape => v.Null? || v.Array?
    case ScalarShape => !v.Object? && !v.Array?
  }

  ghost predicate FieldsConform(o: Fields, shape: Shape)
    decreases shape, 0
  {
    shape.ObjectShape? && forall k :: k in o ==> k in shape.fields && Conforms(o[k], shape.fields[k])
  }

  lemma {:induction false} ValueConforms(a: Json, b: Json, shape: Shape, f: Flags)
    requires !f.split && Conforms(a, shape) && Conforms(b, shape)
    ensures Conforms(MergedValue(a, b, f), shape)
    decreases shape
  {
    if shape.ObjectShape? && f.nested && a.Object? && b.Object? {
      FieldsStayConform(a.fields, b.fields, shape, f);
    }
  }

  lemma {:induction false} FieldsStayConform(a: Fields, b: Fields, shape: Shape, f: Flags)
    requires !f.split && FieldsConform(a, shape) && FieldsConform(b, shape)
    ensures FieldsConform(Merged(a, b, f), shape)
    decreases shape, 0
  {
    forall k | k in a && k in b ensures Conforms(MergedValue(a[k], b[k], f), shape.fields[k]) {
      ValueConforms(a[k], b[k], shape.fields[k], f);
    }
  }

  // ------------------------------------------------------------- associativity

  /** Whatever is merged third, the order of merging makes no difference to these two values. */
  ghost predicate Lets(x: Json, y: Json, f: Flags)
    decreases y, 1
  {
    match (x, y)
    case (Object(t), Object(s)) => f.nested ==> AllLet(t, s, f)
    case (Object(_), Null) => true
    case (Object(t), Array(_)) => !f.nested || (f.extend && t == map[])
    case (Object(_), _) => !f.nested
    case (Array(_), Array(_)) => true
    case (Array(_), Null) => true
    case (Array(t), Object(_)) => !f.extend || (f.nested && t == [])
    case (Array(_), _) => !f.extend
    case _ => true
  }

  /** So for all keys that both sources have. */
  ghost predicate AllLet(a: Fields, b: Fields, f: Flags)
    decreases Object(b), 0
  {
    forall k :: k in a && k in b ==> Lets(a[k], b[k], f)
  }

  ghost predicate ValuesAssociate(x: Json, y: Json, z: Json, f: Flags) {
    MergedValue(MergedValue(x, y, f), z, f) == MergedValue(x, MergedValue(y, z, f), f)
  }

  ghost predicate Associate(a: Fields, b: Fields, c: Fields, f: Flags) {
    Merged(Merged(a, b, f), c, f) == Merged(a, Merged(b, c, f), f)
  }

  lemma EmptyIsIdentity(a: Fields, f: Flags)
    ensures Merged(map[], a, f) == a && Merged(a, map[], f) == a
  {
  }

  lemma {:induction false} LetsSuffices(x: Json, y: Json, z: Json, f: Flags)
    requires !f.split && Lets(x, y, f)
    ensures ValuesAssociate(x, y, z, f)
    decreases y, 1
  {
    match (x, y) {
      case (Object(t), Object(s)) =>
        if f.nested && z.Object? {
          AllLetSuffices(t, s, z.fields, f);
        }
      case (Object(t), Array(_)) =>
        if f.nested && z.Object? {
          EmptyIsIdentity(z.fields, f);
        }
      case (Array(t), Array(s)) =>
        if f.extend && z.Array? {
          assert t + s + z.items == t + (s + z.items);
        }
      case (Array(t), Object(_)) =>
        if f.extend && z.Array? {
          assert t + z.items == z.items;
        }
      case _ =>
    }
  }

  lemma AssociateAt(a: Fields, b: Fields, c: Fields, f: Flags, k: string)
    requires k in a && k in b && k in c ==> ValuesAssociate(a[k], b[k], c[k], f)
    ensures var x, y := Merged(Merged(a, b, f), c, f), Merged(a, Merged(b, c, f), f);
            (k in x <==> k in y) && (k in x ==> x[k] == y[k])
  {
  }

  lemma {:induction false} AllLetSuffices(a: Fields, b: Fields, c: Fields, f: Flags)
    requires !f.split && AllLet(a, b, f)
    ensures Associate(a, b, c, f)
    decreases Object(b), 0
  {
    var x, y := Merged(Merged(a, b, f), c, f), Merged(a, Merged(b, c, f), f);
    forall k ensures (k in x <==> k in y) && (k in x ==> x[k] == y[k]) {
      if k in a && k in b && k in c {
        LetsSuffices(a[k], b[k], c[k], f);
      }
      AssociateAt(a, b, c, f, k);
    }
  }

  /** A value for which the order of merging matters. */
  lemma {:induction false} LetsIsNeeded(x: Json, y: Json, f: Flags) returns (z: Json)
    requires !f.split && !Lets(x, y, f)
    ensures !ValuesAssociate(x, y, z, f)
    decreases y, 1
  {
    match (x, y) {
      case (Object(t), Object(s)) =>
        var c := AllLetIsNeeded(t, s, f);
        z := Object(c);
      case (Object(t), Array(_)) =>
        EmptyIsIdentity(t, f);
        z := if f.extend then Object(map[]) else Null;
      case (Array(t), Object(_)) =>
        assert t + [] == t;
        z := if f.nested then Array([]) else Null;
      case _ => z := Null;
    }
  }

  lemma {:induction false} AllLetIsNeeded(a: Fields, b: Fields, f: Flags) returns (c: Fields)
    requires !f.split && !AllLet(a, b, f)
    ensures !Associate(a, b, c, f)
    decreases Object(b), 0
  {
    var k :| k in a && k in b && !Lets(a[k], b[k], f);
    var z := LetsIsNeeded(a[k], b[k], f);
    c := map[k := z];
    assert Merged(Merged(a, b, f), c, f)[k] == MergedValue(MergedValue(a[k], b[k], f), z, f);
    assert Merged(a, Merged(b, c, f), f)[k] == MergedValue(a[k], MergedValue(b[k], z, f), f);
  }

  /** Merging two sources and then any third is the same in either order if and only if the values of
      the keys both have let it, down to where the merge goes. */
  lemma AssociativeExactly(a: Fields, b: Fields, f: Flags)
    requires !f.split
    ensures AllLet(a, b, f) <==> forall c: Fields :: Associate(a, b, c, f)
  {
    if AllLet(a, b, f) {
      forall c: Fields ensures Associate(a, b, c, f) {
        AllLetSuffices(a, b, c, f);
      }
    } else {
      var c := AllLetIsNeeded(a, b, f);
    }
  }

  lemma {:induction false} ShapeLets(x: Json, y: Json, shape: Shape, f: Flags)
    requires Conforms(x, shape) && Conforms(y, shape)
    ensures Lets(x, y, f)
    decreases shape, 1
  {
    if x.Object? && y.Object? {
      forall k | k in x.fields && k in y.fields ensures Lets(x.fields[k], y.fields[k], f) {
        ShapeLets(x.fields[k], y.fields[k], shape.fields[k], f);
      }
    }
  }

  /** So merging sources of one shape, and then any third, is associative for every setting of
      `merge_nested` and `extend_array`. */
  lemma MergeIsAssociative(a: Fields, b: Fields, c: Fields, shape: Shape, f: Flags)
    requires !f.split && FieldsConform(a, shape) && FieldsConform(b, shape)
    ensures Merged(Merged(a, b, f), c, f) == Merged(a, Merged(b, c, f), f)
  {
    forall k | k in a && k in b ensures Lets(a[k], b[k], f) {
      ShapeLets(a[k], b[k], shape.fields[k], f);
    }
    AllLetSuffices(a, b, c, f);
  }

  /** An input for which the order of merging matters: a string in the middle hides an object
      from a merge of all three, but not from a merge of the last two. */
  lemma NotAssociativeInGeneral()
    ensures var f := Flags(true, true, false);
            var a, b, c: Fields := map["k" := Object(map["x" := Null])], map["k" := String("")],
                                   map["k" := Object(map["y" := Null])];
            Merged(Merged(a, b, f), c, f) != Merged(a, Merged(b, c, f), f)
  {
    var f := Flags(true, true, false);
    var a, b, c: Fields := map["k" := Object(map["x" := Null])], map["k" := String("")],
                           map["k" := Object(map["y" := Null])];
    assert Merged(Merged(a, b, f), c, f)["k"] == Object(map["y" := Null]);
    var bc := Merged(b, c, f);
    assert bc["k"] == c["k"];
    assert Merged(a, bc, f)["k"] == Object(Merged(a["k"].fields, c["k"].fields, f));
    assert "x" in Merged(a, bc, f)["k"].fields;
  }

  // ------------------------------------------------------------ path by path

  /** Two values at the same path. */
  function Combined(a: Option<Json>, b: Option<Json>, f: Flags): Option<Json> {
    if a.None? then b
    else if b.None? then a
    else Some(MergedValue(a.value, b.value, f))
  }

  lemma {:induction false} MergedAt(a: Fields, b: Fields, shape: Shape, f: Flags, path: Path)
    requires !f.split && FieldsConform(a, shape) && FieldsConform(b, shape)
    requires path != [] && (|path| == 1 || f.nested)
    ensures At(Object(Merged(a, b, f)), path) ==
            Combined(At(Object(a), path), At(Object(b), path), f)
    decreases |path|
  {
    var k, rest := path[0], path[1..];
    if k in a && k in b {
      assert Conforms(a[k], shape.fields[k]) && Conforms(b[k], shape.fields[k]);
      if rest != [] && a[k].Object? && b[k].Object? {
        MergedAt(a[k].fields, b[k].fields, shape.fields[k], f, rest);
      }
    }
  }

  /** All sources, in order. */
  function MergedAll(sources: seq<Fields>, f: Flags): Fields {
    if sources == [] then map[]
    else Merged(MergedAll(sources[..|sources| - 1], f), sources[|sources| - 1], f)
  }

  function CombinedAll(sources: seq<Fields>, f: Flags, path: Path): Option<Json> {
    if sources == [] then None
    else Combined(CombinedAll(sources[..|sources| - 1], f, path),
                  At(Object(sources[|sources| - 1]), path), f)
  }

  ghost predicate AllConform(sources: seq<Fields>, shape: Shape) {
    shape.ObjectShape? && forall i :: 0 <= i < |sources| ==> FieldsConform(sources[i], shape)
  }

  /** The merged value at every path the merge reaches is the fold of the sources' values there:
      what they hold elsewhere makes no difference to it. */
  lemma {:induction false} FoldAtPath(sources: seq<Fields>, shape: Shape, f: Flags, path: Path)
    requires !f.split && AllConform(sources, shape)
    requires path != [] && (|path| == 1 || f.nested)
    ensures FieldsConform(MergedAll(sources, f), shape)
    ensures At(Object(MergedAll(sources, f)), path) == CombinedAll(sources, f, path)
  {
    if sources != [] {
      var init, last := sources[..|sources| - 1], sources[|sources| - 1];
      FoldAtPath(init, shape, f, path);
      FieldsStayConform(MergedAll(init, f), last, shape, f);
      MergedAt(MergedAll(init, f), last, shape, f, path);
    }
  }

  // ------------------------------------------------------------ what comes out

  /** What replaces whatever the sources before hold. */
  predicate Replaces(v: Json, f: Flags) {
    match v
    case Object(_) => !f.nested
    case Array(_) => !f.extend
    case Null => !f.nested && !f.extend
    case _ => true
  }

  /** Whatever the target holds, of whatever types, such a value of the source is the merged one at its path. */
  lemma {:induction false} SourceValueWins(a: Fields, b: Fields, f: Flags, path: Path)
    requires !f.split && path != [] && At(Object(b), path).Some? && Replaces(At(Object(b), path).value, f)
    ensures At(Object(Merged(a, b, f)), path) == At(Object(b), path)
    decreases |path|
  {
    var k, rest := path[0], path[1..];
    if k in a && rest != [] && f.nested && a[k].Object? {
      SourceValueWins(a[k].fields, b[k].fields, f, rest);
    }
  }

  lemma {:induction false} LastWins(sources: seq<Fields>, f: Flags, path: Path, i: nat)
    requires !f.split && i < |sources| && At(Object(sources[i]), path).Some?
    requires Replaces(At(Object(sources[i]), path).value, f)
    requires forall j :: i < j < |sources| ==> At(Object(sources[j]), path).None?
    ensures CombinedAll(sources, f, path) == At(Object(sources[i]), path)
  {
    if i < |sources| - 1 {
      LastWins(sources[..|sources| - 1], f, path, i);
    }
  }

  /** A value that is no object, list or null replaces what sources before it hold at a path; so do those that are,
      where objects are not nested and lists not extended. */
  lemma LastValueWins(sources: seq<Fields>, shape: Shape, f: Flags, path: Path, i: nat)
    requires !f.split && AllConform(sources, shape)
    requires path != [] && (|path| == 1 || f.nested)
    requires i < |sources| && At(Object(sources[i]), path).Some?
    requires Replaces(At(Object(sources[i]), path).value, f)
    requires forall j :: i < j < |sources| ==> At(Object(sources[j]), path).None?
    ensures At(Object(MergedAll(sources, f)), path) == At(Object(sources[i]), path)
  {
    FoldAtPath(sources, shape, f, path);
    LastWins(sources, f, path, i);
  }

  /** The items of the lists at a path, in order. */
  function ItemsAt(sources: seq<Fields>, path: Path): seq<Json> {
    if sources == [] then []
    else
      var last := At(Object(sources[|sources| - 1]), path);
      ItemsAt(sources[..|sources| - 1], path) +
      (if last.Some? && last.value.Array? then last.value.items else [])
  }

  ghost predicate ListsAt(sources: seq<Fields>, path: Path) {
    forall i :: 0 <= i < |sources| ==>
      var v := At(Object(sources[i]), path);
      v.Some? ==> v.value.Array? || v.value.Null?
  }

  ghost predicate SomeListAt(sources: seq<Fields>, path: Path) {
    exists i :: 0 <= i < |sources| && At(Object(sources[i]), path).Some? && At(Object(sources[i]), path).value.Array?
  }

  lemma ListsBefore(sources: seq<Fields>, path: Path)
    requires sources != [] && ListsAt(sources, path)
    ensures var init, last := sources[..|sources| - 1], At(Object(sources[|sources| - 1]), path);
            && ListsAt(init, path) && (last.Some? ==> last.value.Array? || last.value.Null?)
            && (SomeListAt(sources, path) <==> SomeListAt(init, path) || (last.Some? && last.value.Array?))
  {
    var init := sources[..|sources| - 1];
    forall i | 0 <= i < |init|
      ensures var v := At(Object(init[i]), path);
              v.Some? ==> v.value.Array? || v.value.Null?
    {
      assert init[i] == sources[i];
    }
    if i :| 0 <= i < |init| && At(Object(init[i]), path).Some? && At(Object(init[i]), path).value.Array? {
      assert init[i] == sources[i];
    }
    if i :| 0 <= i < |sources| - 1 && At(Object(sources[i]), path).Some? && At(Object(sources[i]), path).value.Array? {
      assert init[i] == sources[i];
    }
  }

  lemma {:induction false} ListsCombine(sources: seq<Fields>, f: Flags, path: Path)
    requires f.extend && ListsAt(sources, path)
    ensures SomeListAt(sources, path) ==> CombinedAll(sources, f, path) == Some(Array(ItemsAt(sources, path)))
    ensures !SomeListAt(sources, path) ==>
              ItemsAt(sources, path) == [] && CombinedAll(sources, f, path) in {None, Some(Null)}
  {
    if sources != [] {
      var init, last := sources[..|sources| - 1], At(Object(sources[|sources| - 1]), path);
      ListsBefore(sources, path);
      ListsCombine(init, f, path);
      assert ItemsAt(init, path) + [] == ItemsAt(init, path);
      if last.Some? && last.value.Array? {
        assert [] + last.value.items == last.value.items;
      }
    }
  }

  /** Lists are extended: the merged list holds the items of all sources' lists, in order. */
  lemma ListsAreJoined(sources: seq<Fields>, shape: Shape, f: Flags, path: Path)
    requires !f.split && f.extend && AllConform(sources, shape)
    requires path != [] && (|path| == 1 || f.nested)
    requires ListsAt(sources, path) && SomeListAt(sources, path)
    ensures At(Object(MergedAll(sources, f)), path) == Some(Array(ItemsAt(sources, path)))
  {
    FoldAtPath(sources, shape, f, path);
    ListsCombine(sources, f, path);
  }

  /** A null changes nothing of an object where objects nest, nor of a list where lists are extended. */
  lemma NullIsPassedOver(sources: seq<Fields>, last: Fields, shape: Shape, f: Flags, path: Path)
    requires !f.split && AllConform(sources + [last], shape)
    requires path != [] && (|path| == 1 || f.nested)
    requires At(Object(last), path) == Some(Null)
    requires var v := At(Object(MergedAll(sources, f)), path);
             v.Some? && ((f.nested && v.value.Object?) || (f.extend && v.value.Array?))
    ensures At(Object(MergedAll(sources + [last], f)), path) == At(Object(MergedAll(sources, f)), path)
  {
    var all := sources + [last];
    assert all[..|all| - 1] == sources && all[|sources|] == last;
    assert forall i :: 0 <= i < |sources| ==> all[i] == sources[i];
    FoldAtPath(all, shape, f, path);
    FoldAtPath(sources, shape, f, path);
  }

  // ----------------------------------------------------- lists from environment values

  function Commas(entries: seq<string>): string
    requires entries != []
  {
    if |entries| == 1 then entries[0] else Commas(entries[..|entries| - 1]) + ", " + entries[|entries| - 1]
  }

  function Strings(entries: seq<string>): seq<Json> {
    seq(|entries|, i requires 0 <= i < |entries| => String(entries[i]))
  }

  lemma {:induction false} ListEntriesSplit(a: seq<string>, b: seq<string>)
    ensures ListEntries(a + b) == ListEntries(a) + ListEntries(b)
  {
    if b == [] {
      assert a + b == a;
    } else {
      var last := |b| - 1;
      ListEntriesSplit(a, b[..last]);
      assert (a + b)[..|a + b| - 1] == a + b[..last];
    }
  }

  lemma OneListEntry(part: string, entry: string)
    requires Trim(part) == entry && entry != "" && ',' !in part
    ensures ListEntries(Split(part, ',')) == [String(entry)]
  {
    SplitWithout(part, ',');
    assert [part][..0] == [] && ListEntries([]) == [];
  }

  lemma NextListEntry(init: seq<string>, last: string)
    requires init != [] && last != "" && Trimmed(last) && ',' !in last
    ensures ListEntries(Split(Commas(init + [last]), ',')) == ListEntries(Split(Commas(init), ',')) + [String(last)]
  {
    var all, part := init + [last], " " + last;
    assert all[..|all| - 1] == init;
    assert Commas(all) == Commas(init) + [','] + part;
    SplitAt(Commas(init), part, ',');
    ListEntriesSplit(Split(Commas(init), ','), Split(part, ','));
    assert part[1..] == last;
    TrimmedStays(last);
    OneListEntry(part, last);
  }

  lemma {:induction false} CommasAreSplit(entries: seq<string>)
    requires entries != []
    requires forall i :: 0 <= i < |entries| ==> entries[i] != "" && Trimmed(entries[i]) && ',' !in entries[i]
    ensures ListEntries(Split(Commas(entries), ',')) == Strings(entries)
  {
    var init, last := entries[..|entries| - 1], entries[|entries| - 1];
    assert entries == init + [last];
    if init == [] {
      TrimmedStays(last);
      OneListEntry(last, last);
      assert Strings(entries) == [String(last)];
    } else {
      CommasAreSplit(init);
      NextListEntry(init, last);
      assert Strings(entries) == Strings(init) + [String(last)];
    }
  }

  /** A string that lists entries is split, and extends a list by them. */
  lemma SplitListIsAppended(items: seq<Json>, entries: seq<string>, f: Flags)
    requires f.extend && f.split && entries != []
    requires forall i :: 0 <= i < |entries| ==> entries[i] != "" && Trimmed(entries[i]) && ',' !in entries[i]
    ensures MergedValue(Array(items), String(Commas(entries)), f) == Array(items + Strings(entries))
  {
    CommasAreSplit(entries);
  }
}
