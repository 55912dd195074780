/** The two merges of configuration objects: the strict one, which fails on values of different
    types, and the one the loader merges its sources with, which never fails. */
module Merge {
  import opened Wrappers
  import opened Json
  import opened Text

  datatype Flags = Flags(nested: bool, extend: bool, split: bool)

  // -------------------------------------------------------------- the lenient merge

  /** The entries of a comma separated list. */
  function ListEntries(parts: seq<string>): seq<Json> {
    if parts == [] then []
    else
      var entry := Trim(parts[|parts| - 1]);
      ListEntries(parts[..|parts| - 1]) + (if entry == "" then [] else [String(entry)])
  }

  function MergedValue(curr: Json, value: Json, f: Flags): Json
    decreases value, 1
  {
    match (curr, value)
    case (Object(t), Object(s)) => if f.nested then Object(Merged(t, s, f)) else value
    case (Object(_), Null) => if f.nested then curr else value
    case (Array(t), Array(s)) => if f.extend then Array(t + s) else value
    case (Array(_), Null) => if f.extend then curr else value
    case (Array(t), String(list)) =>
      if f.extend && f.split then Array(t + ListEntries(Split(list, ','))) else value
    case _ => value
  }

  function Merged(target: Fields, source: Fields, f: Flags): Fields
    decreases Object(source), 0
  {
    map k | k in target.Keys + source.Keys ::
      if k !in source then target[k]
      else if k !in target then source[k]
      else MergedValue(target[k], source[k], f)
  }

  /** The target once the keys `done` of the source were merged in. */
  function PartlyMerged(target: Fields, source: Fields, done: set<string>, f: Flags): Fields
    requires done <= source.Keys
  {
    map k | k in target.Keys + done ::
      if k !in done then target[k]
      else if k !in target then source[k]
      else MergedValue(target[k], source[k], f)
  }

  lemma OneMoreMerged(target: Fields, source: Fields, done: set<string>, key: string, v: Json, f: Flags)
    requires done <= source.Keys && key in source && key !in done
    requires v == if key in target then MergedValue(target[key], source[key], f) else source[key]
    ensures PartlyMerged(target, source, done, f)[key := v] == PartlyMerged(target, source, done + {key}, f)
  {
  }

  /** `merge_source`: the keys of the source merged into the target one by one. */
  method MergeSource(target: Fields, source: Fields, f: Flags) returns (merged: Fields)
    ensures merged == Merged(target, source, f)
    decreases Object(source), 0
  {
    merged := target;
    var left := source.Keys;
    while left != {}
      invariant left <= source.Keys
      invariant merged == PartlyMerged(target, source, source.Keys - left, f)
      decreases left
    {
      var key :| key in left;
      var value := source[key];
      ghost var done := source.Keys - left;
      if key in merged {
        value := MergeInto(merged[key], value, f);
      }
      OneMoreMerged(target, source, done, key, value, f);
      merged := merged[key := value];
      left := left - {key};
      assert source.Keys - left == done + {key};
    }
    assert source.Keys - {} == source.Keys;
  }

  /** What the target's value becomes. */
  method MergeInto(curr: Json, value: Json, f: Flags) returns (v: Json)
    ensures v == MergedValue(curr, value, f)
    decreases value, 1
  {
    match (curr, value) {
      case (Object(t), Object(s)) =>
        if f.nested {
          var inner := MergeSource(t, s, f);
          v := Object(inner);
        } else {
          v := value;
        }
      case (Object(_), Null) => v := if f.nested then curr else value;
      case (Array(t), Array(s)) => v := if f.extend then Array(t + s) else value;
      case (Array(_), Null) => v := if f.extend then curr else value;
      case (Array(t), String(list)) =>
        if f.extend && f.split {
          v := Array(t + ListEntries(Split(list, ',')));
        } else {
          v := value;
        }
      case _ => v := value;
    }
  }

  // --------------------------------------------------------------- the strict merge

  datatype MergeError = MergeError(key: string, expected: Kind, found: Kind)

  /** Two values the strict merge cannot merge. */
  predicate Mismatch(curr: Json, value: Json, f: Flags) {
    (f.nested && curr.Object? && !value.Object?) || (f.extend && curr.Array? && !value.Array?)
  }

  /** A path both objects have, which the merge reaches, holding values it cannot merge. */
  predicate ClashAt(target: Fields, source: Fields, f: Flags, path: Path) {
    && path != [] && (|path| == 1 || f.nested)
    && var t, s := At(Object(target), path), At(Object(source), path);
       t.Some? && s.Some? && Mismatch(t.value, s.value, f)
  }

  ghost predicate Clashes(target: Fields, source: Fields, f: Flags) {
    exists path :: ClashAt(target, source, f, path)
  }

  /** The error names the key and the types of a clash there is. */
  ghost predicate ErrorOf(target: Fields, source: Fields, f: Flags, e: MergeError) {
    exists path ::
      && ClashAt(target, source, f, path) && e.key == path[|path| - 1]
      && e.expected == KindOf(At(Object(target), path).value)
      && e.found == KindOf(At(Object(source), path).value)
  }

  lemma ClashHere(target: Fields, source: Fields, f: Flags, key: string)
    requires key in target && key in source && Mismatch(target[key], source[key], f)
    ensures Clashes(target, source, f)
    ensures ErrorOf(target, source, f, MergeError(key, KindOf(target[key]), KindOf(source[key])))
  {
    assert [key][1..] == [];
    assert ClashAt(target, source, f, [key]);
  }

  lemma ClashBelow(target: Fields, source: Fields, f: Flags, key: string, e: MergeError)
    requires f.nested && key in target && key in source && target[key].Object? && source[key].Object?
    requires ErrorOf(target[key].fields, source[key].fields, f, e)
    ensures Clashes(target, source, f) && ErrorOf(target, source, f, e)
  {
    var t, s := target[key].fields, source[key].fields;
    var path :|
      && ClashAt(t, s, f, path) && e.key == path[|path| - 1]
      && e.expected == KindOf(At(Object(t), path).value)
      && e.found == KindOf(At(Object(s), path).value);
    assert ([key] + path)[1..] == path;
    assert ClashAt(target, source, f, [key] + path);
  }

  /** Keys whose values merge. */
  ghost predicate Mergeable(curr: Json, value: Json, f: Flags) {
    && !Mismatch(curr, value, f)
    && (f.nested && curr.Object? && value.Object? ==> !Clashes(curr.fields, value.fields, f))
  }

  lemma NoClash(target: Fields, source: Fields, f: Flags)
    requires forall k :: k in target && k in source ==> Mergeable(target[k], source[k], f)
    ensures !Clashes(target, source, f)
  {
    if path :| ClashAt(target, source, f, path) {
      var k, rest := path[0], path[1..];
      assert Mergeable(target[k], source[k], f);
      assert At(target[k], rest).Some? && At(source[k], rest).Some?;
      if rest != [] {
        assert ClashAt(target[k].fields, source[k].fields, f, rest);
      }
    }
  }

  /** `merge_objects` fails exactly when some path both objects have and it reaches holds an object
      against a value of another type (with `merge_nested`), or an array (with `extend_array`).
      Else it gives what the lenient merge gives. */
  method MergeObjects(target: Fields, source: Fields, f: Flags) returns (r: Result<Fields, MergeError>)
    requires !f.split
    ensures r.Err? <==> Clashes(target, source, f)
    ensures r.Err? ==> ErrorOf(target, source, f, r.error)
    ensures r.Ok? ==> r.value == Merged(target, source, f)
    decreases Object(source), 0
  {
    var merged := target;
    var left := source.Keys;
    while left != {}
      invariant left <= source.Keys
      invariant forall k :: k in target && k in source && k !in left ==> Mergeable(target[k], source[k], f)
      invariant merged == PartlyMerged(target, source, source.Keys - left, f)
      decreases left
    {
      var key :| key in left;
      var value := source[key];
      ghost var done := source.Keys - left;
      if key in merged {
        var v := MergeStrictly(target, source, key, f);
        if v.Err? {
          return Err(v.error);
        }
        value := v.value;
      }
      OneMoreMerged(target, source, done, key, value, f);
      merged := merged[key := value];
      left := left - {key};
      assert source.Keys - left == done + {key};
    }
    assert source.Keys - {} == source.Keys;
    NoClash(target, source, f);
    return Ok(merged);
  }

  /** What the value of a key both have becomes, or the error of a clash at or below it. */
  method MergeStrictly(target: Fields, source: Fields, key: string, f: Flags)
    returns (r: Result<Json, MergeError>)
    requires !f.split && key in target && key in source
    ensures r.Err? ==> Clashes(target, source, f) && ErrorOf(target, source, f, r.error)
    ensures r.Ok? ==> Mergeable(target[key], source[key], f)
                      && r.value == MergedValue(target[key], source[key], f)
    decreases source[key], 1
  {
    var curr, value := target[key], source[key];
    match curr {
      case Object(targetFields) =>
        if !f.nested {
          return Ok(value);
        } else if value.Object? {
          var inner := MergeObjects(targetFields, value.fields, f);
          if inner.Err? {
            ClashBelow(target, source, f, key, inner.error);
            return Err(inner.error);
          }
          return Ok(Object(inner.value));
        } else {
          ClashHere(target, source, f, key);
          return Err(MergeError(key, ObjectKind, KindOf(value)));
        }
      case Array(targetItems) =>
        if !f.extend {
          return Ok(value);
        } else if value.Array? {
          return Ok(Array(targetItems + value.items));
        } else {
          ClashHere(target, source, f, key);
          return Err(MergeError(key, ArrayKind, KindOf(value)));
        }
      case _ => return Ok(value);
    }
  }
}
