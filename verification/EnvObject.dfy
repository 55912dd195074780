/** Env file entries as a configuration object: dots nest. */
module EnvObject {
  import opened Wrappers
  import opened Text
  import opened Json
  import opened JsonTree
  import opened EnvFile

  const MAX_NESTED_SEGMENTS: nat := 32

  /** The path a lowercased name stands for: its segments, or the whole name as one key when a
      segment is empty or there are too many. */
  function PathOf(name: string): (path: Path)
    ensures path != []
  {
    var segments := Split(name, '.');
    if "" in segments || |segments| > MAX_NESTED_SEGMENTS then [name] else segments
  }

  function Dotted(path: Path): string {
    Join(path, '.')
  }

  /** How names are lowercased is up to `lower`. */
  function EntryPath(e: Entry, lower: string -> string): Path {
    PathOf(lower(e.name))
  }

  datatype Clashing = ValueAndObject(path: string) | CaseInsensitive

  /** The line and name of the entry that cannot go in, and of the earlier one in its way. */
  datatype Conflict = Conflict(entry: Entry, origin: Entry, clash: Clashing)

  // ------------------------------------------------------------- dotted paths

  lemma DottedPath(name: string)
    ensures Dotted(PathOf(name)) == name
  {
    JoinSplit(name, '.');
  }

  /** Keys that come from splitting a name. */
  ghost predicate Nested(q: Path) {
    q != [] && |q| <= MAX_NESTED_SEGMENTS && forall i :: 0 <= i < |q| ==> q[i] != "" && '.' !in q[i]
  }

  lemma PrefixIsNestedOrFlat(name: string, q: Path)
    requires q != [] && q <= PathOf(name)
    ensures Nested(q) ||
            (q == [name] && ("" in Split(name, '.') || |Split(name, '.')| > MAX_NESTED_SEGMENTS))
  {
    SplitPieces(name, '.');
    var segments := Split(name, '.');
    if !("" in segments || |segments| > MAX_NESTED_SEGMENTS) {
      forall i | 0 <= i < |q| ensures q[i] != "" && '.' !in q[i] {
        assert q[i] == segments[i];
        assert segments[i] in segments;
      }
    }
  }

  /** A dotted path stands for one place only: a nested one has no empty segment and not too many,
      a flat one has one or the other. */
  lemma DottedIsUnique(a: string, b: string, p: Path, q: Path)
    requires p != [] && q != [] && p <= PathOf(a) && q <= PathOf(b) && Dotted(p) == Dotted(q)
    ensures p == q
  {
    PrefixIsNestedOrFlat(a, p);
    PrefixIsNestedOrFlat(b, q);
    if Nested(p) { SplitJoin(p, '.'); }
    if Nested(q) { SplitJoin(q, '.'); }
  }

  // -------------------------------------------------------------------- leaves

  function LeavesOf(entries: seq<Entry>, lower: string -> string): Leaves {
    if entries == [] then map[]
    else
      var e := entries[|entries| - 1];
      LeavesOf(entries[..|entries| - 1], lower)[EntryPath(e, lower) := e.value]
  }

  /** The path was set, or nested under, by one of the entries. */
  ghost predicate Reached(entries: seq<Entry>, lower: string -> string, q: Path) {
    exists j :: 0 <= j < |entries| && q <= EntryPath(entries[j], lower)
  }

  ghost predicate Entered(entries: seq<Entry>, lower: string -> string, p: Path) {
    exists j :: 0 <= j < |entries| && EntryPath(entries[j], lower) == p
  }

  lemma EnteredMore(init: seq<Entry>, e: Entry, lower: string -> string, p: Path)
    ensures Entered(init + [e], lower, p) <==> Entered(init, lower, p) || EntryPath(e, lower) == p
  {
    var entries := init + [e];
    if Entered(init, lower, p) {
      var j :| 0 <= j < |init| && EntryPath(init[j], lower) == p;
      assert EntryPath(entries[j], lower) == p;
    }
    if EntryPath(e, lower) == p {
      assert EntryPath(entries[|init|], lower) == p;
    }
    if Entered(entries, lower, p) && EntryPath(e, lower) != p {
      var j :| 0 <= j < |entries| && EntryPath(entries[j], lower) == p;
      assert EntryPath(init[j], lower) == p;
    }
  }

  lemma {:induction false} LeafIsEntry(entries: seq<Entry>, lower: string -> string, p: Path)
    ensures p in LeavesOf(entries, lower) <==> Entered(entries, lower, p)
  {
    if entries != [] {
      var init, e := entries[..|entries| - 1], entries[|entries| - 1];
      LeafIsEntry(init, lower, p);
      EnteredMore(init, e, lower, p);
      assert entries == init + [e];
    }
  }

  /** Something is at a path of the object exactly if an entry reached it. */
  lemma ThereIfReached(o: Fields, entries: seq<Entry>, lower: string -> string, q: Path)
    requires q != [] && Holds(o, LeavesOf(entries, lower))
    ensures At(Object(o), q).Some? <==> Reached(entries, lower, q)
  {
    var leaves := LeavesOf(entries, lower);
    assert Shows(At(Object(o), q), leaves, q);
    if Reached(entries, lower, q) {
      var j :| 0 <= j < |entries| && q <= EntryPath(entries[j], lower);
      LeafIsEntry(entries, lower, EntryPath(entries[j], lower));
    }
    if q in leaves || Inside(leaves, q) {
      var p :| p in leaves && q <= p;
      LeafIsEntry(entries, lower, p);
    }
  }

  ghost predicate NoClashes(entries: seq<Entry>, lower: string -> string) {
    forall i, j :: 0 <= i < j < |entries| ==>
      !Clash(EntryPath(entries[i], lower), EntryPath(entries[j], lower))
  }

  /** The earlier entry that first reached the path. */
  ghost predicate FirstTo(entries: seq<Entry>, lower: string -> string, q: Path, origin: Entry) {
    exists j ::
      && 0 <= j < |entries| && entries[j] == origin && q <= EntryPath(origin, lower)
      && forall i :: 0 <= i < j ==> !(q <= EntryPath(entries[i], lower))
  }

  /** For every path the entries reached, `origins` names the one that reached it first. */
  ghost predicate Named(origins: map<string, Entry>, entries: seq<Entry>, lower: string -> string) {
    forall q: Path {:trigger Dotted(q)} :: q != [] && Reached(entries, lower, q) ==>
      Dotted(q) in origins && FirstTo(entries, lower, q, origins[Dotted(q)])
  }

  lemma FirstStays(entries: seq<Entry>, e: Entry, lower: string -> string, q: Path, origin: Entry)
    requires FirstTo(entries, lower, q, origin)
    ensures FirstTo(entries + [e], lower, q, origin)
  {
    var j :| && 0 <= j < |entries| && entries[j] == origin && q <= EntryPath(origin, lower)
             && forall i :: 0 <= i < j ==> !(q <= EntryPath(entries[i], lower));
    assert (entries + [e])[j] == origin;
  }

  lemma FirstNow(entries: seq<Entry>, e: Entry, lower: string -> string, q: Path)
    requires !Reached(entries, lower, q) && q <= EntryPath(e, lower)
    ensures FirstTo(entries + [e], lower, q, e)
  {
    assert (entries + [e])[|entries|] == e;
  }

  /** The conflict names two entries whose paths clash, the earlier the first to reach the place
      both claim, and says whether both spell one path. */
  ghost predicate Justified(before: seq<Entry>, e: Entry, lower: string -> string, c: Conflict) {
    && c.entry == e
    && exists q: Path :: q != [] && FirstTo(before, lower, q, c.origin) && Claims(e, lower, c, q)
  }

  ghost predicate Claims(e: Entry, lower: string -> string, c: Conflict, q: Path) {
    var p, path := EntryPath(c.origin, lower), EntryPath(e, lower);
    && q <= path && q <= p && Clash(p, path)
    && match c.clash
       case CaseInsensitive => p == path
       case ValueAndObject(place) => p != path && place == Dotted(q)
  }

  ghost predicate Fits(before: seq<Entry>, e: Entry, lower: string -> string) {
    forall j :: 0 <= j < |before| ==> !Clash(EntryPath(before[j], lower), EntryPath(e, lower))
  }

  lemma FitsIsFree(before: seq<Entry>, e: Entry, lower: string -> string)
    ensures Fits(before, e, lower) <==> Free(LeavesOf(before, lower), EntryPath(e, lower))
  {
    var leaves := LeavesOf(before, lower);
    if Fits(before, e, lower) {
      forall p | p in leaves ensures !Clash(p, EntryPath(e, lower)) {
        LeafIsEntry(before, lower, p);
      }
    } else {
      var j :| 0 <= j < |before| && Clash(EntryPath(before[j], lower), EntryPath(e, lower));
      LeafIsEntry(before, lower, EntryPath(before[j], lower));
    }
  }

  /** The entry that first reached a leaf is the one that set it. */
  lemma FirstToLeaf(before: seq<Entry>, lower: string -> string, q: Path, origin: Entry)
    requires NoClashes(before, lower) && q in LeavesOf(before, lower) && FirstTo(before, lower, q, origin)
    ensures EntryPath(origin, lower) == q
  {
    LeafIsEntry(before, lower, q);
    var i :| 0 <= i < |before| && EntryPath(before[i], lower) == q;
    var j :| 0 <= j < |before| && before[j] == origin && q <= EntryPath(origin, lower);
    assert Clash(EntryPath(before[i], lower), EntryPath(before[j], lower));
    assert Clash(EntryPath(before[j], lower), EntryPath(before[i], lower));
  }

  /** A place that is taken: what `origins` says of it justifies the conflict. */
  lemma TakenIsJustified(o: Fields, origins: map<string, Entry>, before: seq<Entry>, e: Entry,
                         lower: string -> string, q: Path)
    requires NoClashes(before, lower) && Holds(o, LeavesOf(before, lower)) && Named(origins, before, lower)
    requires q != [] && q <= EntryPath(e, lower) && At(Object(o), q).Some?
    requires q == EntryPath(e, lower) || !At(Object(o), q).value.Object?
    ensures Dotted(q) in origins
    ensures var both := q != EntryPath(e, lower) || At(Object(o), q).value.Object?;
            Justified(before, e, lower,
                      Conflict(e, origins[Dotted(q)], if both then ValueAndObject(Dotted(q)) else CaseInsensitive))
  {
    ThereIfReached(o, before, lower, q);
    var leaves := LeavesOf(before, lower);
    assert Shows(At(Object(o), q), leaves, q);
    var origin := origins[Dotted(q)];
    assert FirstTo(before, lower, q, origin);
    if q in leaves {
      FirstToLeaf(before, lower, q, origin);
    } else if EntryPath(origin, lower) == q {
      assert Entered(before, lower, q);
      LeafIsEntry(before, lower, q);
    }
    var both := q != EntryPath(e, lower) || At(Object(o), q).value.Object?;
    assert Claims(e, lower,
                  Conflict(e, origin, if both then ValueAndObject(Dotted(q)) else CaseInsensitive), q);
  }

  lemma JustifiedClashes(before: seq<Entry>, e: Entry, lower: string -> string, c: Conflict)
    requires Justified(before, e, lower, c)
    ensures !Fits(before, e, lower)
  {
    var q: Path :| q != [] && FirstTo(before, lower, q, c.origin) && Claims(e, lower, c, q);
    var j :| 0 <= j < |before| && before[j] == c.origin;
    assert Clash(EntryPath(before[j], lower), EntryPath(e, lower));
  }

  // ---------------------------------------------------------- walking to a place

  /** What the walk keeps of the object `o0` it began with, having come down `depth` keys: the keys
      so far hold objects and held no value, those below hold what they did, and setting the value
      is the same as from the start. */
  ghost predicate Walked(o0: Fields, o: Fields, path: Path, value: string, depth: nat)
    requires depth < |path|
  {
    && Put(o, path, String(value)) == Put(o0, path, String(value))
    && (forall n :: 0 < n <= depth ==> IsObject(At(Object(o), path[..n])))
    && (forall n :: 0 < n <= depth ==>
          At(Object(o0), path[..n]).None? || IsObject(At(Object(o0), path[..n])))
    && (forall n :: depth < n <= |path| ==> At(Object(o), path[..n]) == At(Object(o0), path[..n]))
  }

  ghost predicate IsObject(x: Option<Json>) {
    x.Some? && x.value.Object?
  }

  lemma {:induction false} NothingBelow(v: Json, p: Path, q: Path)
    requires At(v, p).None? && p <= q
    ensures At(v, q).None?
    decreases |p|
  {
    if v.Object? && p[0] in v.fields {
      PrefixTail(p, q);
      NothingBelow(v.fields[p[0]], p[1..], q[1..]);
    }
  }

  /** Another key down an object that is there. */
  lemma WalkOn(o0: Fields, o: Fields, path: Path, value: string, depth: nat)
    requires depth + 1 < |path| && Walked(o0, o, path, value, depth)
    requires IsObject(At(Object(o), path[..depth + 1]))
    ensures Walked(o0, o, path, value, depth + 1)
  {
  }

  /** Another key down a new object. */
  lemma WalkNew(o0: Fields, o: Fields, path: Path, value: string, depth: nat)
    requires depth + 1 < |path| && Walked(o0, o, path, value, depth)
    requires At(Object(o), path[..depth + 1]).None?
    ensures Walked(o0, Put(o, path[..depth + 1], Object(map[])), path, value, depth + 1)
  {
    var here := path[..depth + 1];
    var o1 := Put(o, here, Object(map[]));
    PutTwice(o, path, depth + 1, String(value));
    assert Open(o, here) by {
      forall n | 0 < n < |here| ensures var x := At(Object(o), here[..n]); x.None? || x.value.Object? {
        assert here[..n] == path[..n];
      }
    }
    forall n | 0 < n <= |path|
      ensures n <= depth + 1 ==> IsObject(At(Object(o1), path[..n]))
      ensures depth + 1 < n ==> At(Object(o1), path[..n]) == At(Object(o0), path[..n])
    {
      PutAt(o, here, Object(map[]), path[..n]);
      if n <= depth + 1 {
        assert path[..n] <= here;
        if n == depth + 1 { assert path[..n][|here|..] == []; }
      } else {
        assert here <= path[..n];
        NothingBelow(Object(o), here, path[..n]);
      }
    }
  }

  /** `origins` after the walk came down `depth` keys. */
  ghost predicate NamedTo(origins0: map<string, Entry>, origins: map<string, Entry>, before: seq<Entry>,
                          e: Entry, lower: string -> string, depth: nat)
    requires depth <= |EntryPath(e, lower)|
  {
    && (forall q: Path {:trigger Dotted(q)} :: q != [] && Reached(before, lower, q) ==>
          Dotted(q) in origins && Dotted(q) in origins0 && origins[Dotted(q)] == origins0[Dotted(q)])
    && (forall n :: 0 < n <= depth && !Reached(before, lower, EntryPath(e, lower)[..n]) ==>
          var key := Dotted(EntryPath(e, lower)[..n]); key in origins && origins[key] == e)
  }

  /** Naming the entry for a path nothing reached yet leaves the other names. */
  lemma NameNew(origins0: map<string, Entry>, origins: map<string, Entry>, before: seq<Entry>,
                e: Entry, lower: string -> string, depth: nat)
    requires depth < |EntryPath(e, lower)|
    requires NamedTo(origins0, origins, before, e, lower, depth)
    requires !Reached(before, lower, EntryPath(e, lower)[..depth + 1])
    ensures NamedTo(origins0, origins[Dotted(EntryPath(e, lower)[..depth + 1]) := e], before, e, lower, depth + 1)
  {
    var here := EntryPath(e, lower)[..depth + 1];
    var named := origins[Dotted(here) := e];
    forall q: Path | q != [] && Reached(before, lower, q)
      ensures Dotted(q) in named && Dotted(q) in origins0 && named[Dotted(q)] == origins0[Dotted(q)]
    {
      assert Dotted(q) in origins;
      if Dotted(q) == Dotted(here) {
        var j :| 0 <= j < |before| && q <= EntryPath(before[j], lower);
        DottedIsUnique(lower(before[j].name), lower(e.name), q, here);
      }
    }
  }

  lemma AllNamed(origins0: map<string, Entry>, origins: map<string, Entry>, before: seq<Entry>,
                 e: Entry, lower: string -> string)
    requires Named(origins0, before, lower)
    requires NamedTo(origins0, origins, before, e, lower, |EntryPath(e, lower)|)
    ensures Named(origins, before + [e], lower)
  {
    var path := EntryPath(e, lower);
    forall q: Path | q != [] && Reached(before + [e], lower, q)
      ensures Dotted(q) in origins && FirstTo(before + [e], lower, q, origins[Dotted(q)])
    {
      if Reached(before, lower, q) {
        FirstStays(before, e, lower, q, origins0[Dotted(q)]);
      } else {
        var j :| 0 <= j < |before + [e]| && q <= EntryPath((before + [e])[j], lower);
        assert q == path[..|q|];
        FirstNow(before, e, lower, q);
      }
    }
  }

  // ---------------------------------------------------------------- the builder

  /** Down to the object that is to hold the entry's value, with new objects where there are
      none. */
  method Walk(o0: Fields, origins0: map<string, Entry>, ghost before: seq<Entry>, e: Entry,
              segments: Path, lower: string -> string)
    returns (r: Result<(Fields, map<string, Entry>), Conflict>)
    requires NoClashes(before, lower) && Holds(o0, LeavesOf(before, lower))
    requires Named(origins0, before, lower) && segments == EntryPath(e, lower)
    ensures r.Ok? ==> Walked(o0, r.value.0, segments, e.value, |segments| - 1)
    ensures r.Ok? ==> NamedTo(origins0, r.value.1, before, e, lower, |segments| - 1)
    ensures r.Err? ==> Justified(before, e, lower, r.error)
  {
    var o, origins := o0, origins0;
    for depth := 0 to |segments| - 1
      invariant Walked(o0, o, segments, e.value, depth)
      invariant NamedTo(origins0, origins, before, e, lower, depth)
    {
      var current := segments[..depth + 1];
      var path := Dotted(current);
      ThereIfReached(o0, before, lower, current);
      match At(Object(o), current) {
        case None =>
          WalkNew(o0, o, segments, e.value, depth);
          NameNew(origins0, origins, before, e, lower, depth);
          o := Put(o, current, Object(map[]));
          origins := origins[path := e];
        case Some(slot) =>
          if !slot.Object? {
            TakenIsJustified(o0, origins0, before, e, lower, current);
            return Err(Conflict(e, origins[path], ValueAndObject(path)));
          }
          WalkOn(o0, o, segments, e.value, depth);
      }
    }
    return Ok((o, origins));
  }

  /** What the walk found at the entry's place justifies the conflict. */
  lemma ExistingIsJustified(o0: Fields, o: Fields, origins0: map<string, Entry>, origins: map<string, Entry>,
                            before: seq<Entry>, e: Entry, lower: string -> string)
    requires NoClashes(before, lower) && Holds(o0, LeavesOf(before, lower)) && Named(origins0, before, lower)
    requires Walked(o0, o, EntryPath(e, lower), e.value, |EntryPath(e, lower)| - 1)
    requires NamedTo(origins0, origins, before, e, lower, |EntryPath(e, lower)| - 1)
    requires At(Object(o), EntryPath(e, lower)).Some?
    ensures var path := EntryPath(e, lower);
            && Dotted(path) in origins
            && Justified(before, e, lower,
                         Conflict(e, origins[Dotted(path)],
                                  if At(Object(o), path).value.Object? then ValueAndObject(Dotted(path))
                                  else CaseInsensitive))
  {
    var path := EntryPath(e, lower);
    assert path[..|path|] == path;
    assert At(Object(o), path) == At(Object(o0), path);
    ThereIfReached(o0, before, lower, path);
    TakenIsJustified(o0, origins0, before, e, lower, path);
  }

  /** Nothing was at the entry's place: it fits, and the object holds it from now on. */
  lemma InsertDone(o0: Fields, o: Fields, origins0: map<string, Entry>, origins: map<string, Entry>,
                   before: seq<Entry>, e: Entry, lower: string -> string)
    requires Holds(o0, LeavesOf(before, lower)) && Named(origins0, before, lower)
    requires Walked(o0, o, EntryPath(e, lower), e.value, |EntryPath(e, lower)| - 1)
    requires NamedTo(origins0, origins, before, e, lower, |EntryPath(e, lower)| - 1)
    requires At(Object(o), EntryPath(e, lower)).None?
    ensures Fits(before, e, lower)
    ensures Holds(Put(o, EntryPath(e, lower), String(e.value)), LeavesOf(before + [e], lower))
    ensures Named(origins[Dotted(EntryPath(e, lower)) := e], before + [e], lower)
  {
    var path := EntryPath(e, lower);
    assert path[..|path|] == path;
    assert At(Object(o), path) == At(Object(o0), path);
    ThereIfReached(o0, before, lower, path);
    SetHolds(o0, o, before, e, lower);
    NameNew(origins0, origins, before, e, lower, |path| - 1);
    AllNamed(origins0, origins[Dotted(path) := e], before, e, lower);
  }

  /** One entry: down to its place, then the value. */
  method Insert(o0: Fields, origins0: map<string, Entry>, ghost before: seq<Entry>, e: Entry,
                lower: string -> string)
    returns (r: Result<(Fields, map<string, Entry>), Conflict>)
    requires NoClashes(before, lower) && Holds(o0, LeavesOf(before, lower))
    requires Named(origins0, before, lower)
    ensures r.Ok? ==> Fits(before, e, lower)
    ensures r.Ok? ==> Holds(r.value.0, LeavesOf(before + [e], lower)) && Named(r.value.1, before + [e], lower)
    ensures r.Err? ==> Justified(before, e, lower, r.error)
  {
    var name := lower(e.name);
    var segments := PathOf(name);
    r := Walk(o0, origins0, before, e, segments, lower);
    if r.Err? {
      return;
    }
    var (o, origins) := r.value;
    DottedPath(name);
    var existing := At(Object(o), segments);
    if existing.Some? {
      ExistingIsJustified(o0, o, origins0, origins, before, e, lower);
      return Err(Conflict(e, origins[name],
                          if existing.value.Object? then ValueAndObject(name) else CaseInsensitive));
    }
    InsertDone(o0, o, origins0, origins, before, e, lower);
    return Ok((Put(o, segments, String(e.value)), origins[name := e]));
  }

  lemma SetHolds(o0: Fields, o: Fields, before: seq<Entry>, e: Entry, lower: string -> string)
    requires Holds(o0, LeavesOf(before, lower))
    requires Walked(o0, o, EntryPath(e, lower), e.value, |EntryPath(e, lower)| - 1)
    requires At(Object(o), EntryPath(e, lower)).None?
    ensures Fits(before, e, lower)
    ensures Holds(Put(o, EntryPath(e, lower), String(e.value)), LeavesOf(before + [e], lower))
  {
    var path, leaves := EntryPath(e, lower), LeavesOf(before, lower);
    forall p | p in leaves ensures !Clash(p, path) {
      LeafIsEntry(before, lower, p);
      WalkedIsFree(o0, o, leaves, path, e.value, p);
    }
    FitsIsFree(before, e, lower);
    PutHolds(o0, leaves, path, e.value);
    assert (before + [e])[..|before|] == before;
  }

  /** A place the walk came down to and found nothing at has no leaf above, at or below it. */
  lemma WalkedIsFree(o0: Fields, o: Fields, leaves: Leaves, path: Path, value: string, p: Path)
    requires path != [] && Holds(o0, leaves) && Walked(o0, o, path, value, |path| - 1)
    requires At(Object(o), path).None? && p in leaves && p != []
    ensures !Clash(p, path)
  {
    assert path[..|path|] == path;
    assert p <= path ==> p == path[..|p|];
    assert Shows(At(Object(o0), path), leaves, path);
    assert Shows(At(Object(o0), p), leaves, p);
  }

  /** `parse_env_file_object`, from the entries on: it succeeds exactly when no entry's path equals
      another's or is a proper prefix of it, and the leaves of the object are then exactly the
      entries' paths with their values. Otherwise it names the first entry that cannot go in, and
      the one that first reached the place both claim. */
  method ParseObject(entries: seq<Entry>, lower: string -> string) returns (r: Result<Fields, Conflict>)
    ensures r.Ok? <==> NoClashes(entries, lower)
    ensures r.Ok? ==> Holds(r.value, LeavesOf(entries, lower))
    ensures r.Err? ==> exists n :: 0 <= n < |entries| && NoClashes(entries[..n], lower) &&
                                   Justified(entries[..n], entries[n], lower, r.error)
  {
    var built: Fields := map[];
    var origins: map<string, Entry> := map[];
    EmptyHolds();
    for n := 0 to |entries|
      invariant NoClashes(entries[..n], lower)
      invariant Holds(built, LeavesOf(entries[..n], lower))
      invariant Named(origins, entries[..n], lower)
    {
      var inserted := Insert(built, origins, entries[..n], entries[n], lower);
      assert entries[..n + 1] == entries[..n] + [entries[n]];
      OneMore(entries, lower, n);
      match inserted {
        case Err(conflict) =>
          JustifiedClashes(entries[..n], entries[n], lower, conflict);
          return Err(conflict);
        case Ok(pair) => built, origins := pair.0, pair.1;
      }
    }
    assert entries[..|entries|] == entries;
    return Ok(built);
  }

  datatype ObjectError = InFile(error: EnvFileError) | Between(conflict: Conflict)

  /** `parse_env_file_object`, from the text on. */
  method ParseEnvFileObject(content: string, lower: string -> string) returns (r: Result<Fields, ObjectError>)
    ensures match EntriesOf(Lines(content))
            case Err(e) => r == Err(InFile(e))
            case Ok(entries) =>
              && (r.Ok? <==> NoClashes(entries, lower))
              && (r.Ok? ==> Holds(r.value, LeavesOf(entries, lower)))
              && (r.Err? ==>
                    r.error.Between? && exists n :: 0 <= n < |entries| && NoClashes(entries[..n], lower) &&
                                                    Justified(entries[..n], entries[n], lower, r.error.conflict))
  {
    var entries := ParseEntries(content);
    if entries.Err? {
      return Err(InFile(entries.error));
    }
    var built := ParseObject(entries.value, lower);
    match built {
      case Err(conflict) => return Err(Between(conflict));
      case Ok(fields) => return Ok(fields);
    }
  }

  lemma EmptyHolds()
    ensures Holds(map[], map[])
  {
  }

  lemma OneMore(entries: seq<Entry>, lower: string -> string, n: nat)
    requires n < |entries| && NoClashes(entries[..n], lower)
    ensures Fits(entries[..n], entries[n], lower) <==> NoClashes(entries[..n + 1], lower)
    ensures !Fits(entries[..n], entries[n], lower) ==> !NoClashes(entries, lower)
  {
    var init, more := entries[..n], entries[..n + 1];
    assert forall i :: 0 <= i < n ==> init[i] == more[i] == entries[i];
    if !Fits(init, entries[n], lower) {
      var j :| 0 <= j < n && Clash(EntryPath(init[j], lower), EntryPath(entries[n], lower));
      assert Clash(EntryPath(more[j], lower), EntryPath(more[n], lower));
      assert Clash(EntryPath(entries[j], lower), EntryPath(entries[n], lower));
    }
  }

  // ----------------------------------------------------------- what comes of it

  /** No leaf is deeper than the nesting limit. */
  lemma DepthIsBounded(entries: seq<Entry>, lower: string -> string, p: Path)
    requires p in LeavesOf(entries, lower)
    ensures 1 <= |p| <= MAX_NESTED_SEGMENTS
  {
    LeafIsEntry(entries, lower, p);
    var j :| 0 <= j < |entries| && EntryPath(entries[j], lower) == p;
    PrefixIsNestedOrFlat(lower(entries[j].name), p);
  }

  datatype Item = Item(path: Path, value: string)

  /** What an entry comes down to, its line aside. */
  function ItemsOf(entries: seq<Entry>, lower: string -> string): (items: seq<Item>)
    ensures |items| == |entries|
    ensures forall i :: 0 <= i < |entries| ==> items[i] == Item(EntryPath(entries[i], lower), entries[i].value)
  {
    if entries == [] then []
    else
      var e := entries[|entries| - 1];
      ItemsOf(entries[..|entries| - 1], lower) + [Item(EntryPath(e, lower), e.value)]
  }

  /** The same, with no order to it. */
  ghost predicate Apart(items: multiset<Item>) {
    && (forall x :: x in items ==> items[x] == 1)
    && (forall x, y :: x in items && y in items && x != y ==> !Clash(x.path, y.path))
  }

  ghost predicate ApartInOrder(items: seq<Item>) {
    forall i, j :: 0 <= i < j < |items| ==> !Clash(items[i].path, items[j].path)
  }

  lemma TwiceInOrder(items: seq<Item>, i: nat, j: nat)
    requires i < j < |items| && items[i] == items[j]
    ensures multiset(items)[items[i]] >= 2
  {
    assert items == items[..j] + items[j..];
    assert items[i] in items[..j] && items[j] in items[j..];
  }

  lemma OnceInOrder(items: seq<Item>, x: Item)
    requires ApartInOrder(items) && x in items
    ensures multiset(items)[x] == 1
  {
    var i :| 0 <= i < |items| && items[i] == x;
    var before, after := items[..i], items[i + 1..];
    assert items == before + [x] + after;
    assert x !in before && x !in after;
  }

  lemma ApartEitherWay(items: seq<Item>)
    ensures Apart(multiset(items)) <==> ApartInOrder(items)
  {
    if Apart(multiset(items)) {
      forall i, j | 0 <= i < j < |items| ensures !Clash(items[i].path, items[j].path) {
        assert items[i] in multiset(items) && items[j] in multiset(items);
        if items[i] == items[j] { TwiceInOrder(items, i, j); }
      }
    }
    if ApartInOrder(items) {
      forall x | x in multiset(items) ensures multiset(items)[x] == 1 { OnceInOrder(items, x); }
      forall x, y | x in multiset(items) && y in multiset(items) && x != y ensures !Clash(x.path, y.path) {
        assert x in items && y in items;
        var i :| 0 <= i < |items| && items[i] == x;
        var j :| 0 <= j < |items| && items[j] == y;
        assert i < j || j < i;
      }
    }
  }

  lemma {:induction false} LeafOf(entries: seq<Entry>, lower: string -> string, p: Path)
    requires NoClashes(entries, lower)
    ensures p in LeavesOf(entries, lower) <==>
            exists v :: Item(p, v) in ItemsOf(entries, lower)
    ensures p in LeavesOf(entries, lower) ==> Item(p, LeavesOf(entries, lower)[p]) in ItemsOf(entries, lower)
  {
    if entries != [] {
      var last := |entries| - 1;
      var init, items := entries[..last], ItemsOf(entries, lower);
      assert items[..last] == ItemsOf(init, lower);
      assert items == items[..last] + [items[last]];
      LeafOf(init, lower, p);
    }
  }

  lemma SameLeaf(a: seq<Entry>, b: seq<Entry>, lower: string -> string, p: Path)
    requires multiset(ItemsOf(a, lower)) == multiset(ItemsOf(b, lower))
    requires NoClashes(a, lower) && NoClashes(b, lower)
    ensures p in LeavesOf(a, lower) <==> p in LeavesOf(b, lower)
    ensures p in LeavesOf(a, lower) ==> LeavesOf(a, lower)[p] == LeavesOf(b, lower)[p]
  {
    LeafOf(a, lower, p);
    LeafOf(b, lower, p);
    var items, items' := ItemsOf(a, lower), ItemsOf(b, lower);
    forall v ensures Item(p, v) in items <==> Item(p, v) in items' {
      assert Item(p, v) in multiset(items) <==> Item(p, v) in multiset(items');
    }
    if p in LeavesOf(a, lower) {
      var v, v' := LeavesOf(a, lower)[p], LeavesOf(b, lower)[p];
      ApartEitherWay(items);
      assert ApartInOrder(items);
      assert Item(p, v) in multiset(items) && Item(p, v') in multiset(items);
      assert Clash(p, p);
    }
  }

  lemma ApartIsNoClashes(entries: seq<Entry>, lower: string -> string)
    ensures NoClashes(entries, lower) <==> Apart(multiset(ItemsOf(entries, lower)))
  {
    var items := ItemsOf(entries, lower);
    ApartEitherWay(items);
    if NoClashes(entries, lower) {
      forall i, j | 0 <= i < j < |items| ensures !Clash(items[i].path, items[j].path) {
        assert !Clash(EntryPath(entries[i], lower), EntryPath(entries[j], lower));
      }
    }
    if ApartInOrder(items) {
      forall i, j | 0 <= i < j < |entries|
        ensures !Clash(EntryPath(entries[i], lower), EntryPath(entries[j], lower))
      {
        assert !Clash(items[i].path, items[j].path);
      }
    }
  }

  lemma SameLeaves(a: seq<Entry>, b: seq<Entry>, lower: string -> string)
    requires multiset(ItemsOf(a, lower)) == multiset(ItemsOf(b, lower))
    requires NoClashes(a, lower) && NoClashes(b, lower)
    ensures LeavesOf(a, lower) == LeavesOf(b, lower)
  {
    forall p: Path
      ensures p in LeavesOf(a, lower) <==> p in LeavesOf(b, lower)
      ensures p in LeavesOf(a, lower) ==> LeavesOf(a, lower)[p] == LeavesOf(b, lower)[p]
    {
      SameLeaf(a, b, lower, p);
    }
  }

  /** Entries with the same names and values in another order are refused alike, and give the same
      object. */
  lemma OrderDoesNotMatter(a: seq<Entry>, b: seq<Entry>, lower: string -> string, x: Fields, y: Fields)
    requires multiset(ItemsOf(a, lower)) == multiset(ItemsOf(b, lower))
    ensures NoClashes(a, lower) <==> NoClashes(b, lower)
    ensures NoClashes(a, lower) && Holds(x, LeavesOf(a, lower)) && Holds(y, LeavesOf(b, lower)) ==> x == y
  {
    ApartIsNoClashes(a, lower);
    ApartIsNoClashes(b, lower);
    if NoClashes(a, lower) && Holds(x, LeavesOf(a, lower)) && Holds(y, LeavesOf(b, lower)) {
      SameLeaves(a, b, lower);
      HoldsUniquely(x, y, LeavesOf(a, lower));
    }
  }

  // ------------------------------------------------------------- which path it is

  /** Keys a dotted name can nest. */
  ghost predicate Nests(q: Path) {
    1 <= |q| <= 32 && forall i :: 0 <= i < |q| ==> q[i] != "" && '.' !in q[i]
  }

  /** An entry goes to the keys whose dotted form is its name in lower case, or to that name as one key when it is
      not the dotted form of such keys. */
  lemma EntryPathExactly(e: Entry, lower: string -> string, p: Path)
    ensures EntryPath(e, lower) == p <==>
            var name := lower(e.name);
            || (Nests(p) && Join(p, '.') == name)
            || (p == [name] && forall q :: Nests(q) ==> Join(q, '.') != name)
  {
    var name := lower(e.name);
    var segments := Split(name, '.');
    JoinSplit(name, '.');
    SplitPieces(name, '.');
    forall q | Nests(q) && Join(q, '.') == name ensures q == segments && EntryPath(e, lower) == q {
      SplitJoin(q, '.');
    }
    if !("" in segments || |segments| > 32) {
      forall i | 0 <= i < |segments| ensures segments[i] != "" { assert segments[i] in segments; }
      assert Nests(segments);
    }
  }
}
