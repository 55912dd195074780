/** Making the directories a file is written to, so that they last. */
module ParentDirs {
  import opened Wrappers
  import opened FileSystem

  /** The directories below the first `lo`, down to `hi`. */
  function Levels(lo: nat, hi: nat): (r: set<nat>)
    ensures forall k: nat :: k in r <==> lo < k <= hi
  {
    if hi <= lo then {} else Levels(lo, hi - 1) + {hi}
  }

  /** The last call was new, and failed so. */
  predicate FailedLast(failures: seq<Failure>, before: seq<Failure>, call: Call, kind: ErrorKind) {
    |failures| > |before| && failures[|failures| - 1] == Failure(call, kind)
  }

  /** The directories down a path, the first `made` of which are there. Those in `unsynced` are new, and
      their entries not sure to be on disk. */
  class ParentDirs {
    var made: nat
    ghost var unsynced: set<nat>
    ghost var failures: seq<Failure>

    constructor (made: nat)
      ensures this.made == made && unsynced == {} && failures == []
    {
      this.made, unsynced, failures := made, {}, [];
    }

    method TryRead(call: Call) returns (failed: Option<ErrorKind>)
      modifies `failures
      ensures failures == old(failures) + if failed.Some? then [Failure(call, failed.value)] else []
    {
      failed := *;
      if failed.Some? {
        failures := failures + [Failure(call, failed.value)];
      }
    }

    /** Whether the directory is found not to be there. */
    method IsMissing(dir: nat) returns (missing: bool)
      modifies `failures
      ensures missing ==> dir > made
      ensures failures == old(failures) ==> missing == (dir > made)
      ensures old(failures) <= failures
    {
      var failed := TryRead(Stat);
      missing := failed.None? && dir > made;
    }

    /** Makes each directory that is not there, from the top. */
    method MakeAll(depth: nat) returns (failed: Option<ErrorKind>)
      modifies this
      ensures old(failures) <= failures && made >= old(made)
      ensures unsynced == old(unsynced) + Levels(old(made), made)
      ensures failed.None? ==> made >= depth && made <= (if depth > old(made) then depth else old(made))
      ensures failed.Some? ==> FailedLast(failures, old(failures), CreateNew, failed.value)
    {
      failed := None;
      while made < depth
        invariant old(made) <= made && (made <= depth || made == old(made)) && old(failures) <= failures
        invariant failed.None?
        invariant unsynced == old(unsynced) + Levels(old(made), made)
      {
        failed := TryRead(CreateNew);
        if failed.Some? { return; }
        made := made + 1;
        unsynced := unsynced + {made};
      }
    }

    /** Syncs the directory that holds `dir`, where it can be. */
    method SyncHolder(dir: nat) returns (failed: Option<ErrorKind>)
      modifies `unsynced, `failures
      ensures old(failures) <= failures
      ensures unsynced == if failures == old(failures) then old(unsynced) - {dir} else old(unsynced)
      ensures failures == old(failures) ==> failed.None?
      ensures failed.Some? ==> FailedLast(failures, old(failures), SyncDirectory, failed.value)
      ensures failed.Some? ==> failed.value !in {InvalidInput, Unsupported, PermissionDenied}
    {
      failed := TryRead(SyncDirectory);
      if failed.None? {
        unsynced := unsynced - {dir};
      } else if failed.value in {InvalidInput, Unsupported, PermissionDenied} {
        failed := None;
      }
    }

    /** `create_dir_all`: unless a call failed that is passed over, all new directories last. */
    method CreateDirAll(depth: nat) returns (failed: Option<ErrorKind>)
      modifies this
      ensures old(failures) <= failures && made >= old(made)
      ensures failed.None? ==> made >= depth || failures != old(failures)
      ensures failed.None? && failures == old(failures) ==> unsynced <= old(unsynced)
      ensures old(made) >= depth ==> made == old(made) && unsynced == old(unsynced) && failed.None?
      ensures failed.Some? ==>
                || FailedLast(failures, old(failures), CreateNew, failed.value)
                || (&& FailedLast(failures, old(failures), SyncDirectory, failed.value)
                    && failed.value !in {InvalidInput, Unsupported, PermissionDenied})
    {
      ghost var before := made;
      var missing: seq<nat> := [];
      var next := depth;
      while next > 0
        invariant 0 <= next <= depth && old(failures) <= failures && made == before && unsynced == old(unsynced)
        invariant |missing| == depth - next && forall k | 0 <= k < |missing| :: missing[k] == depth - k > before
      {
        var absent := IsMissing(next);
        if !absent { break; }
        missing := missing + [next];
        next := next - 1;
      }
      if missing == [] { return None; }
      assert missing[0] > before;
      failed := MakeAll(depth);
      if failed.Some? { return; }
      ghost var after := made;
      for k := |missing| downto 0
        invariant old(failures) <= failures && made == after && failed.None?
        invariant failures == old(failures) ==> unsynced <= old(unsynced) + Levels(depth - k, depth)
      {
        failed := SyncHolder(missing[k]);
        if failed.Some? { return; }
      }
    }
  }
}
