/** A directory and the files in it: what readers see, and what a crash may leave. */
module Disk {
  import opened Wrappers

  type Name = nat
  type Inode = nat
  type Data = seq<bv8>

  /** Owner, group, mode and access control entries (with the security label). */
  datatype Identity = Identity(uid: nat, gid: nat, mode: nat, acl: nat)

  /** A link's `target` is the file it finally leads to. */
  datatype Kind = Regular | Link(target: Inode) | Special

  datatype Node = Node(kind: Kind, data: Data, identity: Identity)

  /** `entries` and `nodes` are what readers see. A changed entry may still be any of its `pending`
      ones on disk until the directory is synced, and a file is only sure to be on disk as it is when
      it is not `dirty`. */
  datatype Disk = Disk(entries: map<Name, Inode>, nodes: map<Inode, Node>,
                       pending: map<Name, set<Option<Inode>>>, dirty: set<Inode>) {
    function Entry(name: Name): Option<Inode> {
      if name in entries then Some(entries[name]) else None
    }

    /** What the entry may be after a crash. */
    function Candidates(name: Name): set<Option<Inode>> {
      {Entry(name)} + (if name in pending then pending[name] else {})
    }

    ghost predicate Valid() {
      forall name: Name, e | e in Candidates(name) :: e.Some? ==> e.value in nodes
    }

    /** The directory entry becomes `e`. */
    function Put(name: Name, e: Option<Inode>): Disk {
      this.(entries := if e.Some? then entries[name := e.value] else entries - {name},
            pending := pending[name := Candidates(name)])
    }

    function Rename(from: Name, to: Name): Disk {
      Put(to, Entry(from)).Put(from, None)
    }

    function Write(i: Inode, node: Node): Disk {
      this.(nodes := nodes[i := node], dirty := dirty + {i})
    }

    function Sync(i: Inode): Disk {
      this.(dirty := dirty - {i})
    }

    function SyncDir(): Disk {
      this.(pending := map[])
    }
  }

  /** `c` is a state the machine may come back with after a crash in `d`. */
  ghost predicate AfterCrash(d: Disk, c: Disk) {
    && (forall name: Name :: c.Entry(name) in d.Candidates(name))
    && (forall i | i in d.nodes && i !in d.dirty :: i in c.nodes && c.nodes[i] == d.nodes[i])
  }

  /** The file `j` is as it was. */
  predicate KeepsNode(d: Disk, e: Disk, j: Inode) {
    j in d.nodes && j in e.nodes && e.nodes[j] == d.nodes[j] && (j in e.dirty <==> j in d.dirty)
  }

  /** No file but `i` has changed, or is new, and no entry. */
  ghost predicate OnlyNode(d: Disk, e: Disk, i: Inode) {
    && e.entries == d.entries && e.pending == d.pending && i in e.nodes && OnlyNew(d, e, i)
    && (forall j | j in d.nodes && j != i :: KeepsNode(d, e, j))
  }

  predicate OnlyNew(d: Disk, e: Disk, i: Inode) {
    e.nodes.Keys <= d.nodes.Keys + {i}
  }

  /** The entry at `path`, all a crash may leave there and all files there were are untouched. */
  ghost predicate Untouched(d: Disk, e: Disk, path: Name) {
    && e.Entry(path) == d.Entry(path)
    && e.Candidates(path) == d.Candidates(path)
    && (forall j | j in d.nodes :: KeepsNode(d, e, j))
  }

  /** `path` is the new file `i`, which is on disk holding exactly `contents`, all files there were are
      untouched, and a crash leaves `i` or what it might have left before. */
  ghost predicate Replaced(d: Disk, e: Disk, path: Name, i: Inode, contents: Data) {
    && i !in d.nodes && i in e.nodes && i !in e.dirty
    && e.nodes[i].kind == Regular && e.nodes[i].data == contents
    && e.Entry(path) == Some(i)
    && e.Candidates(path) <= d.Candidates(path) + {Some(i)}
    && (forall j | j in d.nodes :: KeepsNode(d, e, j))
  }

  /** Nothing has happened to `path`, or all of it has. */
  ghost predicate Atomic(d: Disk, e: Disk, path: Name, contents: Data) {
    Untouched(d, e, path) || (e.Entry(path).Some? && Replaced(d, e, path, e.Entry(path).value, contents))
  }

  /** The same file, or none, is at `path`. */
  predicate SameAt(d: Disk, e: Disk, path: Name) {
    && d.Entry(path) == e.Entry(path)
    && (var i := d.Entry(path);
        i.Some? ==>
          && (i.value in d.nodes <==> i.value in e.nodes)
          && (i.value in d.nodes ==> d.nodes[i.value] == e.nodes[i.value]))
  }

  predicate Holds(d: Disk, path: Name, contents: Data) {
    var i := d.Entry(path);
    i.Some? && i.value in d.nodes && d.nodes[i.value].kind == Regular && d.nodes[i.value].data == contents
  }

  /** What a crash in `d` leaves when it leaves at `path` what it has left in `c`. */
  function CrashedLike(d: Disk, c: Disk, path: Name): Disk {
    Disk(if c.Entry(path).Some? then d.entries[path := c.Entry(path).value] else d.entries - {path},
         map i | i in d.nodes && i in c.nodes :: c.nodes[i], map[], {})
  }

  lemma CrashedLikeIsCrash(d: Disk, c: Disk, path: Name)
    requires c.Entry(path) in d.Candidates(path)
    requires forall i | i in d.nodes && i !in d.dirty :: i in c.nodes && c.nodes[i] == d.nodes[i]
    ensures AfterCrash(d, CrashedLike(d, c, path))
  {
  }

  /** Readers of an atomic state see the file as it was or the new contents in full. */
  lemma ReadersSeeWhole(d: Disk, e: Disk, path: Name, contents: Data)
    requires d.Valid() && Atomic(d, e, path, contents)
    ensures SameAt(d, e, path) || Holds(e, path, contents)
  {
  }

  /** A crash in `e` leaves the new contents in full at `path`, or what a crash in `d` could have left
      there too. */
  ghost predicate CrashSafe(d: Disk, e: Disk, path: Name, contents: Data) {
    forall c :: AfterCrash(e, c) ==>
      Holds(c, path, contents) || exists b :: AfterCrash(d, b) && SameAt(c, b, path)
  }

  lemma CrashLeavesWhole(d: Disk, e: Disk, c: Disk, path: Name, contents: Data)
    requires d.Valid() && Atomic(d, e, path, contents) && AfterCrash(e, c)
    ensures Holds(c, path, contents) || exists b :: AfterCrash(d, b) && SameAt(c, b, path)
  {
    var left := c.Entry(path);
    assert left in e.Candidates(path);
    if left in d.Candidates(path) {
      var b := CrashedLike(d, c, path);
      forall i | i in d.nodes && i !in d.dirty ensures i in c.nodes && c.nodes[i] == d.nodes[i] {
        assert KeepsNode(d, e, i);
      }
      CrashedLikeIsCrash(d, c, path);
      assert SameAt(c, b, path);
    }
  }

  /** Crashes in an atomic state are safe. */
  lemma CrashesLeaveWhole(d: Disk, e: Disk, path: Name, contents: Data)
    requires d.Valid() && Atomic(d, e, path, contents)
    ensures CrashSafe(d, e, path, contents)
  {
    forall c | AfterCrash(e, c)
      ensures Holds(c, path, contents) || exists b :: AfterCrash(d, b) && SameAt(c, b, path)
    {
      CrashLeavesWhole(d, e, c, path, contents);
    }
  }

  /** Every crash leaves the entry that is there exactly when it has no other candidate. */
  lemma EntryLastsExactly(d: Disk, path: Name)
    ensures d.Candidates(path) == {d.Entry(path)} <==> forall c :: AfterCrash(d, c) ==> c.Entry(path) == d.Entry(path)
  {
    if x :| x in d.Candidates(path) && x != d.Entry(path) {
      var c := d.Put(path, x);
      CrashedLikeIsCrash(d, c, path);
      assert CrashedLike(d, c, path).Entry(path) == x;
    }
  }

  // ------------------------------------------------------------- steps

  lemma SomeFree(s: set<nat>) returns (n: nat)
    ensures n !in s
  {
    n := 0;
    var below := {};
    while n in s
      invariant below <= s && forall m: nat :: m < n <==> m in below
      decreases |s - below|
    {
      below := below + {n};
      n := n + 1;
    }
  }

  lemma OnlyNodeTrans(d: Disk, e: Disk, f: Disk, i: Inode)
    requires OnlyNode(d, e, i) && OnlyNode(e, f, i)
    ensures OnlyNode(d, f, i)
  {
  }

  lemma UntouchedByNode(d: Disk, e: Disk, f: Disk, path: Name, i: Inode)
    requires Untouched(d, e, path) && OnlyNode(e, f, i) && i !in d.nodes
    ensures Untouched(d, f, path)
  {
  }

  lemma UntouchedByPut(d: Disk, e: Disk, path: Name, name: Name, to: Option<Inode>)
    requires Untouched(d, e, path) && name != path
    ensures Untouched(d, e.Put(name, to), path)
  {
  }

  lemma ReplacedByRename(d: Disk, e: Disk, path: Name, from: Name, i: Inode, contents: Data)
    requires Untouched(d, e, path) && from != path && e.Entry(from) == Some(i)
    requires i !in d.nodes && i in e.nodes && i !in e.dirty
    requires e.nodes[i].kind == Regular && e.nodes[i].data == contents
    ensures Replaced(d, e.Rename(from, path), path, i, contents)
    ensures e.Rename(from, path).Entry(from) == None
    ensures forall name: Name | name != path && name != from :: e.Rename(from, path).Entry(name) == e.Entry(name)
  {
  }

  lemma ReplacedBySyncDir(d: Disk, e: Disk, path: Name, i: Inode, contents: Data)
    requires Replaced(d, e, path, i, contents)
    ensures Replaced(d, e.SyncDir(), path, i, contents)
    ensures e.SyncDir().Candidates(path) == {Some(i)}
  {
  }
}
