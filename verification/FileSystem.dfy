/** System calls on a directory. Each one may fail, and one that fails has changed nothing, but a write
    may have written a part. */
module FileSystem {
  import opened Wrappers
  import opened Disk

  datatype ErrorKind =
    NotFound | PermissionDenied | ReadOnlyFilesystem | AlreadyExists | InvalidInput | Unsupported
    | ResourceBusy | CrossesDevices | OtherError

  datatype Call =
    CreateNew | LinkStat | Stat | Chown | CopyAccess | SetPermissions | WriteSome | SetLen | SyncAll | RenameTo
    | Remove(name: Name) | OpenToWrite | StatDir | SyncDirectory

  datatype Failure = Failure(call: Call, kind: ErrorKind)

  datatype Metadata = Metadata(inode: Inode, kind: Kind, identity: Identity, linked: bool)

  function Overwritten(was: Data, contents: Data, n: nat): Data
    requires n <= |contents|
  {
    contents[..n] + if n < |was| then was[n..] else []
  }

  /** The file between its state `was` and holding exactly `contents`: overwritten from the start, and
      cut off once that is done. */
  ghost predicate Overwriting(was: Node, now: Node, contents: Data) {
    && now.kind == was.kind && now.identity == was.identity
    && (now.data == contents || exists n: nat :: n <= |contents| && now.data == Overwritten(was.data, contents, n))
  }

  ghost predicate WritingNode(d: Disk, e: Disk, i: Inode, contents: Data) {
    && i in d.nodes && OnlyNode(d, e, i) && Overwriting(d.nodes[i], e.nodes[i], contents)
  }

  /** Setting the owner clears the setuid and setgid bits. */
  function Owned(node: Node, uid: Option<nat>, gid: Option<nat>): Node {
    var was := node.identity;
    node.(identity := Identity(if uid.Some? then uid.value else was.uid, if gid.Some? then gid.value else was.gid,
                               was.mode % 0x400, was.acl))
  }

  class FileSystem {
    /** The filesystem user and group of the process. */
    const uid: nat
    const gid: nat
    /** The directory's mode and owner. */
    const dirMode: nat
    const dirUid: nat
    /** Files with links in other directories. */
    const elsewhere: set<Inode>

    var disk: Disk
    /** Every state the disk has been in, and every call that has failed. */
    ghost var trace: seq<Disk>
    ghost var failures: seq<Failure>

    constructor (disk: Disk, uid: nat, gid: nat, dirMode: nat, dirUid: nat, elsewhere: set<Inode>)
      ensures this.disk == disk && this.uid == uid && this.gid == gid && this.dirMode == dirMode
      ensures this.dirUid == dirUid && this.elsewhere == elsewhere && trace == [disk] && failures == []
    {
      this.disk, this.uid, this.gid, this.dirMode := disk, uid, gid, dirMode;
      this.dirUid, this.elsewhere, trace, failures := dirUid, elsewhere, [disk], [];
    }

    /** The last state is the current one. */
    ghost predicate Traced()
      reads this
    {
      trace != [] && trace[|trace| - 1] == disk
    }

    /** An empty file of the process that no one else can read. */
    predicate IsNew(node: Node) {
      && node.kind == Regular && node.data == []
      && node.identity.uid == uid && node.identity.gid == gid && node.identity.mode == 0x180
    }

    method Fail(call: Call, kind: ErrorKind)
      modifies `failures
      ensures failures == old(failures) + [Failure(call, kind)]
    {
      failures := failures + [Failure(call, kind)];
    }

    /** The call fails, or takes the disk to `next`. */
    method Try(call: Call, next: Disk) returns (failed: Option<ErrorKind>)
      modifies this
      ensures failed.None? ==> disk == next && trace == old(trace) + [next] && failures == old(failures)
      ensures failed.Some? ==> disk == old(disk) && trace == old(trace)
      ensures failed.Some? ==> failures == old(failures) + [Failure(call, failed.value)]
    {
      failed := *;
      if failed.Some? {
        Fail(call, failed.value);
      } else {
        disk := next;
        trace := trace + [next];
      }
    }

    /** The call fails, or has read what it was to. */
    method TryRead(call: Call) returns (failed: Option<ErrorKind>)
      modifies `failures
      ensures failures == old(failures) + if failed.Some? then [Failure(call, failed.value)] else []
    {
      failed := *;
      if failed.Some? {
        Fail(call, failed.value);
      }
    }

    /** Creates an empty file of the process, mode 0600, that was not there. */
    method CreateFile(name: Name) returns (r: Result<Inode, ErrorKind>)
      modifies this
      ensures r.Ok? ==>
                && name !in old(disk.entries) && r.value !in old(disk.nodes) && r.value in disk.nodes
                && IsNew(disk.nodes[r.value])
                && disk == old(disk).Write(r.value, disk.nodes[r.value]).Put(name, Some(r.value))
                && trace == old(trace) + [disk] && failures == old(failures)
      ensures r.Err? ==> disk == old(disk) && trace == old(trace)
      ensures r.Err? ==> failures == old(failures) + [Failure(CreateNew, r.error)]
      ensures name in old(disk.entries) ==> r == Err(AlreadyExists)
    {
      if name in disk.entries {
        Fail(CreateNew, AlreadyExists);
        return Err(AlreadyExists);
      }
      ghost var free := SomeFree(disk.nodes.Keys);
      var i: Inode :| i !in disk.nodes.Keys;
      var acl: nat := *;
      var failed := Try(CreateNew, disk.Write(i, Node(Regular, [], Identity(uid, gid, 0x180, acl))).Put(name, Some(i)));
      r := if failed.Some? then Err(failed.value) else Ok(i);
    }

    /** The file at the name has other links. */
    predicate Linked(name: Name, i: Inode)
      reads this
    {
      i in elsewhere || exists other | other in disk.entries :: other != name && disk.entries[other] == i
    }

    /** The entry itself, not following a link. */
    method SymlinkMetadata(name: Name) returns (r: Result<Metadata, ErrorKind>)
      modifies `failures
      ensures r.Ok? ==> disk.Entry(name) == Some(r.value.inode) && r.value.inode in disk.nodes
      ensures r.Ok? ==> r.value.kind == disk.nodes[r.value.inode].kind
      ensures r.Ok? ==> r.value.identity == disk.nodes[r.value.inode].identity
      ensures r.Ok? ==> r.value.linked == Linked(name, r.value.inode) && failures == old(failures)
      ensures r.Err? ==> failures == old(failures) + [Failure(LinkStat, r.error)]
      ensures r == Err(NotFound) ==> name !in disk.entries
    {
      if name !in disk.entries {
        Fail(LinkStat, NotFound);
        return Err(NotFound);
      }
      var failed: Option<ErrorKind> := *;
      if disk.entries[name] !in disk.nodes { failed := Some(OtherError); }
      if failed.Some? && failed.value != NotFound {
        Fail(LinkStat, failed.value);
        return Err(failed.value);
      }
      var i := disk.entries[name];
      r := Ok(Metadata(i, disk.nodes[i].kind, disk.nodes[i].identity, Linked(name, i)));
    }

    /** Opens what is at the name to write to it, following a link. */
    method Open(name: Name) returns (r: Result<Inode, ErrorKind>)
      modifies `failures
      ensures r.Ok? ==> name in disk.entries && r.value in disk.nodes && failures == old(failures)
      ensures r.Ok? ==> var i := disk.entries[name];
                        && i in disk.nodes
                        && r.value == (if disk.nodes[i].kind.Link? then disk.nodes[i].kind.target else i)
      ensures r.Err? ==> failures == old(failures) + [Failure(OpenToWrite, r.error)]
    {
      if name !in disk.entries || disk.entries[name] !in disk.nodes {
        Fail(OpenToWrite, NotFound);
        return Err(NotFound);
      }
      var i := disk.entries[name];
      var file := if disk.nodes[i].kind.Link? then disk.nodes[i].kind.target else i;
      var failed := TryRead(OpenToWrite);
      if failed.None? && file !in disk.nodes {
        Fail(OpenToWrite, NotFound);
        failed := Some(NotFound);
      }
      r := if failed.Some? then Err(failed.value) else Ok(file);
    }

    /** Writes from the start of the file, part by part. */
    method WriteAll(i: Inode, contents: Data) returns (failed: Option<ErrorKind>)
      requires i in disk.nodes && Traced()
      modifies this
      ensures WritingNode(old(disk), disk, i, contents)
      ensures Traced() && old(trace) <= trace
      ensures forall k | |old(trace)| <= k < |trace| :: WritingNode(old(disk), trace[k], i, contents)
      ensures failed.None? ==>
                && failures == old(failures)
                && disk.nodes[i].data == Overwritten(old(disk).nodes[i].data, contents, |contents|)
      ensures failed.Some? ==> failures == old(failures) + [Failure(WriteSome, failed.value)]
    {
      ghost var d := disk;
      var was := disk.nodes[i].data;
      var n := 0;
      assert d.nodes[i].data == Overwritten(was, contents, 0);
      while n < |contents|
        invariant n <= |contents| && failures == old(failures)
        invariant WritingNode(d, disk, i, contents) && disk.nodes[i].data == Overwritten(was, contents, n)
        invariant Traced() && old(trace) <= trace
        invariant forall k | |old(trace)| <= k < |trace| :: WritingNode(d, trace[k], i, contents)
      {
        var m: nat := *;
        if m <= n || m > |contents| { m := n + 1; }
        var node := disk.nodes[i].(data := Overwritten(was, contents, m));
        ghost var before := disk;
        failed := Try(WriteSome, disk.Write(i, node));
        if failed.Some? { return; }
        assert OnlyNode(before, disk, i);
        OnlyNodeTrans(d, before, disk, i);
        n := m;
      }
      failed := None;
    }
  }
}
