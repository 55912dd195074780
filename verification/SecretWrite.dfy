/** Writing a secret file: by a new file renamed over the old one, or in place where that cannot be. */
module SecretWrite {
  import opened Wrappers
  import opened Disk
  import opened FileSystem
  import opened ParentDirs

  /** The most temp file names `CreateTemp` tries. */
  const TEMP_ATTEMPTS := 8

  /** The failure `f` is among those since the first `from`. */
  ghost predicate Failed(failures: seq<Failure>, from: nat, f: Failure) {
    exists k :: from <= k < |failures| && failures[k] == f
  }

  ghost predicate CallFailed(failures: seq<Failure>, from: nat, call: Call) {
    exists k :: from <= k < |failures| && failures[k].call == call
  }

  /** Removes the temp file when dropped, unless it was renamed into place. */
  class TempPath {
    const path: Name
    var remove: bool

    constructor (path: Name)
      ensures this.path == path && remove
    {
      this.path, remove := path, true;
    }

    method Keep()
      modifies this
      ensures !remove
    {
      remove := false;
    }

    method Drop(fs: FileSystem)
      requires fs.Traced()
      modifies fs
      ensures fs.Traced() && old(fs.trace) <= fs.trace && old(fs.failures) <= fs.failures
      ensures forall k | |old(fs.trace)| <= k < |fs.trace| :: fs.trace[k] == fs.disk
      ensures fs.disk == if remove && !CallFailed(fs.failures, |old(fs.failures)|, Remove(path))
                         then old(fs.disk).Put(path, None) else old(fs.disk)
    {
      if remove {
        var ignored := fs.Try(Remove(path), fs.disk.Put(path, None));
        assert ignored.Some? ==> fs.failures[|old(fs.failures)|].call == Remove(path);
      }
    }
  }

  /** Creates a temp file under a name that was not taken, other than `path`. */
  method CreateTemp(fs: FileSystem, path: Name, named: bool) returns (r: Result<(Inode, TempPath), ErrorKind>)
    requires fs.Traced()
    modifies fs
    ensures fs.Traced() && old(fs.failures) <= fs.failures
    ensures r.Ok? ==> var (i, temp) := r.value;
                      && fresh(temp) && temp.remove && temp.path != path && temp.path !in old(fs.disk.entries)
                      && i !in old(fs.disk.nodes) && i in fs.disk.nodes && fs.IsNew(fs.disk.nodes[i])
                      && fs.disk == old(fs.disk).Write(i, fs.disk.nodes[i]).Put(temp.path, Some(i))
                      && fs.trace == old(fs.trace) + [fs.disk]
    ensures r.Err? ==> fs.disk == old(fs.disk) && fs.trace == old(fs.trace)
    ensures r.Err? ==> (!named && r.error == InvalidInput)
                       || Failed(fs.failures, |old(fs.failures)|, Failure(CreateNew, r.error))
    ensures r == Err(AlreadyExists) ==> |fs.failures| == |old(fs.failures)| + TEMP_ATTEMPTS
    ensures forall k | |old(fs.failures)| <= k < |fs.failures| :: fs.failures[k].call == CreateNew
  {
    var attempt := 1;
    while true
      invariant 1 <= attempt <= TEMP_ATTEMPTS && |fs.failures| == |old(fs.failures)| + attempt - 1
      invariant fs.Traced() && fs.disk == old(fs.disk) && fs.trace == old(fs.trace)
      invariant old(fs.failures) <= fs.failures
      invariant forall k | |old(fs.failures)| <= k < |fs.failures| :: fs.failures[k].call == CreateNew
      decreases TEMP_ATTEMPTS - attempt
    {
      if !named {
        return Err(InvalidInput);
      }
      var name: Name := *;
      if name == path { name := path + 1; }
      var file := fs.CreateFile(name);
      match file {
        case Ok(i) =>
          var temp := new TempPath(name);
          return Ok((i, temp));
        case Err(e) =>
          assert fs.failures[|fs.failures| - 1] == Failure(CreateNew, e);
          if !(e == AlreadyExists && attempt < TEMP_ATTEMPTS) {
            return Err(e);
          }
          attempt := attempt + 1;
      }
    }
  }

  /** Syncs the directory, unless that is not possible. */
  method SyncDir(fs: FileSystem) returns (failed: Option<ErrorKind>)
    requires fs.Traced()
    modifies fs
    ensures fs.Traced() && old(fs.trace) <= fs.trace && old(fs.failures) <= fs.failures
    ensures fs.disk == if CallFailed(fs.failures, |old(fs.failures)|, SyncDirectory)
                       then old(fs.disk) else old(fs.disk).SyncDir()
    ensures forall k | |old(fs.trace)| <= k < |fs.trace| :: fs.trace[k] == fs.disk
    ensures forall k | |old(fs.failures)| <= k < |fs.failures| :: fs.failures[k].call == SyncDirectory
    ensures failed.Some? ==> Failed(fs.failures, |old(fs.failures)|, Failure(SyncDirectory, failed.value))
    ensures failed.Some? ==> failed.value !in {InvalidInput, Unsupported, PermissionDenied}
  {
    failed := fs.Try(SyncDirectory, fs.disk.SyncDir());
    if failed.Some? {
      assert fs.failures[|old(fs.failures)|] == Failure(SyncDirectory, failed.value);
      if failed.value in {InvalidInput, Unsupported, PermissionDenied} {
        failed := None;
      }
    }
  }

  // ---------------------------------------------------------------- identity

  predicate NotPermitted(e: ErrorKind) {
    e == PermissionDenied || e == InvalidInput || e == Unsupported
  }

  predicate StickyPermits(dirMode: nat, dirUid: nat, fileUid: nat, writerUid: nat) {
    dirMode / 0x200 % 2 == 0 || writerUid == fileUid || writerUid == dirUid
  }

  /** Only the directory's owner can add entries to it, who is root or the file's owner. */
  predicate OwnerOnlyDir(dirMode: nat, dirUid: nat, fileUid: nat) {
    dirMode / 2 % 2 == 0 && dirMode / 16 % 2 == 0 && (dirUid == 0 || dirUid == fileUid)
  }

  /** Who can add entries to a directory: root, its owner, who can always let themselves, and those whose octal digit
      of the mode has the write bit. */
  predicate CanAdd(dirMode: nat, dirUid: nat, uid: nat, inGroup: bool) {
    var digit := if inGroup then dirMode / 8 % 8 else dirMode % 8;
    uid == 0 || uid == dirUid || digit == 2 || digit == 3 || digit == 6 || digit == 7
  }

  lemma Halved(n: nat, half: nat, low: nat)
    requires n == 2 * half + low && low < 2
    ensures n / 2 == half && n % 2 == low
  {
  }

  lemma WriteBit(mode: nat)
    ensures mode / 2 % 2 == 1 <==> mode % 8 == 2 || mode % 8 == 3 || mode % 8 == 6 || mode % 8 == 7
  {
    var q, digit := mode / 8, mode % 8;
    Halved(mode, 4 * q + digit / 2, digit % 2);
    Halved(4 * q + digit / 2, 2 * q + digit / 4, digit / 2 % 2);
  }

  /** In a sticky directory, whose mode has an odd octal digit above the permissions, only the owner of the file or
      of the directory is permitted. */
  lemma StickyExactly(dirMode: nat, dirUid: nat, fileUid: nat, uid: nat)
    ensures !StickyPermits(dirMode, dirUid, fileUid, uid) <==>
            uid != fileUid && uid != dirUid && exists quarter: nat :: dirMode / 512 == 2 * quarter + 1
  {
    var q, low := dirMode / 512 / 2, dirMode / 512 % 2;
    Halved(dirMode / 512, q, low);
    forall quarter: nat ensures dirMode / 512 == 2 * quarter + 1 ==> low == 1 && quarter == q {
    }
    if low == 1 { assert dirMode / 512 == 2 * q + 1; }
  }

  /** So the link is trusted if and only if nobody but root and the file's owner can have made it. */
  lemma OwnerOnlyExactly(dirMode: nat, dirUid: nat, fileUid: nat)
    ensures OwnerOnlyDir(dirMode, dirUid, fileUid) <==>
            forall uid, inGroup :: CanAdd(dirMode, dirUid, uid, inGroup) ==> uid == 0 || uid == fileUid
  {
    WriteBit(dirMode);
    assert dirMode / 16 == dirMode / 8 / 2;
    WriteBit(dirMode / 8);
    var other := fileUid + dirUid + 1;
    assert CanAdd(dirMode, dirUid, dirUid, true);
    assert dirMode / 16 % 2 == 1 ==> CanAdd(dirMode, dirUid, other, true);
    assert dirMode / 2 % 2 == 1 ==> CanAdd(dirMode, dirUid, other, false);
  }

  /** What is known of the file at `path` is so. */
  predicate Current(d: Disk, path: Name, m: Metadata) {
    d.Entry(path) == Some(m.inode) && m.inode in d.nodes
    && d.nodes[m.inode].kind == m.kind && d.nodes[m.inode].identity == m.identity
  }

  predicate IdentityCall(call: Call) {
    call == Chown || call == CopyAccess || call == SetPermissions
  }

  /** The file differs in its identity only, since `d`. */
  ghost predicate Restamped(d: Disk, e: Disk, i: Inode) {
    && i in d.nodes && OnlyNode(d, e, i)
    && e.nodes[i].kind == d.nodes[i].kind && e.nodes[i].data == d.nodes[i].data
  }

  method Restamp(fs: FileSystem, call: Call, i: Inode, identity: Identity, ghost d: Disk)
    returns (failed: Option<ErrorKind>)
    requires fs.Traced() && i in fs.disk.nodes && Restamped(d, fs.disk, i)
    modifies fs
    ensures fs.Traced() && old(fs.trace) <= fs.trace && Restamped(d, fs.disk, i)
    ensures forall k | |old(fs.trace)| <= k < |fs.trace| :: Restamped(d, fs.trace[k], i)
    ensures fs.failures == old(fs.failures) + if failed.Some? then [Failure(call, failed.value)] else []
    ensures fs.disk.nodes[i].identity == if failed.Some? then old(fs.disk).nodes[i].identity else identity
  {
    ghost var before := fs.disk;
    failed := fs.Try(call, fs.disk.Write(i, fs.disk.nodes[i].(identity := identity)));
    if failed.None? {
      assert OnlyNode(before, fs.disk, i);
      OnlyNodeTrans(d, before, fs.disk, i);
    }
  }

  /** Gives the file the access control of the one at `path`, which changes the mode, then the mode. */
  method CopyAccessAndMode(fs: FileSystem, i: Inode, existing: Metadata, ghost d: Disk)
    returns (failed: Option<ErrorKind>)
    requires fs.Traced() && i in fs.disk.nodes && Restamped(d, fs.disk, i)
    requires i != existing.inode && existing.inode in d.nodes
    modifies fs
    ensures fs.Traced() && old(fs.trace) <= fs.trace && Restamped(d, fs.disk, i)
    ensures forall k | |old(fs.trace)| <= k < |fs.trace| :: Restamped(d, fs.trace[k], i)
    ensures failed.None? ==> fs.failures == old(fs.failures)
    ensures failed.Some? ==>
              || fs.failures == old(fs.failures) + [Failure(CopyAccess, failed.value)]
              || fs.failures == old(fs.failures) + [Failure(SetPermissions, failed.value)]
    ensures var was, now := old(fs.disk).nodes[i].identity, fs.disk.nodes[i].identity;
            && now.uid == was.uid && now.gid == was.gid
            && (failed.None? ==>
                  now.mode == existing.identity.mode && now.acl == d.nodes[existing.inode].identity.acl)
  {
    assert KeepsNode(d, fs.disk, existing.inode);
    var mode: nat := *;
    var acl := fs.disk.nodes[existing.inode].identity.acl;
    failed := Restamp(fs, CopyAccess, i, fs.disk.nodes[i].identity.(acl := acl, mode := mode), d);
    if failed.None? {
      failed := Restamp(fs, SetPermissions, i, fs.disk.nodes[i].identity.(mode := existing.identity.mode), d);
    }
  }

  /** Gives the new temp file the identity of the existing file: its owner first, which clears mode bits,
      then the rest. When it was given away but the rest failed it is taken back, to be removed. */
  method CopyIdentity(fs: FileSystem, path: Name, i: Inode, created: Identity, existing: Metadata)
    returns (failed: Option<ErrorKind>)
    requires fs.Traced() && i in fs.disk.nodes && fs.disk.nodes[i].identity == created
    requires Current(fs.disk, path, existing) && i != existing.inode
    modifies fs
    ensures fs.Traced() && old(fs.trace) <= fs.trace && old(fs.failures) <= fs.failures
    ensures Restamped(old(fs.disk), fs.disk, i)
    ensures forall k | |old(fs.trace)| <= k < |fs.trace| :: Restamped(old(fs.disk), fs.trace[k], i)
    ensures failed.None? ==> fs.failures == old(fs.failures) && fs.disk.nodes[i].identity == existing.identity
    ensures failed.Some? ==>
              var from := |old(fs.failures)|;
              && |fs.failures| > from && fs.failures[from].kind == failed.value
              && IdentityCall(fs.failures[from].call)
              && (fs.disk.nodes[i].identity.uid == created.uid || fs.failures[|fs.failures| - 1].call == Chown)
  {
    ghost var d := fs.disk;
    var to := existing.identity;
    var uid := if created.uid != to.uid then Some(to.uid) else None;
    var gid := if created.gid != to.gid then Some(to.gid) else None;
    if uid.Some? || gid.Some? {
      failed := Restamp(fs, Chown, i, Owned(fs.disk.nodes[i], uid, gid).identity, d);
      if failed.Some? { return; }
    }
    failed := CopyAccessAndMode(fs, i, existing, d);
    if failed.Some? && uid.Some? {
      var back := Owned(fs.disk.nodes[i], Some(created.uid), Some(created.gid)).identity;
      var ignored := Restamp(fs, Chown, i, back, d);
    }
  }

  // ----------------------------------------------------------------- replacing

  /** Why a file has to be written in place: the directory cannot be written to, its identity cannot be
      kept (and the directory's owner would be let), or it cannot be renamed onto. */
  ghost predicate CannotReplace(fs: FileSystem, f: Failure, existing: Metadata) {
    match f.call
    case CreateNew => f.kind == PermissionDenied || f.kind == ReadOnlyFilesystem
    case RenameTo => f.kind == ResourceBusy || f.kind == CrossesDevices
    case _ =>
      && IdentityCall(f.call) && NotPermitted(f.kind)
      && StickyPermits(fs.dirMode, fs.dirUid, existing.identity.uid, fs.uid)
  }

  ghost predicate HadToBeInPlace(fs: FileSystem, from: nat, existing: Metadata)
    reads fs
  {
    exists k :: from <= k < |fs.failures| && CannotReplace(fs, fs.failures[k], existing)
  }

  /** A failure that is not passed over: not one of removing the temp file, of a missing entry, of syncing a directory
      that cannot be synced, nor one for which the file `instead` is written in place. */
  ghost predicate Fatal(fs: FileSystem, f: Failure, instead: Option<Metadata>) {
    && !f.call.Remove? && f != Failure(LinkStat, NotFound)
    && (f.call.SyncDirectory? ==> f.kind !in {InvalidInput, Unsupported, PermissionDenied})
    && (instead.Some? ==> !CannotReplace(fs, f, instead.value))
  }

  /** The error is that of a call that failed since the first `from`, and is not passed over. */
  ghost predicate Blamed(fs: FileSystem, from: nat, e: ErrorKind, instead: Option<Metadata>)
    reads fs
  {
    exists k :: from <= k < |fs.failures| && fs.failures[k].kind == e && Fatal(fs, fs.failures[k], instead)
  }

  function Instead(existing: Option<Metadata>, inPlace: bool): Option<Metadata> {
    if inPlace then existing else None
  }

  /** A path without a file name, or a call that failed. */
  ghost predicate Excused(fs: FileSystem, from: nat, named: bool, e: ErrorKind, instead: Option<Metadata>)
    reads fs
  {
    (!named && e == InvalidInput) || Blamed(fs, from, e, instead)
  }

  /** Every state since the first `from` is atomic. */
  ghost predicate AllAtomic(fs: FileSystem, from: nat, d: Disk, path: Name, contents: Data)
    reads fs
  {
    forall k | from <= k < |fs.trace| :: Atomic(d, fs.trace[k], path, contents)
  }

  function Kept(existing: Option<Metadata>): Option<Identity> {
    if existing.Some? then Some(existing.value.identity) else None
  }

  /** The identity that is to be kept, or the process's with mode 0600. */
  predicate Entitled(fs: FileSystem, identity: Identity, kept: Option<Identity>) {
    if kept.Some? then identity == kept.value
    else identity.uid == fs.uid && identity.gid == fs.gid && identity.mode == 0x180
  }

  /** No file that is new since `d` holds anything, but under an identity entitled to it. */
  ghost predicate Guarded(fs: FileSystem, d: Disk, e: Disk, kept: Option<Identity>) {
    forall j | j in e.nodes && j !in d.nodes :: e.nodes[j].data == [] || Entitled(fs, e.nodes[j].identity, kept)
  }

  /** Every state since the first `from` is atomic and guarded. */
  ghost predicate SafeSince(fs: FileSystem, from: nat, d: Disk, path: Name, contents: Data, kept: Option<Identity>)
    reads fs
  {
    forall k | from <= k < |fs.trace| ::
      Atomic(d, fs.trace[k], path, contents) && Guarded(fs, d, fs.trace[k], kept)
  }

  /** The new file of `replace` before it is written: beside `path`, under the temp file's name. */
  ghost predicate Beside(d: Disk, e: Disk, path: Name, temp: Name, i: Inode) {
    && temp != path && i !in d.nodes && i in e.nodes && e.nodes[i].kind == Regular && OnlyNew(d, e, i)
    && e.Entry(temp) == Some(i) && Untouched(d, e, path)
  }

  ghost predicate GuardedSince(fs: FileSystem, from: nat, d: Disk, kept: Option<Identity>)
    reads fs
  {
    forall k | from <= k < |fs.trace| :: Guarded(fs, d, fs.trace[k], kept)
  }

  /** In every state since the first `from` nothing of what is new can be seen at `path`, or by others. */
  ghost predicate HiddenSince(fs: FileSystem, trace: seq<Disk>, from: nat, d: Disk, path: Name,
                              kept: Option<Identity>)
  {
    forall k | from <= k < |trace| :: Untouched(d, trace[k], path) && Guarded(fs, d, trace[k], kept)
  }

  lemma StampedBeside(fs: FileSystem, d: Disk, before: Disk, e: Disk, path: Name, i: Inode, kept: Option<Identity>)
    requires Untouched(d, before, path) && OnlyNew(d, before, i) && i !in d.nodes
    requires Restamped(before, e, i) && before.nodes[i].data == []
    ensures Untouched(d, e, path) && Guarded(fs, d, e, kept)
  {
    UntouchedByNode(d, before, e, path, i);
  }

  lemma SyncedBeside(d: Disk, e: Disk, path: Name, i: Inode)
    requires Untouched(d, e, path) && i !in d.nodes
    ensures Untouched(d, e.Sync(i), path)
  {
  }

  /** The new file is given the identity to keep, while it is empty and out of sight. */
  method StampTemp(fs: FileSystem, path: Name, temp: Name, i: Inode, existing: Metadata, ghost d: Disk)
    returns (failed: Option<ErrorKind>)
    requires fs.Traced() && Beside(d, fs.disk, path, temp, i) && fs.disk.nodes[i].data == []
    requires Current(fs.disk, path, existing) && existing.inode in d.nodes
    modifies fs
    ensures fs.Traced() && old(fs.trace) <= fs.trace && old(fs.failures) <= fs.failures
    ensures Beside(d, fs.disk, path, temp, i)
    ensures HiddenSince(fs, fs.trace, |old(fs.trace)|, d, path, Some(existing.identity))
    ensures fs.disk.nodes[i].data == [] && fs.disk.entries == old(fs.disk).entries
    ensures failed.None? ==> fs.disk.nodes[i].identity == existing.identity
    ensures failed.Some? ==>
              var from := |old(fs.failures)|;
              && |fs.failures| > from && fs.failures[from].kind == failed.value
              && IdentityCall(fs.failures[from].call)
  {
    ghost var before := fs.disk;
    failed := CopyIdentity(fs, path, i, fs.disk.nodes[i].identity, existing);
    StampedBeside(fs, d, before, fs.disk, path, i, Some(existing.identity));
    forall k | |old(fs.trace)| <= k < |fs.trace|
      ensures Untouched(d, fs.trace[k], path) && Guarded(fs, d, fs.trace[k], Some(existing.identity))
    {
      StampedBeside(fs, d, before, fs.trace[k], path, i, Some(existing.identity));
    }
  }

  /** A failure to look at something, or to give an identity, is blamed unless the file is written in place for it. */
  lemma IdentityIsBlamed(fs: FileSystem, from: nat, k: nat, instead: Option<Metadata>)
    requires from <= k < |fs.failures|
    requires fs.failures[k].call == Stat || fs.failures[k].call == StatDir || IdentityCall(fs.failures[k].call)
    requires instead.Some? ==> !CannotReplace(fs, fs.failures[k], instead.value)
    ensures Blamed(fs, from, fs.failures[k].kind, instead)
  {
    assert Fatal(fs, fs.failures[k], instead);
  }

  /** An identity that could not be given is a reason to write in place, or to be blamed. */
  lemma NotGiven(fs: FileSystem, from: nat, existing: Metadata, inPlace: bool)
    requires from < |fs.failures| && IdentityCall(fs.failures[from].call)
    ensures var lets := NotPermitted(fs.failures[from].kind)
                        && StickyPermits(fs.dirMode, fs.dirUid, existing.identity.uid, fs.uid);
            if inPlace && lets then HadToBeInPlace(fs, from, existing)
            else Blamed(fs, from, fs.failures[from].kind, Instead(Some(existing), inPlace))
  {
    if inPlace && CannotReplace(fs, fs.failures[from], existing) {
      assert HadToBeInPlace(fs, from, existing);
    } else {
      IdentityIsBlamed(fs, from, from, Instead(Some(existing), inPlace));
    }
  }

  /** What to do about an identity that could not be given. */
  method WithoutIdentity(fs: FileSystem, ghost from: nat, existing: Metadata, inPlace: bool, uid: nat, e: ErrorKind)
    returns (r: Result<bool, ErrorKind>)
    requires from < |fs.failures| && fs.failures[from].kind == e && IdentityCall(fs.failures[from].call)
    requires uid == fs.uid
    modifies fs`failures
    ensures old(fs.failures) <= fs.failures && r != Ok(true)
    ensures r == Ok(false) ==> inPlace && HadToBeInPlace(fs, from, existing)
    ensures r.Err? ==> Blamed(fs, from, r.error, Instead(Some(existing), inPlace))
  {
    if NotPermitted(e) && inPlace {
      var unknown := fs.TryRead(StatDir);
      if unknown.Some? {
        IdentityIsBlamed(fs, from, |fs.failures| - 1, Instead(Some(existing), inPlace));
        return Err(unknown.value);
      }
      if StickyPermits(fs.dirMode, fs.dirUid, existing.identity.uid, uid) {
        NotGiven(fs, from, existing, inPlace);
        return Ok(false);
      }
    }
    NotGiven(fs, from, existing, inPlace);
    return Err(e);
  }

  /** The identity part of `replace`: done, or the result it ends with. */
  method KeepIdentity(fs: FileSystem, path: Name, temp: Name, i: Inode, existing: Metadata, inPlace: bool,
                      ghost d: Disk)
    returns (end: Option<Result<bool, ErrorKind>>)
    requires fs.Traced() && Beside(d, fs.disk, path, temp, i) && fs.disk.nodes[i].identity.uid == fs.uid
    requires fs.disk.nodes[i].data == []
    requires Current(fs.disk, path, existing) && existing.inode in d.nodes
    modifies fs
    ensures fs.Traced() && old(fs.trace) <= fs.trace && old(fs.failures) <= fs.failures
    ensures Beside(d, fs.disk, path, temp, i)
    ensures HiddenSince(fs, fs.trace, |old(fs.trace)|, d, path, Some(existing.identity))
    ensures fs.disk.nodes[i].data == [] && fs.disk.entries == old(fs.disk).entries
    ensures end.None? ==> fs.disk.nodes[i].identity == existing.identity
    ensures end.Some? ==> end.value != Ok(true)
    ensures end == Some(Ok(false)) ==> inPlace && HadToBeInPlace(fs, |old(fs.failures)|, existing)
    ensures end.Some? && end.value.Err? ==>
              Blamed(fs, |old(fs.failures)|, end.value.error, Instead(Some(existing), inPlace))
  {
    var failed := fs.TryRead(Stat);
    ghost var k := |old(fs.failures)|;
    if failed.Some? {
      IdentityIsBlamed(fs, k, k, Instead(Some(existing), inPlace));
      return Some(Err(failed.value));
    }
    var createdUid := fs.disk.nodes[i].identity.uid;
    failed := StampTemp(fs, path, temp, i, existing, d);
    if failed.None? { return None; }
    var r := WithoutIdentity(fs, k, existing, inPlace, createdUid, failed.value);
    return Some(r);
  }

  lemma WrittenBeside(fs: FileSystem, d: Disk, before: Disk, e: Disk, path: Name, i: Inode, contents: Data,
                      kept: Option<Identity>)
    requires Untouched(d, before, path) && OnlyNew(d, before, i) && i !in d.nodes
    requires WritingNode(before, e, i, contents) && Entitled(fs, before.nodes[i].identity, kept)
    ensures Untouched(d, e, path) && Guarded(fs, d, e, kept)
  {
    UntouchedByNode(d, before, e, path, i);
  }

  /** Writes and syncs the new file: none of it can be seen at `path`. */
  method FillTemp(fs: FileSystem, path: Name, temp: Name, i: Inode, contents: Data, ghost d: Disk,
                  ghost kept: Option<Identity>)
    returns (failed: Option<ErrorKind>)
    requires fs.Traced() && Beside(d, fs.disk, path, temp, i) && fs.disk.nodes[i].data == []
    requires Entitled(fs, fs.disk.nodes[i].identity, kept)
    modifies fs
    ensures fs.Traced() && old(fs.trace) <= fs.trace && old(fs.failures) <= fs.failures
    ensures Beside(d, fs.disk, path, temp, i)
    ensures HiddenSince(fs, fs.trace, |old(fs.trace)|, d, path, kept)
    ensures fs.disk.entries == old(fs.disk).entries
    ensures fs.disk.nodes[i].identity == old(fs.disk).nodes[i].identity
    ensures failed.None? ==> fs.disk.nodes[i].data == contents && i !in fs.disk.dirty
    ensures failed.Some? ==> FailedLast(fs.failures, old(fs.failures), WriteSome, failed.value)
                             || FailedLast(fs.failures, old(fs.failures), SyncAll, failed.value)
  {
    ghost var before := fs.disk;
    failed := fs.WriteAll(i, contents);
    WrittenBeside(fs, d, before, fs.disk, path, i, contents, kept);
    forall k | |old(fs.trace)| <= k < |fs.trace|
      ensures Untouched(d, fs.trace[k], path) && Guarded(fs, d, fs.trace[k], kept)
    {
      WrittenBeside(fs, d, before, fs.trace[k], path, i, contents, kept);
    }
    if failed.Some? { return; }
    SyncedBeside(d, fs.disk, path, i);
    failed := fs.Try(SyncAll, fs.disk.Sync(i));
  }

  /** Renaming failed as it does onto a busy target, or one on another device. */
  ghost predicate CannotRename(fs: FileSystem, from: nat)
    reads fs
  {
    exists k ::
      && from <= k < |fs.failures| && fs.failures[k].call == RenameTo
      && (fs.failures[k].kind == ResourceBusy || fs.failures[k].kind == CrossesDevices)
  }

  /** The rename that makes the new file visible, and the sync that makes it last. */
  method RenameOnto(fs: FileSystem, path: Name, temp: TempPath, i: Inode, inPlace: bool, contents: Data, ghost d: Disk,
                    ghost kept: Option<Identity>)
    returns (r: Result<bool, ErrorKind>)
    requires fs.Traced() && temp.remove && Beside(d, fs.disk, path, temp.path, i)
    requires Guarded(fs, d, fs.disk, kept)
    requires fs.disk.nodes[i].data == contents && i !in fs.disk.dirty
    modifies fs, temp
    ensures fs.Traced() && old(fs.trace) <= fs.trace && old(fs.failures) <= fs.failures
    ensures SafeSince(fs, |old(fs.trace)|, d, path, contents, kept)
    ensures temp.remove ==> r != Ok(true) && fs.disk == old(fs.disk)
    ensures !temp.remove ==>
              && r != Ok(false) && Replaced(d, fs.disk, path, i, contents)
              && fs.disk.nodes == old(fs.disk).nodes && fs.disk.Entry(temp.path) == None
              && forall name | name != path && name != temp.path :: fs.disk.Entry(name) == old(fs.disk).Entry(name)
    ensures r == Ok(true) && !CallFailed(fs.failures, |old(fs.failures)|, SyncDirectory) ==>
              fs.disk.Candidates(path) == {Some(i)}
    ensures r == Ok(false) ==> inPlace && CannotRename(fs, |old(fs.failures)|)
    ensures r.Err? && !temp.remove ==> CallFailed(fs.failures, |old(fs.failures)|, SyncDirectory)
    ensures r.Err? ==>
              || (Failed(fs.failures, |old(fs.failures)|, Failure(RenameTo, r.error))
                  && !(inPlace && (r.error == ResourceBusy || r.error == CrossesDevices)))
              || (Failed(fs.failures, |old(fs.failures)|, Failure(SyncDirectory, r.error))
                  && r.error !in {InvalidInput, Unsupported, PermissionDenied})
  {
    ghost var before := fs.disk;
    var failed := fs.Try(RenameTo, fs.disk.Rename(temp.path, path));
    match failed {
      case Some(e) =>
        assert fs.failures[|old(fs.failures)|] == Failure(RenameTo, e);
        return if inPlace && (e == ResourceBusy || e == CrossesDevices) then Ok(false) else Err(e);
      case None => temp.Keep();
    }
    ReplacedByRename(d, before, path, temp.path, i, contents);
    ghost var renamed := fs.disk;
    failed := SyncDir(fs);
    ReplacedBySyncDir(d, renamed, path, i, contents);
    r := if failed.Some? then Err(failed.value) else Ok(true);
  }

  /** Nothing beside `path` has changed but the names whose removal failed. */
  ghost predicate Tidy(d: Disk, e: Disk, path: Name, failures: seq<Failure>, from: nat) {
    forall name: Name | name != path && !CallFailed(failures, from, Remove(name)) :: e.Entry(name) == d.Entry(name)
  }

  /** A file holding `contents` is at `path`, with the identity it is to have. */
  ghost predicate Written(fs: FileSystem, path: Name, contents: Data, existing: Option<Metadata>)
    reads fs
  {
    && Holds(fs.disk, path, contents) && fs.disk.Entry(path).value !in fs.disk.dirty
    && Entitled(fs, fs.disk.nodes[fs.disk.Entry(path).value].identity, Kept(existing))
  }

  /** The new file under its identity is filled and put in place. */
  method FillAndRename(fs: FileSystem, path: Name, temp: TempPath, i: Inode, inPlace: bool, contents: Data,
                       ghost d: Disk, ghost existing: Option<Metadata>)
    returns (r: Result<bool, ErrorKind>)
    requires fs.Traced() && temp.remove && Beside(d, fs.disk, path, temp.path, i) && fs.disk.nodes[i].data == []
    requires Entitled(fs, fs.disk.nodes[i].identity, Kept(existing))
    modifies fs, temp
    ensures fs.Traced() && old(fs.trace) <= fs.trace && old(fs.failures) <= fs.failures
    ensures SafeSince(fs, |old(fs.trace)|, d, path, contents, Kept(existing)) && Guarded(fs, d, fs.disk, Kept(existing))
    ensures temp.remove ==>
              && r != Ok(true) && fs.disk.entries == old(fs.disk).entries && Untouched(d, fs.disk, path)
    ensures !temp.remove ==>
              && r != Ok(false) && Replaced(d, fs.disk, path, i, contents) && fs.disk.Entry(temp.path) == None
              && forall name | name != path && name != temp.path :: fs.disk.Entry(name) == old(fs.disk).Entry(name)
    ensures r == Ok(true) ==> Written(fs, path, contents, existing)
    ensures r == Ok(true) && !CallFailed(fs.failures, |old(fs.failures)|, SyncDirectory) ==>
              fs.disk.Candidates(path) == {Some(i)}
    ensures r == Ok(false) ==> inPlace && CannotRename(fs, |old(fs.failures)|)
    ensures r.Err? && !temp.remove ==> CallFailed(fs.failures, |old(fs.failures)|, SyncDirectory)
    ensures r.Err? ==> Blamed(fs, |old(fs.failures)|, r.error, Instead(existing, inPlace))
  {
    var failed := FillTemp(fs, path, temp.path, i, contents, d, Kept(existing));
    if failed.Some? {
      assert Fatal(fs, fs.failures[|fs.failures| - 1], Instead(existing, inPlace));
      return Err(failed.value);
    }
    ghost var from := |fs.failures|;
    r := RenameOnto(fs, path, temp, i, inPlace, contents, d, Kept(existing));
    if r.Err? { RenameIsBlamed(fs, from, r.error, existing, inPlace); }
  }

  /** `replace` from the new temp file on. */
  method ReplaceByTemp(fs: FileSystem, path: Name, temp: TempPath, i: Inode, existing: Option<Metadata>,
                       inPlace: bool, contents: Data, ghost d: Disk)
    returns (r: Result<bool, ErrorKind>)
    requires fs.Traced() && temp.remove && Beside(d, fs.disk, path, temp.path, i) && fs.IsNew(fs.disk.nodes[i])
    requires existing.Some? ==> Current(d, path, existing.value)
    modifies fs, temp
    ensures fs.Traced() && old(fs.trace) <= fs.trace && old(fs.failures) <= fs.failures
    ensures SafeSince(fs, |old(fs.trace)|, d, path, contents, Kept(existing)) && Guarded(fs, d, fs.disk, Kept(existing))
    ensures temp.remove ==>
              && r != Ok(true) && fs.disk.entries == old(fs.disk).entries && Untouched(d, fs.disk, path)
    ensures !temp.remove ==>
              && r != Ok(false) && Replaced(d, fs.disk, path, i, contents) && fs.disk.Entry(temp.path) == None
              && forall name | name != path && name != temp.path :: fs.disk.Entry(name) == old(fs.disk).Entry(name)
    ensures r == Ok(true) ==> Written(fs, path, contents, existing)
    ensures r == Ok(true) && !CallFailed(fs.failures, |old(fs.failures)|, SyncDirectory) ==>
              fs.disk.Candidates(path) == {Some(i)}
    ensures r == Ok(false) ==>
              && inPlace && |fs.failures| > |old(fs.failures)|
              && (existing.Some? ==> HadToBeInPlace(fs, |old(fs.failures)|, existing.value))
    ensures r.Err? && !temp.remove ==> CallFailed(fs.failures, |old(fs.failures)|, SyncDirectory)
    ensures r.Err? ==> Blamed(fs, |old(fs.failures)|, r.error, Instead(existing, inPlace))
  {
    if existing.Some? {
      assert KeepsNode(d, fs.disk, existing.value.inode);
      var end := KeepIdentity(fs, path, temp.path, i, existing.value, inPlace, d);
      if end.Some? { return end.value; }
    }
    ghost var from := |fs.failures|;
    r := FillAndRename(fs, path, temp, i, inPlace, contents, d, existing);
    if r == Ok(false) && existing.Some? { RenameRefused(fs, from, existing.value); }
  }

  lemma RenameRefused(fs: FileSystem, from: nat, existing: Metadata)
    requires CannotRename(fs, from)
    ensures HadToBeInPlace(fs, from, existing)
  {
    var k :| from <= k < |fs.failures| && fs.failures[k].call == RenameTo
             && (fs.failures[k].kind == ResourceBusy || fs.failures[k].kind == CrossesDevices);
    assert CannotReplace(fs, fs.failures[k], existing);
  }

  lemma RenameIsBlamed(fs: FileSystem, from: nat, e: ErrorKind, existing: Option<Metadata>, inPlace: bool)
    requires || (Failed(fs.failures, from, Failure(RenameTo, e))
                 && !(inPlace && (e == ResourceBusy || e == CrossesDevices)))
             || (Failed(fs.failures, from, Failure(SyncDirectory, e))
                 && e !in {InvalidInput, Unsupported, PermissionDenied})
    ensures Blamed(fs, from, e, Instead(existing, inPlace))
  {
    if Failed(fs.failures, from, Failure(RenameTo, e)) && !(inPlace && (e == ResourceBusy || e == CrossesDevices)) {
      var k :| from <= k < |fs.failures| && fs.failures[k] == Failure(RenameTo, e);
      assert Fatal(fs, fs.failures[k], Instead(existing, inPlace));
    } else {
      var k :| from <= k < |fs.failures| && fs.failures[k] == Failure(SyncDirectory, e);
      assert Fatal(fs, fs.failures[k], Instead(existing, inPlace));
    }
  }

  lemma CreateIsBlamed(fs: FileSystem, from: nat, e: ErrorKind, existing: Option<Metadata>, inPlace: bool)
    requires Failed(fs.failures, from, Failure(CreateNew, e))
    requires !(inPlace && (e == PermissionDenied || e == ReadOnlyFilesystem))
    ensures Blamed(fs, from, e, Instead(existing, inPlace))
  {
    var k :| from <= k < |fs.failures| && fs.failures[k] == Failure(CreateNew, e);
    assert Fatal(fs, fs.failures[k], Instead(existing, inPlace));
  }

  lemma RefusedTemp(fs: FileSystem, from: nat, e: ErrorKind, existing: Metadata)
    requires Failed(fs.failures, from, Failure(CreateNew, e)) && (e == PermissionDenied || e == ReadOnlyFilesystem)
    ensures HadToBeInPlace(fs, from, existing)
  {
    var k :| from <= k < |fs.failures| && fs.failures[k] == Failure(CreateNew, e);
    assert CannotReplace(fs, fs.failures[k], existing);
  }

  lemma TraceIsCrashSafe(trace: seq<Disk>, from: nat, d: Disk, path: Name, contents: Data)
    requires forall k | from <= k < |trace| :: Atomic(d, trace[k], path, contents)
    ensures d.Valid() ==> forall k | from <= k < |trace| :: CrashSafe(d, trace[k], path, contents)
  {
    if d.Valid() {
      forall k | from <= k < |trace| ensures CrashSafe(d, trace[k], path, contents) {
        CrashesLeaveWhole(d, trace[k], path, contents);
      }
    }
  }

  /** What `replace` has come to, from disk `d` on: the new file in full, and for good when the directory could
      be synced; nothing, for a reason to write in place; or an error, with nothing done to `path` unless it was
      the directory that could not be synced. */
  ghost predicate ReplaceOutcome(fs: FileSystem, from: nat, d: Disk, path: Name, existing: Option<Metadata>,
                                 inPlace: bool, contents: Data, r: Result<bool, ErrorKind>)
    reads fs
  {
    && Tidy(d, fs.disk, path, fs.failures, from)
    && (r == Ok(true) ==>
          && Written(fs, path, contents, existing)
          && Replaced(d, fs.disk, path, fs.disk.Entry(path).value, contents)
          && (!CallFailed(fs.failures, from, SyncDirectory) ==> fs.disk.Candidates(path) == {fs.disk.Entry(path)}))
    && (r == Ok(false) ==>
          && inPlace && Untouched(d, fs.disk, path)
          && (existing.Some? ==> HadToBeInPlace(fs, from, existing.value)))
    && (r.Err? ==> Untouched(d, fs.disk, path) || CallFailed(fs.failures, from, SyncDirectory))
  }

  /** `replace` from the new temp file on, which is dropped in the end. */
  method ReplaceAndDrop(fs: FileSystem, path: Name, temp: TempPath, i: Inode, existing: Option<Metadata>,
                        inPlace: bool, contents: Data, ghost d: Disk)
    returns (r: Result<bool, ErrorKind>)
    requires fs.Traced() && temp.remove && Beside(d, fs.disk, path, temp.path, i) && fs.IsNew(fs.disk.nodes[i])
    requires temp.path !in d.entries
    requires forall name: Name | name != temp.path :: fs.disk.Entry(name) == d.Entry(name)
    requires existing.Some? ==> Current(d, path, existing.value)
    modifies fs, temp
    ensures fs.Traced() && old(fs.trace) <= fs.trace && old(fs.failures) <= fs.failures
    ensures SafeSince(fs, |old(fs.trace)|, d, path, contents, Kept(existing))
    ensures ReplaceOutcome(fs, |old(fs.failures)|, d, path, existing, inPlace, contents, r)
    ensures r == Ok(false) ==> |fs.failures| > |old(fs.failures)|
    ensures r.Err? ==> Blamed(fs, |old(fs.failures)|, r.error, Instead(existing, inPlace))
  {
    r := ReplaceByTemp(fs, path, temp, i, existing, inPlace, contents, d);
    if temp.remove { UntouchedByPut(d, fs.disk, path, temp.path, None); }
    ghost var nodes := fs.disk.nodes;
    temp.Drop(fs);
    assert fs.disk.nodes == nodes;
  }

  /** `replace`: at every moment `path` is as it was or the new file in full, and so it is after a crash at
      that moment; and no new file holds anything but under the identity it is to have. */
  method Replace(fs: FileSystem, path: Name, named: bool, existing: Option<Metadata>, inPlace: bool, contents: Data)
    returns (r: Result<bool, ErrorKind>)
    requires fs.Traced()
    requires existing.Some? ==> Current(fs.disk, path, existing.value)
    modifies fs
    ensures fs.Traced() && old(fs.trace) <= fs.trace && old(fs.failures) <= fs.failures
    ensures SafeSince(fs, |old(fs.trace)|, old(fs.disk), path, contents, Kept(existing))
    ensures old(fs.disk).Valid() ==>
              forall k | |old(fs.trace)| <= k < |fs.trace| :: CrashSafe(old(fs.disk), fs.trace[k], path, contents)
    ensures ReplaceOutcome(fs, |old(fs.failures)|, old(fs.disk), path, existing, inPlace, contents, r)
    ensures r.Err? ==> Excused(fs, |old(fs.failures)|, named, r.error, Instead(existing, inPlace))
    ensures named && fs.failures == old(fs.failures) ==> r == Ok(true)
  {
    ghost var d := fs.disk;
    ghost var from := |fs.failures|;
    var created := CreateTemp(fs, path, named);
    match created {
      case Err(e) =>
        r := Err(e);
        assert named ==> Failed(fs.failures, from, Failure(CreateNew, e)) && |fs.failures| > from;
        if inPlace && (e == PermissionDenied || e == ReadOnlyFilesystem) {
          if existing.Some? { RefusedTemp(fs, from, e, existing.value); }
          r := Ok(false);
        } else if named || e != InvalidInput {
          CreateIsBlamed(fs, from, e, existing, inPlace);
        }
      case Ok((i, temp)) =>
        r := ReplaceAndDrop(fs, path, temp, i, existing, inPlace, contents, d);
    }
    TraceIsCrashSafe(fs.trace, |old(fs.trace)|, d, path, contents);
    assert r.Ok? ==> r == Ok(r.value) && (r.value || !r.value);
  }

  // ------------------------------------------------------------------ in place

  /** Every state since the first `from` differs from `d` in the file `i` only, which is part of the way to
      holding `contents`. */
  ghost predicate OverwritingSince(fs: FileSystem, from: nat, d: Disk, i: Inode, contents: Data)
    reads fs
  {
    forall k | from <= k < |fs.trace| :: WritingNode(d, fs.trace[k], i, contents)
  }

  /** Cuts the overwritten file off behind the contents, and syncs it. */
  method CutAndSync(fs: FileSystem, i: Inode, contents: Data, ghost d: Disk) returns (failed: Option<ErrorKind>)
    requires fs.Traced() && WritingNode(d, fs.disk, i, contents)
    requires contents <= fs.disk.nodes[i].data
    modifies fs
    ensures fs.Traced() && old(fs.trace) <= fs.trace && old(fs.failures) <= fs.failures
    ensures OverwritingSince(fs, |old(fs.trace)|, d, i, contents)
    ensures failed.None? ==>
              WritingNode(d, fs.disk, i, contents) && fs.disk.nodes[i].data == contents && i !in fs.disk.dirty
    ensures forall k | |old(fs.failures)| <= k < |fs.failures| :: fs.failures[k].call != SyncDirectory
    ensures failed.Some? ==> FailedLast(fs.failures, old(fs.failures), SetLen, failed.value)
                             || FailedLast(fs.failures, old(fs.failures), SyncAll, failed.value)
  {
    ghost var before := fs.disk;
    failed := fs.Try(SetLen, fs.disk.Write(i, fs.disk.nodes[i].(data := fs.disk.nodes[i].data[..|contents|])));
    if failed.Some? { return; }
    assert OnlyNode(before, fs.disk, i);
    OnlyNodeTrans(d, before, fs.disk, i);
    ghost var cut := fs.disk;
    failed := fs.Try(SyncAll, fs.disk.Sync(i));
    if failed.None? {
      assert OnlyNode(cut, fs.disk, i);
      OnlyNodeTrans(d, cut, fs.disk, i);
    }
  }

  /** The entry leads to another file than `i` by now. */
  ghost predicate LeadsElsewhere(d: Disk, path: Name, i: Inode) {
    && path in d.entries && d.entries[path] in d.nodes
    && i != match d.nodes[d.entries[path]].kind case Link(target) => target case _ => d.entries[path]
  }

  /** The last call failed, one of those that write in place. */
  predicate FailedInPlace(failures: seq<Failure>, from: nat, e: ErrorKind) {
    && |failures| > from
    && var Failure(call, kind) := failures[|failures| - 1];
       && kind == e
       && (call == OpenToWrite || call == Stat || call == WriteSome || call == SetLen || call == SyncAll)
  }

  /** `write_in_place`: whatever is at `path` by now, only the file checked before is written to. */
  method WriteInPlace(fs: FileSystem, path: Name, existing: Metadata, contents: Data)
    returns (failed: Option<ErrorKind>)
    requires fs.Traced()
    modifies fs
    ensures fs.Traced() && old(fs.trace) <= fs.trace && old(fs.failures) <= fs.failures
    ensures OverwritingSince(fs, |old(fs.trace)|, old(fs.disk), existing.inode, contents)
    ensures failed.None? ==>
              && existing.inode in old(fs.disk.nodes) && WritingNode(old(fs.disk), fs.disk, existing.inode, contents)
              && fs.disk.nodes[existing.inode].data == contents && existing.inode !in fs.disk.dirty
    ensures forall k | |old(fs.failures)| <= k < |fs.failures| :: fs.failures[k].call != SyncDirectory
    ensures failed.Some? ==>
              || FailedInPlace(fs.failures, |old(fs.failures)|, failed.value)
              || (failed.value == OtherError && LeadsElsewhere(old(fs.disk), path, existing.inode))
  {
    var file := fs.Open(path);
    if file.Err? { return Some(file.error); }
    var i := file.value;
    failed := fs.TryRead(Stat);
    if failed.Some? { return; }
    if i != existing.inode { return Some(OtherError); }
    ghost var d := fs.disk;
    failed := fs.WriteAll(i, contents);
    if failed.None? {
      failed := CutAndSync(fs, i, contents, d);
    }
  }

  /** A file that held something is not empty while it is overwritten by something. */
  lemma NeverEmptied(was: Node, now: Node, contents: Data)
    requires Overwriting(was, now, contents) && was.data != [] && contents != []
    ensures now.data != []
  {
    if now.data != contents {
      var n: nat :| n <= |contents| && now.data == Overwritten(was.data, contents, n);
      assert |now.data| >= n && (n == 0 ==> now.data == [] + was.data);
    }
  }

  // ----------------------------------------------------------------- write_file

  ghost predicate IsRegular(d: Disk, path: Name) {
    d.Entry(path).Some? && d.Entry(path).value in d.nodes && d.nodes[d.Entry(path).value].kind.Regular?
  }

  ghost function IdentityAt(d: Disk, path: Name): Option<Identity> {
    if IsRegular(d, path) then Some(d.nodes[d.Entry(path).value].identity) else None
  }

  /** What `path` holds is untouched or all new, and no file that was there has changed but `i`, which is part
      of the way to holding `contents`. */
  ghost predicate AtomicBut(d: Disk, e: Disk, path: Name, contents: Data, i: Inode) {
    && (|| (e.Entry(path) == d.Entry(path) && e.Candidates(path) == d.Candidates(path))
        || (Holds(e, path, contents) && e.Entry(path).value !in d.nodes && e.Entry(path).value !in e.dirty
            && e.Candidates(path) <= d.Candidates(path) + {e.Entry(path)}))
    && (forall j | j in d.nodes && j != i :: KeepsNode(d, e, j))
    && i in d.nodes && i in e.nodes && Overwriting(d.nodes[i], e.nodes[i], contents)
  }

  lemma KeptIsOverwriting(was: Node, contents: Data)
    ensures Overwriting(was, was, contents)
  {
    assert was.data == Overwritten(was.data, contents, 0);
  }

  lemma AtomicIsAtomicBut(d: Disk, e: Disk, path: Name, contents: Data, i: Inode)
    requires Atomic(d, e, path, contents) && i in d.nodes
    ensures AtomicBut(d, e, path, contents, i)
  {
    assert KeepsNode(d, e, i);
    KeptIsOverwriting(d.nodes[i], contents);
  }

  lemma TraceIsAtomicBut(trace: seq<Disk>, from: nat, d: Disk, path: Name, contents: Data, i: Inode)
    requires forall k | from <= k < |trace| :: Atomic(d, trace[k], path, contents)
    requires i in d.nodes
    ensures forall k | from <= k < |trace| :: AtomicBut(d, trace[k], path, contents, i)
  {
    forall k | from <= k < |trace| ensures AtomicBut(d, trace[k], path, contents, i) {
      AtomicIsAtomicBut(d, trace[k], path, contents, i);
    }
  }

  lemma OverwriteAfterUntouched(d: Disk, e: Disk, f: Disk, path: Name, contents: Data, i: Inode)
    requires Untouched(d, e, path) && i in d.nodes && WritingNode(e, f, i, contents)
    ensures AtomicBut(d, f, path, contents, i)
  {
  }

  lemma OverwriteGuarded(fs: FileSystem, d: Disk, e: Disk, f: Disk, contents: Data, i: Inode, kept: Option<Identity>)
    requires Guarded(fs, d, e, kept) && i in d.nodes && WritingNode(e, f, i, contents)
    ensures Guarded(fs, d, f, kept)
  {
  }

  lemma AtomicAfterOverwrite(d: Disk, e: Disk, f: Disk, path: Name, contents: Data, i: Inode)
    requires WritingNode(d, e, i, contents) && Atomic(e, f, path, contents)
    ensures AtomicBut(d, f, path, contents, i)
  {
  }

  ghost predicate ButSince(fs: FileSystem, from: nat, d: Disk, path: Name, contents: Data, i: Inode)
    reads fs
  {
    forall k | from <= k < |fs.trace| :: AtomicBut(d, fs.trace[k], path, contents, i)
  }

  /** The file is linked where only its owner, or root, can have linked it. */
  predicate TrustedLink(fs: FileSystem, existing: Metadata) {
    existing.linked && OwnerOnlyDir(fs.dirMode, fs.dirUid, existing.identity.uid)
  }

  /** A new file is all that a crash may leave at `path`; a file that was there keeps its entry as sure to
      be on disk as it was. */
  ghost predicate Lasts(d: Disk, e: Disk, path: Name) {
    if e.Entry(path) == d.Entry(path) then e.Candidates(path) == d.Candidates(path)
    else e.Candidates(path) == {e.Entry(path)}
  }

  /** What was written survives every crash under its name if and only if it is a new file, or the entry of the
      file before was sure to be on disk. */
  lemma LastsExactly(d: Disk, e: Disk, path: Name, contents: Data)
    requires Lasts(d, e, path) && Holds(e, path, contents) && e.Entry(path).value !in e.dirty
    ensures (forall c :: AfterCrash(e, c) ==> c.Entry(path) == e.Entry(path) && Holds(c, path, contents)) <==>
            e.Entry(path) != d.Entry(path) || d.Candidates(path) == {d.Entry(path)}
  {
    EntryLastsExactly(e, path);
  }

  /** An input for which it does not: the entry of file 7 at name 1 is new, its directory not synced, and the
      file written in place. A crash may leave no entry. */
  lemma LostInPlace()
    ensures var was := Node(Regular, [], Identity(0, 0, 0x180, 0));
            var d := Disk(map[1 := 7], map[7 := was], map[1 := {None}], {});
            var e := d.Write(7, was.(data := [1])).Sync(7);
            var c := Disk(map[], e.nodes, map[], {});
            && d.Valid() && WritingNode(d, e, 7, [1]) && Lasts(d, e, 1)
            && Holds(e, 1, [1]) && 7 !in e.dirty
            && AfterCrash(e, c) && !Holds(c, 1, [1])
  {
    var was := Node(Regular, [], Identity(0, 0, 0x180, 0));
    var d := Disk(map[1 := 7], map[7 := was], map[1 := {None}], {});
    var e := d.Write(7, was.(data := [1])).Sync(7);
    assert e.Candidates(1) == {Some(7), None};
    assert forall name: Name | name != 1 :: d.Candidates(name) == e.Candidates(name) == {None};
  }

  lemma InPlaceIsBlamed(fs: FileSystem, from: nat, e: ErrorKind, instead: Option<Metadata>)
    requires FailedInPlace(fs.failures, from, e)
    ensures Blamed(fs, from, e, instead)
  {
    assert Fatal(fs, fs.failures[|fs.failures| - 1], instead);
  }

  lemma LeadsThere(d: Disk, e: Disk, path: Name, existing: Metadata)
    requires Current(d, path, existing) && existing.kind.Regular? && Untouched(d, e, path)
    ensures !LeadsElsewhere(e, path, existing.inode)
  {
    assert KeepsNode(d, e, existing.inode);
  }

  /** The regular file that is still at `path` is written in place. */
  method OverwriteRegular(fs: FileSystem, path: Name, existing: Metadata, contents: Data, ghost d: Disk,
                          ghost instead: Option<Metadata>)
    returns (failed: Option<ErrorKind>)
    requires fs.Traced() && Current(d, path, existing) && existing.kind.Regular?
    requires Untouched(d, fs.disk, path) && Guarded(fs, d, fs.disk, Some(existing.identity))
    modifies fs
    ensures fs.Traced() && old(fs.trace) <= fs.trace && old(fs.failures) <= fs.failures
    ensures ButSince(fs, |old(fs.trace)|, d, path, contents, existing.inode)
    ensures GuardedSince(fs, |old(fs.trace)|, d, Some(existing.identity))
    ensures WritingNode(old(fs.disk), fs.disk, existing.inode, contents)
    ensures failed.None? ==> fs.disk.nodes[existing.inode].data == contents && existing.inode !in fs.disk.dirty
    ensures failed.Some? ==> Blamed(fs, |old(fs.failures)|, failed.value, instead)
  {
    ghost var before, i := fs.disk, existing.inode;
    assert KeepsNode(d, before, i);
    KeptIsOverwriting(before.nodes[i], contents);
    LeadsThere(d, before, path, existing);
    failed := WriteInPlace(fs, path, existing, contents);
    if failed.Some? { InPlaceIsBlamed(fs, |old(fs.failures)|, failed.value, instead); }
    forall k | |old(fs.trace)| <= k < |fs.trace|
      ensures AtomicBut(d, fs.trace[k], path, contents, i) && Guarded(fs, d, fs.trace[k], Some(existing.identity))
    {
      OverwriteAfterUntouched(d, before, fs.trace[k], path, contents, i);
      OverwriteGuarded(fs, d, before, fs.trace[k], contents, i, Some(existing.identity));
    }
    assert fs.disk == before || WritingNode(before, fs.trace[|fs.trace| - 1], i, contents);
  }

  /** A regular file that cannot be shared by its links is replaced, or written in place if it must be. */
  method ReplaceOrOverwrite(fs: FileSystem, path: Name, named: bool, existing: Metadata, inPlace: bool, contents: Data)
    returns (failed: Option<ErrorKind>)
    requires fs.Traced() && Current(fs.disk, path, existing) && existing.kind.Regular?
    modifies fs
    ensures fs.Traced() && old(fs.trace) <= fs.trace && old(fs.failures) <= fs.failures
    ensures ButSince(fs, |old(fs.trace)|, old(fs.disk), path, contents, existing.inode)
    ensures GuardedSince(fs, |old(fs.trace)|, old(fs.disk), Some(existing.identity))
    ensures AllAtomic(fs, |old(fs.trace)|, old(fs.disk), path, contents)
            || (inPlace && HadToBeInPlace(fs, |old(fs.failures)|, existing))
    ensures Tidy(old(fs.disk), fs.disk, path, fs.failures, |old(fs.failures)|)
    ensures failed.None? ==> Written(fs, path, contents, Some(existing))
    ensures failed.None? && !CallFailed(fs.failures, |old(fs.failures)|, SyncDirectory) ==>
              Lasts(old(fs.disk), fs.disk, path)
    ensures failed.Some? ==> Excused(fs, |old(fs.failures)|, named, failed.value, Instead(Some(existing), inPlace))
  {
    ghost var d := fs.disk;
    ghost var i := existing.inode;
    var replaced := Replace(fs, path, named, Some(existing), inPlace, contents);
    TraceIsAtomicBut(fs.trace, |old(fs.trace)|, d, path, contents, i);
    if replaced.Err? { return Some(replaced.error); }
    if replaced.value { return None; }
    assert Guarded(fs, d, fs.disk, Some(existing.identity));
    failed := OverwriteRegular(fs, path, existing, contents, d, Instead(Some(existing), inPlace));
  }

  /** Replaces a file that was not, or only partly, written in place since `d`. */
  method SplitOff(fs: FileSystem, path: Name, named: bool, existing: Metadata, contents: Data, ghost d: Disk)
    returns (failed: Option<ErrorKind>)
    requires fs.Traced() && Current(d, path, existing) && existing.kind.Regular?
    requires WritingNode(d, fs.disk, existing.inode, contents)
    modifies fs
    ensures fs.Traced() && old(fs.trace) <= fs.trace && old(fs.failures) <= fs.failures
    ensures ButSince(fs, |old(fs.trace)|, d, path, contents, existing.inode)
    ensures GuardedSince(fs, |old(fs.trace)|, d, Some(existing.identity))
    ensures Tidy(d, fs.disk, path, fs.failures, |old(fs.failures)|)
    ensures failed.None? ==> Written(fs, path, contents, Some(existing))
    ensures failed.None? && !CallFailed(fs.failures, |old(fs.failures)|, SyncDirectory) ==> Lasts(d, fs.disk, path)
    ensures failed.Some? ==> Excused(fs, |old(fs.failures)|, named, failed.value, None)
  {
    ghost var before := fs.disk;
    var replaced := Replace(fs, path, named, Some(existing), false, contents);
    forall k | |old(fs.trace)| <= k < |fs.trace| ensures AtomicBut(d, fs.trace[k], path, contents, existing.inode) {
      AtomicAfterOverwrite(d, before, fs.trace[k], path, contents, existing.inode);
    }
    if replaced.Err? { return Some(replaced.error); }
    assert replaced == Ok(replaced.value) && replaced.value;
    failed := None;
  }

  ghost predicate Denied(failures: seq<Failure>, from: nat) {
    exists k :: from <= k < |failures| && failures[k].kind == PermissionDenied
  }

  /** A regular file: written through where its links may share it, else as above. */
  method WriteRegular(fs: FileSystem, path: Name, named: bool, existing: Metadata, contents: Data)
    returns (failed: Option<ErrorKind>)
    requires fs.Traced() && Current(fs.disk, path, existing) && existing.kind.Regular?
    modifies fs
    ensures fs.Traced() && old(fs.trace) <= fs.trace && old(fs.failures) <= fs.failures
    ensures ButSince(fs, |old(fs.trace)|, old(fs.disk), path, contents, existing.inode)
    ensures GuardedSince(fs, |old(fs.trace)|, old(fs.disk), Some(existing.identity))
    ensures AllAtomic(fs, |old(fs.trace)|, old(fs.disk), path, contents)
            || TrustedLink(fs, existing)
            || (!existing.linked && HadToBeInPlace(fs, |old(fs.failures)|, existing))
    ensures Tidy(old(fs.disk), fs.disk, path, fs.failures, |old(fs.failures)|)
    ensures failed.None? ==> Written(fs, path, contents, Some(existing))
    ensures failed.None? && !CallFailed(fs.failures, |old(fs.failures)|, SyncDirectory) ==>
              Lasts(old(fs.disk), fs.disk, path)
    ensures failed.None? && TrustedLink(fs, existing) && !Denied(fs.failures, |old(fs.failures)|) ==>
              fs.disk.Entry(path) == Some(existing.inode)
    ensures failed.Some? ==>
              Excused(fs, |old(fs.failures)|, named, failed.value, Instead(Some(existing), !existing.linked))
  {
    ghost var d := fs.disk;
    if !existing.linked {
      failed := ReplaceOrOverwrite(fs, path, named, existing, true, contents);
      return;
    }
    failed := fs.TryRead(StatDir);
    if failed.Some? {
      assert Fatal(fs, fs.failures[|fs.failures| - 1], None);
      return;
    }
    if !OwnerOnlyDir(fs.dirMode, fs.dirUid, existing.identity.uid) {
      failed := ReplaceOrOverwrite(fs, path, named, existing, false, contents);
      return;
    }
    failed := OverwriteRegular(fs, path, existing, contents, d, None);
    if failed != Some(PermissionDenied) { return; }
    assert Denied(fs.failures, |old(fs.failures)|);
    // A file that cannot be written to is split off from its other links.
    failed := SplitOff(fs, path, named, existing, contents, d);
  }

  /** What `write_file` may do to the file that was at `path`. */
  ghost predicate MayOverwrite(fs: FileSystem, from: nat, d: Disk, path: Name, existing: Metadata)
    reads fs
  {
    && existing.kind.Regular? && Current(d, path, existing)
    && (TrustedLink(fs, existing) || (!existing.linked && HadToBeInPlace(fs, from, existing)))
  }

  /** The file at `path`, if it may be written in place where it cannot be replaced. */
  ghost function Overwritable(fs: FileSystem, path: Name): Option<Metadata>
    reads fs
  {
    if IsRegular(fs.disk, path) && !fs.Linked(path, fs.disk.Entry(path).value) then
      var i := fs.disk.Entry(path).value;
      Some(Metadata(i, Regular, fs.disk.nodes[i].identity, false))
    else None
  }

  /** `write_file`: every state of the disk is atomic, or the file that is there is a regular one that is
      written in place for a reason, and then no other file changes. Once written the file is regular,
      holds exactly `contents`, and has the identity of the regular file it takes the place of. */
  method WriteFile(fs: FileSystem, dirs: ParentDirs, depth: nat, path: Name, named: bool, contents: Data)
    returns (failed: Option<ErrorKind>)
    requires fs.Traced()
    modifies fs, dirs
    ensures fs.Traced() && old(fs.trace) <= fs.trace && old(fs.failures) <= fs.failures
    ensures
      || AllAtomic(fs, |old(fs.trace)|, old(fs.disk), path, contents)
      || (exists existing: Metadata ::
            && existing.linked == old(fs.Linked(path, existing.inode))
            && MayOverwrite(fs, |old(fs.failures)|, old(fs.disk), path, existing)
            && ButSince(fs, |old(fs.trace)|, old(fs.disk), path, contents, existing.inode))
    ensures GuardedSince(fs, |old(fs.trace)|, old(fs.disk), IdentityAt(old(fs.disk), path))
    ensures Tidy(old(fs.disk), fs.disk, path, fs.failures, |old(fs.failures)|)
    ensures failed.None? && IsRegular(old(fs.disk), path) ==>
              && Holds(fs.disk, path, contents)
              && var was, now := old(fs.disk).Entry(path).value, fs.disk.Entry(path).value;
                 fs.disk.nodes[now].identity == old(fs.disk).nodes[was].identity
    ensures failed.None? && IsRegular(old(fs.disk), path) && old(fs.Linked(path, fs.disk.Entry(path).value))
            && OwnerOnlyDir(fs.dirMode, fs.dirUid, IdentityAt(old(fs.disk), path).value.uid)
            && !Denied(fs.failures, |old(fs.failures)|) ==>
              fs.disk.Entry(path) == old(fs.disk).Entry(path)
    ensures failed.None? && !IsRegular(old(fs.disk), path) ==> Written(fs, path, contents, None)
    ensures failed.None? && !CallFailed(fs.failures, |old(fs.failures)|, SyncDirectory) ==>
              fs.disk.Entry(path).Some? && fs.disk.Entry(path).value !in fs.disk.dirty
              && Lasts(old(fs.disk), fs.disk, path)
    ensures failed.None? && dirs.failures == old(dirs.failures) ==>
              dirs.made >= depth && dirs.unsynced <= old(dirs.unsynced)
    ensures failed.Some? ==>
              || FailedLast(dirs.failures, old(dirs.failures), CreateNew, failed.value)
              || (&& FailedLast(dirs.failures, old(dirs.failures), SyncDirectory, failed.value)
                  && failed.value !in {InvalidInput, Unsupported, PermissionDenied})
              || Excused(fs, |old(fs.failures)|, named, failed.value, old(Overwritable(fs, path)))
    ensures named && dirs.failures == old(dirs.failures)
            && (forall k | |old(fs.failures)| <= k < |fs.failures| :: fs.failures[k] == Failure(LinkStat, NotFound)) ==>
              failed.None? && Holds(fs.disk, path, contents)
  {
    failed := dirs.CreateDirAll(depth);
    if failed.Some? { return; }
    var found := fs.SymlinkMetadata(path);
    if found.Err? && found.error != NotFound {
      assert Fatal(fs, fs.failures[|old(fs.failures)|], old(Overwritable(fs, path)));
      return Some(found.error);
    }
    if found.Err? || !found.value.kind.Regular? {
      var replaced := Replace(fs, path, named, None, false, contents);
      if replaced.Err? { return Some(replaced.error); }
      assert replaced == Ok(replaced.value) && replaced.value;
      return None;
    }
    failed := WriteRegular(fs, path, named, found.value, contents);
    assert Current(old(fs.disk), path, found.value);
  }
}
