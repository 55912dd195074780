/** The configuration files a path stands for: a directory's own files, then what it includes. */
module Includes {
  import opened Wrappers
  import opened DirScan

  type Folder = nat
  type Path = string

  /** What a path leads to. `Nowhere` is neither a file nor a directory there is. */
  datatype Place = Cicada | File | Directory(folder: Folder) | Nowhere

  /** A canonical directory: its entries, and the paths its include file lists. */
  datatype Listing = Unreadable | Listing(entries: seq<DirEntry>, includes: seq<Path>)

  /** `join` is the path of a name in a canonical directory. */
  datatype FileSystem = FileSystem(place: Path -> Place, folders: map<Folder, Listing>, cicada: bool,
                                   filter: Filter, join: (Folder, string) -> Path) {
    function PathsOf(folder: Folder, ms: seq<Match>): seq<Path> {
      seq(|ms|, i requires 0 <= i < |ms| => join(folder, ms[i].name))
    }

    /** The configuration files of a directory itself, in the order of the scan. */
    function Own(folder: Folder): seq<Path>
      requires folder in folders && folders[folder].Listing?
    {
      PathsOf(folder, Sorted(Matches(filter, folders[folder].entries)))
    }

    /** Every directory a path leads to is one of finitely many. */
    ghost predicate Closed() {
      forall p :: place(p).Directory? ==> place(p).folder in folders
    }
  }

  /** The error of a `cicada:` path without the feature. */
  datatype LoadError = CicadaDisabled(path: Path)

  function Before(own: seq<Path>, r: Result<seq<Path>, LoadError>): Result<seq<Path>, LoadError> {
    match r
    case Ok(files) => Ok(own + files)
    case Err(_) => r
  }

  /** The depth-first unfolding of a path, cut at directories on the include stack `visiting`. */
  function Unfolded(fs: FileSystem, visiting: set<Folder>, path: Path): Result<seq<Path>, LoadError>
    requires fs.Closed()
    decreases |fs.folders.Keys - visiting|, 1, 0
  {
    match fs.place(path)
    case Cicada => if fs.cicada then Ok([path]) else Err(CicadaDisabled(path))
    case File => Ok([path])
    case Nowhere => Ok([])
    case Directory(folder) =>
      if folder in visiting then Ok([])
      else
        Deeper(fs, visiting, folder);
        InFolder(fs, visiting + {folder}, folder)
  }

  /** The files of a directory, then those of its includes. */
  function InFolder(fs: FileSystem, visiting: set<Folder>, folder: Folder): Result<seq<Path>, LoadError>
    requires fs.Closed() && folder in fs.folders
    decreases |fs.folders.Keys - visiting|, 3, 0
  {
    match fs.folders[folder]
    case Unreadable => Ok([])
    case Listing(_, includes) => Before(fs.Own(folder), UnfoldedAll(fs, visiting, includes))
  }

  function UnfoldedAll(fs: FileSystem, visiting: set<Folder>, paths: seq<Path>): Result<seq<Path>, LoadError>
    requires fs.Closed()
    decreases |fs.folders.Keys - visiting|, 2, |paths|
  {
    if paths == [] then Ok([])
    else
      match Unfolded(fs, visiting, paths[0])
      case Err(e) => Err(e)
      case Ok(files) => Before(files, UnfoldedAll(fs, visiting, paths[1..]))
  }

  /** Entering a directory leaves fewer to enter. */
  lemma Deeper(fs: FileSystem, visiting: set<Folder>, folder: Folder)
    requires folder in fs.folders && folder !in visiting
    ensures |fs.folders.Keys - (visiting + {folder})| < |fs.folders.Keys - visiting|
  {
    assert fs.folders.Keys - visiting == (fs.folders.Keys - (visiting + {folder})) + {folder};
  }

  class Walk {
    var files: seq<Path>
    var visiting: set<Folder>

    constructor ()
      ensures files == [] && visiting == {}
    {
      files, visiting := [], {};
    }

    /** `load_config_files`: terminates on every include graph, appends the unfolding, and leaves
        `visiting` as it was. An error is the first one the unfolding meets. */
    method LoadConfigFiles(fs: FileSystem, path: Path) returns (r: Result<(), LoadError>)
      requires fs.Closed()
      modifies this
      ensures match Unfolded(fs, old(visiting), path)
              case Ok(more) => r.Ok? && files == old(files) + more && visiting == old(visiting)
              case Err(e) => r == Err(e)
      decreases |fs.folders.Keys - visiting|, 1
    {
      match fs.place(path) {
        case Cicada =>
          if !fs.cicada {
            return Err(CicadaDisabled(path));
          }
          files := files + [path];
          return Ok(());
        case File =>
          files := files + [path];
          return Ok(());
        case Nowhere => return Ok(());
        case Directory(folder) =>
          if folder in visiting {
            return Ok(());
          }
          Deeper(fs, visiting, folder);
          visiting := visiting + {folder};
          r := LoadFolder(fs, folder);
          if r.Ok? {
            visiting := visiting - {folder};
          }
      }
    }

    /** The scan of a directory. */
    static method OwnFiles(fs: FileSystem, folder: Folder) returns (own: seq<Path>)
      requires folder in fs.folders && fs.folders[folder].Listing?
      ensures own == fs.Own(folder)
    {
      var found := DirFiles(fs.filter, fs.folders[folder].entries);
      own := fs.PathsOf(folder, found);
    }

    /** A directory on the stack: its own files, then its includes. */
    method LoadFolder(fs: FileSystem, folder: Folder) returns (r: Result<(), LoadError>)
      requires fs.Closed() && folder in fs.folders
      modifies this
      ensures match InFolder(fs, old(visiting), folder)
              case Ok(more) => r.Ok? && files == old(files) + more && visiting == old(visiting)
              case Err(e) => r == Err(e)
      decreases |fs.folders.Keys - visiting|, 3
    {
      if fs.folders[folder].Unreadable? {
        return Ok(());
      }
      var own := OwnFiles(fs, folder);
      files := files + own;
      r := LoadAll(fs, fs.folders[folder].includes);
    }

    /** The includes of a directory, in order. */
    method LoadAll(fs: FileSystem, includes: seq<Path>) returns (r: Result<(), LoadError>)
      requires fs.Closed()
      modifies this
      ensures match UnfoldedAll(fs, old(visiting), includes)
              case Ok(more) => r.Ok? && files == old(files) + more && visiting == old(visiting)
              case Err(e) => r == Err(e)
      decreases |fs.folders.Keys - visiting|, 2
    {
      ghost var done: seq<Path> := [];
      assert includes[0..] == includes;
      BeforeTwice([], [], UnfoldedAll(fs, visiting, includes));
      for i := 0 to |includes|
        invariant visiting == old(visiting)
        invariant files == old(files) + done
        invariant UnfoldedAll(fs, visiting, includes) ==
                  Before(done, UnfoldedAll(fs, visiting, includes[i..]))
      {
        assert includes[i..][0] == includes[i] && includes[i..][1..] == includes[i + 1..];
        ghost var more := Unfolded(fs, visiting, includes[i]);
        r := LoadConfigFiles(fs, includes[i]);
        if r.Err? {
          return;
        }
        BeforeTwice(done, more.value, UnfoldedAll(fs, visiting, includes[i + 1..]));
        done := done + more.value;
      }
      return Ok(());
    }
  }

  lemma BeforeTwice(a: seq<Path>, b: seq<Path>, r: Result<seq<Path>, LoadError>)
    ensures Before(a, Before(b, r)) == Before(a + b, r)
    ensures Before([], r) == r
  {
    if r.Ok? {
      assert a + (b + r.value) == a + b + r.value;
      assert [] + r.value == r.value;
    }
  }

  // ------------------------------------------------------ what gets unfolded

  /** A chain of includes from its first path: each other path is listed by the directory before
      it, and no directory comes twice or is on the stack already. */
  ghost predicate Chain(fs: FileSystem, visiting: set<Folder>, chain: seq<Path>)
    requires fs.Closed()
    decreases |chain|
  {
    chain != [] &&
    (|chain| > 1 ==>
      && fs.place(chain[0]).Directory?
      && var folder := fs.place(chain[0]).folder;
         && folder !in visiting && fs.folders[folder].Listing?
         && chain[1] in fs.folders[folder].includes
         && Chain(fs, visiting + {folder}, chain[1..]))
  }

  /** The folders of the directories on the way to the end of a chain. */
  ghost function Passed(fs: FileSystem, chain: seq<Path>): set<Folder>
    requires chain != []
  {
    if |chain| == 1 then {}
    else
      var more := Passed(fs, chain[1..]);
      if fs.place(chain[0]).Directory? then more + {fs.place(chain[0]).folder} else more
  }

  /** The file is what the chain ends at, or one of the own files of the directory it ends at. */
  ghost predicate Yields(fs: FileSystem, visiting: set<Folder>, chain: seq<Path>, file: Path)
    requires fs.Closed() && chain != []
  {
    var last := chain[|chain| - 1];
    match fs.place(last)
    case Cicada => file == last
    case File => file == last
    case Nowhere => false
    case Directory(folder) =>
      folder !in visiting + Passed(fs, chain) &&
      fs.folders[folder].Listing? && file in fs.Own(folder)
  }

  ghost predicate Found(fs: FileSystem, visiting: set<Folder>, path: Path, file: Path)
    requires fs.Closed()
  {
    exists chain :: Chain(fs, visiting, chain) && chain[0] == path && Yields(fs, visiting, chain, file)
  }

  ghost predicate FoundBelow(fs: FileSystem, visiting: set<Folder>, paths: seq<Path>, file: Path)
    requires fs.Closed()
  {
    exists path :: path in paths && Found(fs, visiting, path, file)
  }

  lemma LongerChain(fs: FileSystem, visiting: set<Folder>, chain: seq<Path>, file: Path)
    requires fs.Closed() && |chain| > 1 && fs.place(chain[0]).Directory?
    ensures var folder := fs.place(chain[0]).folder;
            Yields(fs, visiting, chain, file) <==> Yields(fs, visiting + {folder}, chain[1..], file)
  {
  }

  /** A directory yields its own files, and what its includes do. */
  lemma DirectoryYields(fs: FileSystem, visiting: set<Folder>, path: Path, file: Path)
    requires fs.Closed() && fs.place(path).Directory?
    requires fs.place(path).folder !in visiting && fs.folders[fs.place(path).folder].Listing?
    ensures var folder := fs.place(path).folder;
            Found(fs, visiting, path, file) <==>
            file in fs.Own(folder) ||
            FoundBelow(fs, visiting + {folder}, fs.folders[folder].includes, file)
  {
    var folder := fs.place(path).folder;
    var includes := fs.folders[folder].includes;
    if file in fs.Own(folder) {
      assert Chain(fs, visiting, [path]) && Yields(fs, visiting, [path], file);
    }
    if FoundBelow(fs, visiting + {folder}, includes, file) {
      var next :| next in includes && Found(fs, visiting + {folder}, next, file);
      var chain :| Chain(fs, visiting + {folder}, chain) && chain[0] == next &&
                   Yields(fs, visiting + {folder}, chain, file);
      var longer := [path] + chain;
      assert longer[1..] == chain;
      LongerChain(fs, visiting, longer, file);
      assert Chain(fs, visiting, longer) && longer[0] == path;
    }
    if Found(fs, visiting, path, file) && file !in fs.Own(folder) {
      var chain :| Chain(fs, visiting, chain) && chain[0] == path && Yields(fs, visiting, chain, file);
      assert |chain| > 1;
      LongerChain(fs, visiting, chain, file);
      assert Found(fs, visiting + {folder}, chain[1], file);
    }
  }

  /** The files of an unfolding are exactly those some chain of includes without a repeated
      directory leads to. */
  lemma {:induction false} UnfoldedIsFound(fs: FileSystem, visiting: set<Folder>, path: Path, file: Path)
    requires fs.Closed() && Unfolded(fs, visiting, path).Ok?
    ensures file in Unfolded(fs, visiting, path).value <==> Found(fs, visiting, path, file)
    decreases |fs.folders.Keys - visiting|, 1, 0
  {
    var place := fs.place(path);
    if place.Directory? && place.folder !in visiting && fs.folders[place.folder].Listing? {
      DirectoryYields(fs, visiting, path, file);
      Deeper(fs, visiting, place.folder);
      UnfoldedAllIsFound(fs, visiting + {place.folder}, fs.folders[place.folder].includes, file);
    } else if place.File? || place.Cicada? {
      assert Chain(fs, visiting, [path]);
      assert Yields(fs, visiting, [path], path);
    }
  }

  lemma {:induction false} UnfoldedAllIsFound(fs: FileSystem, visiting: set<Folder>, paths: seq<Path>, file: Path)
    requires fs.Closed() && UnfoldedAll(fs, visiting, paths).Ok?
    ensures file in UnfoldedAll(fs, visiting, paths).value <==> FoundBelow(fs, visiting, paths, file)
    decreases |fs.folders.Keys - visiting|, 2, |paths|
  {
    if paths != [] {
      UnfoldedIsFound(fs, visiting, paths[0], file);
      UnfoldedAllIsFound(fs, visiting, paths[1..], file);
      assert paths == [paths[0]] + paths[1..];
    }
  }

  /** A chain from the path ends at a Cicada path, without the feature. */
  ghost predicate Refused(fs: FileSystem, visiting: set<Folder>, path: Path)
    requires fs.Closed()
  {
    !fs.cicada && exists chain :: Chain(fs, visiting, chain) && chain[0] == path
                                  && fs.place(chain[|chain| - 1]).Cicada?
  }

  ghost predicate RefusedBelow(fs: FileSystem, visiting: set<Folder>, paths: seq<Path>)
    requires fs.Closed()
  {
    exists path :: path in paths && Refused(fs, visiting, path)
  }

  lemma RefusedAbove(fs: FileSystem, visiting: set<Folder>, path: Path, next: Path)
    requires fs.Closed() && fs.place(path).Directory?
    requires fs.place(path).folder !in visiting && fs.folders[fs.place(path).folder].Listing?
    requires next in fs.folders[fs.place(path).folder].includes
    requires Refused(fs, visiting + {fs.place(path).folder}, next)
    ensures Refused(fs, visiting, path)
  {
    var chain :| Chain(fs, visiting + {fs.place(path).folder}, chain) && chain[0] == next
                 && fs.place(chain[|chain| - 1]).Cicada?;
    var longer := [path] + chain;
    assert longer[1..] == chain && longer[|longer| - 1] == chain[|chain| - 1];
    assert Chain(fs, visiting, longer) && longer[0] == path;
  }

  /** A directory is refused for one of its includes. */
  lemma DirectoryRefused(fs: FileSystem, visiting: set<Folder>, path: Path)
    requires fs.Closed() && fs.place(path).Directory?
    requires fs.place(path).folder !in visiting && fs.folders[fs.place(path).folder].Listing?
    ensures var folder := fs.place(path).folder;
            Refused(fs, visiting, path) <==>
            RefusedBelow(fs, visiting + {folder}, fs.folders[folder].includes)
  {
    var folder := fs.place(path).folder;
    if RefusedBelow(fs, visiting + {folder}, fs.folders[folder].includes) {
      var next :| next in fs.folders[folder].includes && Refused(fs, visiting + {folder}, next);
      RefusedAbove(fs, visiting, path, next);
    }
    if Refused(fs, visiting, path) {
      var chain :| Chain(fs, visiting, chain) && chain[0] == path && fs.place(chain[|chain| - 1]).Cicada?;
      assert |chain| > 1;
      assert chain[1..][|chain| - 2] == chain[|chain| - 1];
      assert Refused(fs, visiting + {folder}, chain[1]);
    }
  }

  /** An unfolding is an error if and only if some chain of includes without a repeated directory ends at a
      Cicada path, without the feature. */
  lemma {:induction false} ErrorIsRefused(fs: FileSystem, visiting: set<Folder>, path: Path)
    requires fs.Closed()
    ensures Unfolded(fs, visiting, path).Err? <==> Refused(fs, visiting, path)
    decreases |fs.folders.Keys - visiting|, 1, 0
  {
    var place := fs.place(path);
    if place.Directory? && place.folder !in visiting && fs.folders[place.folder].Listing? {
      DirectoryRefused(fs, visiting, path);
      Deeper(fs, visiting, place.folder);
      ErrorIsRefusedBelow(fs, visiting + {place.folder}, fs.folders[place.folder].includes);
    } else if place.Cicada? {
      assert Chain(fs, visiting, [path]) && [path][|[path]| - 1] == path;
    }
  }

  lemma {:induction false} ErrorIsRefusedBelow(fs: FileSystem, visiting: set<Folder>, paths: seq<Path>)
    requires fs.Closed()
    ensures UnfoldedAll(fs, visiting, paths).Err? <==> RefusedBelow(fs, visiting, paths)
    decreases |fs.folders.Keys - visiting|, 2, |paths|
  {
    if paths != [] {
      ErrorIsRefused(fs, visiting, paths[0]);
      ErrorIsRefusedBelow(fs, visiting, paths[1..]);
      assert paths == [paths[0]] + paths[1..];
    }
  }

  // ------------------------------------------------------- only cycles are cut

  /** A directory's own files are its entries that are configuration files, ordered by the last pattern each
      matches, then by name. */
  lemma OwnIsScanned(fs: FileSystem, folder: Folder)
    requires folder in fs.folders && fs.folders[folder].Listing?
    ensures exists ms :: InOrder(ms) && fs.Own(folder) == fs.PathsOf(folder, ms)
    ensures forall file ::
              file in fs.Own(folder) <==>
              exists e ::
              e in fs.folders[folder].entries && Priority(fs.filter, e).Some? && file == fs.join(folder, e.name)
  {
    var matches := Matches(fs.filter, fs.folders[folder].entries);
    var ms := Sorted(matches);
    SortedInOrder(matches);
    assert InOrder(ms) && fs.Own(folder) == fs.PathsOf(folder, ms);
    forall file
      ensures file in fs.Own(folder) <==>
              exists e ::
              e in fs.folders[folder].entries && Priority(fs.filter, e).Some? && file == fs.join(folder, e.name)
    {
      OwnFile(fs, folder, file);
    }
  }

  lemma OwnFile(fs: FileSystem, folder: Folder, file: Path)
    requires folder in fs.folders && fs.folders[folder].Listing?
    ensures file in fs.Own(folder) <==>
            exists e ::
              e in fs.folders[folder].entries && Priority(fs.filter, e).Some? && file == fs.join(folder, e.name)
  {
    var entries := fs.folders[folder].entries;
    PathIsMatched(fs, folder, Sorted(Matches(fs.filter, entries)), file);
    if file in fs.Own(folder) {
      var m :| m in Sorted(Matches(fs.filter, entries)) && file == fs.join(folder, m.name);
      MatchStays(fs.filter, entries, m);
      MatchOfEntry(fs.filter, entries, m);
    }
    if e :| e in entries && Priority(fs.filter, e).Some? && file == fs.join(folder, e.name) {
      var m := Match(Priority(fs.filter, e).value, e.name);
      MatchOfEntry(fs.filter, entries, m);
      MatchStays(fs.filter, entries, m);
    }
  }

  lemma PathIsMatched(fs: FileSystem, folder: Folder, ms: seq<Match>, file: Path)
    ensures file in fs.PathsOf(folder, ms) <==> exists m :: m in ms && file == fs.join(folder, m.name)
  {
    var paths := fs.PathsOf(folder, ms);
    if m :| m in ms && file == fs.join(folder, m.name) {
      var i :| 0 <= i < |ms| && ms[i] == m;
      assert paths[i] == file;
    }
  }

  lemma MatchStays(f: Filter, entries: seq<DirEntry>, m: Match)
    ensures m in Sorted(Matches(f, entries)) <==> m in Matches(f, entries)
  {
    var ms := Matches(f, entries);
    SortedInOrder(ms);
    assert m in multiset(ms) <==> m in multiset(Sorted(ms));
  }

  /** No directory includes itself, directly or not: `rank` falls along every include. */
  ghost predicate Acyclic(fs: FileSystem, rank: Folder -> nat)
    requires fs.Closed()
  {
    forall folder, path | folder in fs.folders && fs.folders[folder].Listing?
                          && path in fs.folders[folder].includes ::
      fs.place(path).Directory? ==> rank(fs.place(path).folder) < rank(folder)
  }

  ghost function Height(fs: FileSystem, rank: Folder -> nat, path: Path): nat {
    match fs.place(path) case Directory(folder) => rank(folder) + 1 case _ => 0
  }

  /** The unfolding without any stack: every include, each time. */
  ghost function Plain(fs: FileSystem, rank: Folder -> nat, path: Path): Result<seq<Path>, LoadError>
    requires fs.Closed() && Acyclic(fs, rank)
    decreases Height(fs, rank, path), 1, 0
  {
    match fs.place(path)
    case Cicada => if fs.cicada then Ok([path]) else Err(CicadaDisabled(path))
    case File => Ok([path])
    case Nowhere => Ok([])
    case Directory(folder) =>
      match fs.folders[folder]
      case Unreadable => Ok([])
      case Listing(_, includes) => Before(fs.Own(folder), PlainAll(fs, rank, rank(folder), includes))
  }

  ghost function PlainAll(fs: FileSystem, rank: Folder -> nat, bound: nat, paths: seq<Path>)
    : Result<seq<Path>, LoadError>
    requires fs.Closed() && Acyclic(fs, rank)
    requires forall p :: p in paths ==> Height(fs, rank, p) <= bound
    decreases bound, 2, |paths|
  {
    if paths == [] then Ok([])
    else
      match Plain(fs, rank, paths[0])
      case Err(e) => Err(e)
      case Ok(files) => Before(files, PlainAll(fs, rank, bound, paths[1..]))
  }

  /** Without include cycles the stack cuts nothing: a directory included several times is unfolded
      each time. */
  lemma {:induction false} OnlyCyclesAreCut(fs: FileSystem, rank: Folder -> nat, visiting: set<Folder>, path: Path)
    requires fs.Closed() && Acyclic(fs, rank)
    requires forall v :: v in visiting ==> Height(fs, rank, path) <= rank(v)
    ensures Unfolded(fs, visiting, path) == Plain(fs, rank, path)
    decreases Height(fs, rank, path), 1, 0
  {
    var place := fs.place(path);
    if place.Directory? && fs.folders[place.folder].Listing? {
      OnlyCyclesAreCutBelow(fs, rank, rank(place.folder), visiting + {place.folder},
                            fs.folders[place.folder].includes);
    }
  }

  lemma {:induction false} OnlyCyclesAreCutBelow(fs: FileSystem, rank: Folder -> nat, bound: nat,
                                                 visiting: set<Folder>, paths: seq<Path>)
    requires fs.Closed() && Acyclic(fs, rank)
    requires forall p :: p in paths ==> Height(fs, rank, p) <= bound
    requires forall v :: v in visiting ==> bound <= rank(v)
    ensures UnfoldedAll(fs, visiting, paths) == PlainAll(fs, rank, bound, paths)
    decreases bound, 2, |paths|
  {
    if paths != [] {
      OnlyCyclesAreCut(fs, rank, visiting, paths[0]);
      OnlyCyclesAreCutBelow(fs, rank, bound, visiting, paths[1..]);
    }
  }
}
