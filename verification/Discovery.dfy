/**
 * Workspace discovery: the `members` patterns of the root manifest are
 * expanded against the file system, and a manifest without members (or whose
 * members yield nothing) is read as a single package.
 */
module Discovery {
  import opened Wrappers
  import opened Strings
  import opened Toml
  import opened Manifest

  /** The components of a path written as text: empty and "." components vanish, a leading "/" is kept. */
  function Components(pattern: string): Path
  {
    (if |pattern| > 0 && pattern[0] == '/' then ["/"] else []) + NamedParts(Split(pattern, '/'))
  }

  /** `Path::join`: an absolute path replaces the base. */
  function JoinPath(base: Path, rel: Path): (p: Path)
    ensures |rel| > 0 && rel[0] == "/" ==> p == rel
    ensures !(|rel| > 0 && rel[0] == "/") ==> p == base + rel
  {
    if |rel| > 0 && rel[0] == "/" then rel else base + rel
  }

  /** The parent of a pattern; when it has none, the base itself. */
  function PatternParent(pattern: string): Path
  {
    var c := Components(pattern);
    if |c| > 0 then c[..|c| - 1] else []
  }

  function ManifestIn(dir: Path): Path
  {
    dir + [MANIFEST_FILE]
  }

  /** A package read, or nothing, as a list. */
  function AsList(r: Result<Package, PublishError>): Result<seq<Package>, PublishError>
  {
    match r
    case Ok(p) => Ok([p])
    case Err(e) => Err(e)
  }

  /** What one directory entry contributes: its manifest's package when it is a directory holding a `Cargo.toml`. */
  function EntryPackages(fs: FileSystem, path: Path): Result<seq<Package>, PublishError>
  {
    if IsDir(fs, path) && ManifestIn(path) in fs then AsList(ReadPackageManifest(fs, ManifestIn(path)))
    else Ok([])
  }

  /** The packages found under the entries of `dir`, in listing order; the first error stops the scan. */
  function EntriesPackages(fs: FileSystem, dir: Path, names: seq<string>): Result<seq<Package>, PublishError>
  {
    if |names| == 0 then Ok([])
    else match EntriesPackages(fs, dir, names[..|names| - 1])
      case Err(e) => Err(e)
      case Ok(ps) =>
        match EntryPackages(fs, dir + [names[|names| - 1]])
        case Err(e) => Err(e)
        case Ok(qs) => Ok(ps + qs)
  }

  /** What `expand_pattern` adds for one member pattern. */
  function Expansion(fs: FileSystem, base: Path, pattern: string): Result<seq<Package>, PublishError>
  {
    if '*' in pattern then
      var parent := JoinPath(base, PatternParent(pattern));
      if IsDir(fs, parent) then EntriesPackages(fs, parent, fs[parent].entries) else Ok([])
    else
      var manifest := ManifestIn(JoinPath(base, Components(pattern)));
      if manifest in fs then AsList(ReadPackageManifest(fs, manifest)) else Ok([])
  }

  /** The `workspace.members` array, or nothing. */
  function Members(doc: Value): seq<Value>
  {
    match Get(doc, "workspace")
    case Some(ws) =>
      (match Get(ws, "members")
       case Some(Array(items)) => items
       case _ => [])
    case None => []
  }

  /** The packages the members yield, member after member; members that are not strings are skipped. */
  function MembersPackages(fs: FileSystem, base: Path, members: seq<Value>): Result<seq<Package>, PublishError>
  {
    if |members| == 0 then Ok([])
    else match MembersPackages(fs, base, members[..|members| - 1])
      case Err(e) => Err(e)
      case Ok(ps) =>
        var m := members[|members| - 1];
        if !m.Str? then Ok(ps)
        else match Expansion(fs, base, m.s)
          case Err(e) => Err(e)
          case Ok(qs) => Ok(ps + qs)
  }

  /** The directory member patterns are resolved against: the root manifest's parent. */
  function WorkspaceBase(root: Path): Path
  {
    if |root| > 0 then root[..|root| - 1] else root
  }

  /** `discover_packages`: never an empty list. */
  function Discover(fs: FileSystem, root: Path): (r: Result<seq<Package>, PublishError>)
    ensures r.Ok? ==> |r.value| > 0
  {
    match ReadDocument(fs, root)
    case Err(e) => Err(e)
    case Ok(doc) =>
      match MembersPackages(fs, WorkspaceBase(root), Members(doc))
      case Err(e) => Err(e)
      case Ok(ps) => if |ps| > 0 then Ok(ps) else AsList(ReadPackageManifest(fs, root))
  }

  /** Adds a result to an already collected list, keeping an error. */
  function Then(ps: seq<Package>, r: Result<seq<Package>, PublishError>): Result<seq<Package>, PublishError>
  {
    match r
    case Ok(qs) => Ok(ps + qs)
    case Err(e) => Err(e)
  }

  /** Once the entry scan has failed, the later entries do not change the outcome. */
  lemma {:induction false} EntriesErrorSticks(fs: FileSystem, dir: Path, names: seq<string>, k: nat)
    requires k <= |names| && EntriesPackages(fs, dir, names[..k]).Err?
    ensures EntriesPackages(fs, dir, names) == EntriesPackages(fs, dir, names[..k])
    decreases |names| - k
  {
    if k < |names| {
      assert names[..k + 1][..k] == names[..k];
      EntriesErrorSticks(fs, dir, names, k + 1);
    } else {
      assert names[..k] == names;
    }
  }

  lemma {:induction false} MembersErrorSticks(fs: FileSystem, base: Path, members: seq<Value>, k: nat)
    requires k <= |members| && MembersPackages(fs, base, members[..k]).Err?
    ensures MembersPackages(fs, base, members) == MembersPackages(fs, base, members[..k])
    decreases |members| - k
  {
    if k < |members| {
      assert members[..k + 1][..k] == members[..k];
      MembersErrorSticks(fs, base, members, k + 1);
    } else {
      assert members[..k] == members;
    }
  }

  /** One more member: a non-string is skipped, a pattern's packages are appended. */
  lemma MembersStep(fs: FileSystem, base: Path, members: seq<Value>, k: nat, ps: seq<Package>)
    requires k < |members| && MembersPackages(fs, base, members[..k]) == Ok(ps)
    ensures MembersPackages(fs, base, members[..k + 1]) ==
            if members[k].Str? then Then(ps, Expansion(fs, base, members[k].s)) else Ok(ps)
  {
    assert members[..k + 1][..k] == members[..k];
  }

  /** `expand_pattern`: pushes the packages one member pattern yields. */
  method ExpandPattern(fs: FileSystem, base: Path, pattern: string, packages: seq<Package>)
    returns (r: Result<seq<Package>, PublishError>)
    ensures r == Then(packages, Expansion(fs, base, pattern))
  {
    if '*' in pattern {
      var parent := JoinPath(base, PatternParent(pattern));
      if IsDir(fs, parent) {
        var names := fs[parent].entries;
        var acc := packages;
        ghost var found: seq<Package> := [];
        for k := 0 to |names|
          invariant EntriesPackages(fs, parent, names[..k]) == Ok(found)
          invariant acc == packages + found
        {
          assert names[..k + 1][..k] == names[..k];
          assert found + [] == found;
          var path := parent + [names[k]];
          if IsDir(fs, path) {
            var manifest := ManifestIn(path);
            if manifest in fs {
              var p := ReadPackageManifest(fs, manifest);
              if p.Err? {
                EntriesErrorSticks(fs, parent, names, k + 1);
                return Err(p.error);
              }
              acc := acc + [p.value];
              found := found + [p.value];
            }
          }
        }
        assert names[..|names|] == names;
        return Ok(acc);
      }
      assert packages + [] == packages;
      return Ok(packages);
    } else {
      var manifest := ManifestIn(JoinPath(base, Components(pattern)));
      if manifest in fs {
        var p := ReadPackageManifest(fs, manifest);
        if p.Err? {
          return Err(p.error);
        }
        return Ok(packages + [p.value]);
      }
      assert packages + [] == packages;
      return Ok(packages);
    }
  }

  /** `discover_packages` */
  method DiscoverPackages(fs: FileSystem, root: Path) returns (r: Result<seq<Package>, PublishError>)
    ensures r == Discover(fs, root)
  {
    var doc := ReadDocument(fs, root);
    if doc.Err? {
      return Err(doc.error);
    }
    var members := Members(doc.value);
    var base := WorkspaceBase(root);
    var packages: seq<Package> := [];
    for k := 0 to |members|
      invariant MembersPackages(fs, base, members[..k]) == Ok(packages)
    {
      MembersStep(fs, base, members, k, packages);
      if members[k].Str? {
        var expanded := ExpandPattern(fs, base, members[k].s, packages);
        if expanded.Err? {
          MembersErrorSticks(fs, base, members, k + 1);
          return Err(expanded.error);
        }
        packages := expanded.value;
      }
    }
    assert members[..|members|] == members;
    if |packages| == 0 {
      var single := ReadPackageManifest(fs, root);
      if single.Err? {
        return Err(single.error);
      }
      packages := [single.value];
    }
    return Ok(packages);
  }

  /** With no string members, or members that yield nothing, the root manifest is the single package. */
  lemma SinglePackageMode(fs: FileSystem, root: Path)
    requires ReadDocument(fs, root).Ok?
    requires MembersPackages(fs, WorkspaceBase(root), Members(ReadDocument(fs, root).value)) == Ok([])
    ensures Discover(fs, root) == AsList(ReadPackageManifest(fs, root))
  {
  }

  /** A literal member whose directory has no `Cargo.toml` adds nothing and is no error. */
  lemma MissingMemberSkipped(fs: FileSystem, base: Path, pattern: string)
    requires '*' !in pattern
    requires ManifestIn(JoinPath(base, Components(pattern))) !in fs
    ensures Expansion(fs, base, pattern) == Ok([])
  {
  }

  /** The directories among the entries of `dir` that hold a `Cargo.toml`, in listing order. */
  function ManifestDirs(fs: FileSystem, dir: Path, names: seq<string>): seq<Path>
  {
    if |names| == 0 then []
    else
      var path := dir + [names[|names| - 1]];
      ManifestDirs(fs, dir, names[..|names| - 1])
      + (if IsDir(fs, path) && ManifestIn(path) in fs then [path] else [])
  }

  function Paths(ps: seq<Package>): (r: seq<Path>)
    ensures |r| == |ps|
    ensures forall i :: 0 <= i < |ps| ==> r[i] == ps[i].path
  {
    if |ps| == 0 then [] else Paths(ps[..|ps| - 1]) + [ps[|ps| - 1].path]
  }

  /**
   * A wildcard scan yields one package per entry directory holding a
   * `Cargo.toml`, located in that directory, in listing order; when it fails,
   * the error is that of reading one of those manifests.
   */
  lemma {:induction false} EntriesPackagesDirs(fs: FileSystem, dir: Path, names: seq<string>)
    ensures EntriesPackages(fs, dir, names).Ok? ==>
            Paths(EntriesPackages(fs, dir, names).value) == ManifestDirs(fs, dir, names)
    ensures EntriesPackages(fs, dir, names).Err? ==>
            exists d :: d in ManifestDirs(fs, dir, names) &&
                        ReadPackageManifest(fs, ManifestIn(d)) == Err(EntriesPackages(fs, dir, names).error)
  {
    if |names| > 0 {
      var init := names[..|names| - 1];
      var path := dir + [names[|names| - 1]];
      EntriesPackagesDirs(fs, dir, init);
      match EntriesPackages(fs, dir, init)
      case Err(e) =>
      case Ok(ps) =>
        if IsDir(fs, path) && ManifestIn(path) in fs {
          assert PackageDir(ManifestIn(path)) == path;
          match ReadPackageManifest(fs, ManifestIn(path))
          case Err(e) =>
            assert path in ManifestDirs(fs, dir, names);
          case Ok(p) =>
            assert Paths(ps + [p]) == Paths(ps) + [p.path];
        } else {
          assert ps + [] == ps;
        }
    }
  }

  /** The same for a `*` member pattern whose parent directory exists. */
  lemma WildcardMember(fs: FileSystem, base: Path, pattern: string)
    requires '*' in pattern
    requires IsDir(fs, JoinPath(base, PatternParent(pattern)))
    ensures var parent := JoinPath(base, PatternParent(pattern));
            Expansion(fs, base, pattern).Ok? ==>
            Paths(Expansion(fs, base, pattern).value) == ManifestDirs(fs, parent, fs[parent].entries)
  {
    var parent := JoinPath(base, PatternParent(pattern));
    EntriesPackagesDirs(fs, parent, fs[parent].entries);
  }
}
