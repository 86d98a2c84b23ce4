/**
 * The publish command's view of one package: reading a `Cargo.toml` from an
 * abstract file system and picking out the dependencies that live in the same
 * workspace.
 */
module Manifest {
  import opened Wrappers
  import opened Toml

  /** A file-system path as its list of components; an absolute path starts with "/". */
  type Path = seq<string>

  /** `Package` */
  datatype Package = Package(name: string, version: string, path: Path, localDependencies: seq<string>)

  /** `PublishError` */
  datatype PublishError = ManifestParseError | CircularDependency | IoError

  /** What reading a file and parsing it as TOML gives. */
  datatype FileContent = Unreadable | Malformed | Parsed(doc: Value)

  /** A directory lists its entries in `read_dir` order. */
  datatype Node = Directory(entries: seq<string>) | File(content: FileContent)

  type FileSystem = map<Path, Node>

  const MANIFEST_FILE: string := "Cargo.toml"

  /** The dependency tables scanned, in scan order. */
  const DEPENDENCY_SECTIONS: seq<string> := ["dependencies", "dev-dependencies", "build-dependencies"]

  predicate IsDir(fs: FileSystem, p: Path)
  {
    p in fs && fs[p].Directory?
  }

  /** `read_to_string` then `toml::from_str`. */
  function ReadDocument(fs: FileSystem, p: Path): (r: Result<Value, PublishError>)
    ensures r == Err(IoError) <==> !(p in fs && fs[p].File? && fs[p].content != Unreadable)
    ensures r == Err(ManifestParseError) <==> p in fs && fs[p] == File(Malformed)
    ensures r.Ok? <==> p in fs && fs[p].File? && fs[p].content.Parsed?
  {
    if p !in fs || fs[p].Directory? then Err(IoError)
    else match fs[p].content
      case Unreadable => Err(IoError)
      case Malformed => Err(ManifestParseError)
      case Parsed(doc) => Ok(doc)
  }

  /**
   * A dependency entry is local when its value is a table holding a `path`
   * key, whatever its value, or a `workspace` key whose value is `true`.
   */
  predicate IsLocal(v: Value)
  {
    v.Table? && (Lookup(v.entries, "path").Some? || Lookup(v.entries, "workspace") == Some(Boolean(true)))
  }

  /** The entries of the table under `section`, or none when it is absent or not a table. */
  function SectionEntries(doc: Value, section: string): seq<(string, Value)>
  {
    match Get(doc, section)
    case Some(Table(entries)) => entries
    case _ => []
  }

  /** The names of the local entries, in table order. */
  function LocalNames(entries: seq<(string, Value)>): (names: seq<string>)
    ensures |names| <= |entries|
  {
    if |entries| == 0 then []
    else
      var last := entries[|entries| - 1];
      LocalNames(entries[..|entries| - 1]) + (if IsLocal(last.1) then [last.0] else [])
  }

  /** The local names of the given sections, section after section. */
  function SectionsLocalNames(doc: Value, sections: seq<string>): seq<string>
  {
    if |sections| == 0 then []
    else
      SectionsLocalNames(doc, sections[..|sections| - 1])
      + LocalNames(SectionEntries(doc, sections[|sections| - 1]))
  }

  /** The names `extract_local_dependencies` collects. */
  function LocalDependencies(doc: Value): seq<string>
  {
    SectionsLocalNames(doc, DEPENDENCY_SECTIONS)
  }

  /** A name is collected from a table exactly when some entry with that name is local. */
  lemma {:induction false} LocalNamesMember(entries: seq<(string, Value)>, d: string)
    ensures d in LocalNames(entries) <==>
            exists i :: 0 <= i < |entries| && entries[i].0 == d && IsLocal(entries[i].1)
  {
    if |entries| > 0 {
      var init := entries[..|entries| - 1];
      LocalNamesMember(init, d);
      assert forall i :: 0 <= i < |init| ==> init[i] == entries[i];
    }
  }

  /**
   * The three sections in scan order, with nothing from any other table, and
   * no name removed when it appears as local in several sections.
   */
  lemma LocalDependenciesSections(doc: Value)
    ensures LocalDependencies(doc) ==
            LocalNames(SectionEntries(doc, "dependencies"))
            + LocalNames(SectionEntries(doc, "dev-dependencies"))
            + LocalNames(SectionEntries(doc, "build-dependencies"))
  {
    var s := DEPENDENCY_SECTIONS;
    assert s[..2][..1] == s[..1] == ["dependencies"];
    assert s[..1][..0] == [];
    assert SectionsLocalNames(doc, s[..1]) == LocalNames(SectionEntries(doc, "dependencies"));
    assert SectionsLocalNames(doc, s[..2]) ==
           SectionsLocalNames(doc, s[..1]) + LocalNames(SectionEntries(doc, "dev-dependencies"));
    assert SectionsLocalNames(doc, s) ==
           SectionsLocalNames(doc, s[..2]) + LocalNames(SectionEntries(doc, "build-dependencies"));
  }

  /**
   * A name is a local dependency exactly when one of the three sections has a
   * local entry under that name; in particular a plain version string never is.
   */
  lemma LocalDependencyMember(doc: Value, d: string)
    ensures d in LocalDependencies(doc) <==>
            exists k, i :: 0 <= k < 3 && 0 <= i < |SectionEntries(doc, DEPENDENCY_SECTIONS[k])|
                        && SectionEntries(doc, DEPENDENCY_SECTIONS[k])[i].0 == d
                        && IsLocal(SectionEntries(doc, DEPENDENCY_SECTIONS[k])[i].1)
  {
    var s := DEPENDENCY_SECTIONS;
    LocalDependenciesSections(doc);
    assert s[0] == "dependencies" && s[1] == "dev-dependencies" && s[2] == "build-dependencies";
    if d in LocalDependencies(doc) {
      var k: nat := if d in LocalNames(SectionEntries(doc, s[0])) then 0
                    else if d in LocalNames(SectionEntries(doc, s[1])) then 1 else 2;
      LocalNamesMember(SectionEntries(doc, s[k]), d);
      var i :| 0 <= i < |SectionEntries(doc, s[k])| && SectionEntries(doc, s[k])[i].0 == d
                && IsLocal(SectionEntries(doc, s[k])[i].1);
    } else {
      forall k, i | 0 <= k < 3 && 0 <= i < |SectionEntries(doc, s[k])| && SectionEntries(doc, s[k])[i].0 == d
        ensures !IsLocal(SectionEntries(doc, s[k])[i].1)
      {
        assert d !in LocalNames(SectionEntries(doc, s[k])) by {
          assert k == 0 || k == 1 || k == 2;
        }
        LocalNamesMember(SectionEntries(doc, s[k]), d);
      }
    }
  }

  /** Multiplicities add up across the sections: a name local in two sections is listed twice. */
  lemma LocalDependenciesKeepDuplicates(doc: Value, d: string)
    ensures multiset(LocalDependencies(doc))[d] ==
            multiset(LocalNames(SectionEntries(doc, "dependencies")))[d]
            + multiset(LocalNames(SectionEntries(doc, "dev-dependencies")))[d]
            + multiset(LocalNames(SectionEntries(doc, "build-dependencies")))[d]
  {
    LocalDependenciesSections(doc);
  }

  /** `extract_local_dependencies`: the table loops over the three sections. */
  method ExtractLocalDependencies(doc: Value) returns (deps: seq<string>)
    ensures deps == LocalDependencies(doc)
  {
    deps := [];
    for k := 0 to |DEPENDENCY_SECTIONS|
      invariant deps == SectionsLocalNames(doc, DEPENDENCY_SECTIONS[..k])
    {
      var section := DEPENDENCY_SECTIONS[k];
      var entries := SectionEntries(doc, section);
      ghost var before := deps;
      for i := 0 to |entries|
        invariant deps == before + LocalNames(entries[..i])
      {
        assert entries[..i + 1][..i] == entries[..i];
        if IsLocal(entries[i].1) {
          deps := deps + [entries[i].0];
        }
      }
      assert entries[..|entries|] == entries;
      assert DEPENDENCY_SECTIONS[..k + 1][..k] == DEPENDENCY_SECTIONS[..k];
    }
    assert DEPENDENCY_SECTIONS[..|DEPENDENCY_SECTIONS|] == DEPENDENCY_SECTIONS;
  }

  /** The directory of a manifest: its parent, or "." when the parent is empty. */
  function PackageDir(manifest: Path): (dir: Path)
    ensures |dir| > 0
    ensures |manifest| > 1 ==> dir + [manifest[|manifest| - 1]] == manifest
    ensures |manifest| <= 1 ==> dir == ["."]
  {
    if |manifest| <= 1 then ["."] else manifest[..|manifest| - 1]
  }

  /** `read_package_manifest` */
  function ReadPackageManifest(fs: FileSystem, manifest: Path): (r: Result<Package, PublishError>)
    ensures r.Err? ==> r.error == IoError || r.error == ManifestParseError
    ensures r == Err(IoError) <==> ReadDocument(fs, manifest) == Err(IoError)
    ensures r == Err(ManifestParseError) <==>
            ReadDocument(fs, manifest) == Err(ManifestParseError)
            || (ReadDocument(fs, manifest).Ok? &&
                var doc := ReadDocument(fs, manifest).value;
                var pkg := Get(doc, "package");
                pkg.None? || AsStr(Get(pkg.value, "name")).None? || AsStr(Get(pkg.value, "version")).None?)
    ensures r.Ok? ==>
            var doc := ReadDocument(fs, manifest).value;
            var pkg := Get(doc, "package").value;
            && Get(pkg, "name") == Some(Str(r.value.name))
            && Get(pkg, "version") == Some(Str(r.value.version))
            && r.value.path == PackageDir(manifest)
            && r.value.localDependencies == LocalDependencies(doc)
  {
    match ReadDocument(fs, manifest)
    case Err(e) => Err(e)
    case Ok(doc) =>
      match Get(doc, "package")
      case None => Err(ManifestParseError)
      case Some(pkg) =>
        match (AsStr(Get(pkg, "name")), AsStr(Get(pkg, "version")))
        case (Some(name), Some(version)) => Ok(Package(name, version, PackageDir(manifest), LocalDependencies(doc)))
        case _ => Err(ManifestParseError)
  }
}
