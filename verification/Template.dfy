/**
 * `template`: scaffolding one component of a hyperlane application under
 * `./application/<kind>/<name>`. The kinds and their directory names, the
 * case-insensitive parsing of those names, the text of each generated
 * `mod.rs`, the files each kind creates, and `execute_template` run against
 * a model of the disk.
 */
module Template {
  import opened Wrappers
  import opened Strings

  /** The kinds of component the tool can generate. */
  datatype TemplateType = Controller | Domain | Exception | Mapper | Model | Repository | Service | Utils | View

  /** Where a model component goes: its sub-directory under the model's own directory. */
  datatype ModelSubType = Application | Request | Response

  /** `TemplateError`; an I/O error carries the path whose creation or write was refused. */
  datatype TemplateError =
    | IoError(path: string)
    | InvalidTemplateType(input: string)
    | InvalidModelSubType(input: string)
    | DirectoryExists(path: string)

  /** `get_directory_name`: the lower-case directory each kind lives in. */
  function DirectoryName(t: TemplateType): (name: string)
    ensures |name| > 0 && IsLowerAscii(name) && '/' !in name
  {
    match t
    case Controller => "controller"
    case Domain => "domain"
    case Exception => "exception"
    case Mapper => "mapper"
    case Model => "model"
    case Repository => "repository"
    case Service => "service"
    case Utils => "utils"
    case View => "view"
  }

  /** No two kinds share a directory. */
  lemma DirectoryNameInjective(a: TemplateType, b: TemplateType)
    ensures DirectoryName(a) == DirectoryName(b) ==> a == b
  {
    if DirectoryName(a) == DirectoryName(b) {
      assert DirectoryName(a)[0] == DirectoryName(b)[0];
      assert DirectoryName(a)[1] == DirectoryName(b)[1];
    }
  }

  /** `get_model_sub_type_name` */
  function ModelSubTypeName(m: ModelSubType): (name: string)
    ensures |name| > 0 && IsLowerAscii(name) && '/' !in name
  {
    match m
    case Application => "application"
    case Request => "request"
    case Response => "response"
  }

  lemma ModelSubTypeNameInjective(a: ModelSubType, b: ModelSubType)
    ensures ModelSubTypeName(a) == ModelSubTypeName(b) ==> a == b
  {
    if ModelSubTypeName(a) == ModelSubTypeName(b) {
      assert ModelSubTypeName(a)[0] == ModelSubTypeName(b)[0];
    }
  }

  /**
   * `TemplateType::from_str`: the input, lower-cased, must be one of the nine
   * directory names; any other input is refused with the input as given.
   */
  function TemplateTypeFromStr(s: string): (r: Result<TemplateType, TemplateError>)
    ensures r.Ok? ==> ToLowerAscii(s) == DirectoryName(r.value)
    ensures (exists t :: ToLowerAscii(s) == DirectoryName(t)) ==> r.Ok?
    ensures r.Err? ==> r.error == InvalidTemplateType(s)
  {
    var lower := ToLowerAscii(s);
    if lower == "controller" then Ok(Controller)
    else if lower == "domain" then Ok(Domain)
    else if lower == "exception" then Ok(Exception)
    else if lower == "mapper" then Ok(Mapper)
    else if lower == "model" then Ok(Model)
    else if lower == "repository" then Ok(Repository)
    else if lower == "service" then Ok(Service)
    else if lower == "utils" then Ok(Utils)
    else if lower == "view" then Ok(View)
    else Err(InvalidTemplateType(s))
  }

  /** `ModelSubType::from_str`, in the same way over the three sub-directory names. */
  function ModelSubTypeFromStr(s: string): (r: Result<ModelSubType, TemplateError>)
    ensures r.Ok? ==> ToLowerAscii(s) == ModelSubTypeName(r.value)
    ensures (exists m :: ToLowerAscii(s) == ModelSubTypeName(m)) ==> r.Ok?
    ensures r.Err? ==> r.error == InvalidModelSubType(s)
  {
    var lower := ToLowerAscii(s);
    if lower == "application" then Ok(Application)
    else if lower == "request" then Ok(Request)
    else if lower == "response" then Ok(Response)
    else Err(InvalidModelSubType(s))
  }

  /** Lower-casing twice is lower-casing once. */
  lemma ToLowerAsciiIdempotent(s: string)
    ensures ToLowerAscii(ToLowerAscii(s)) == ToLowerAscii(s)
  {
    var l := ToLowerAscii(s);
    assert IsLowerAscii(l);
    ToLowerAsciiFixed(l);
  }

  /** Every kind's directory name parses back to that kind. */
  lemma TemplateTypeRoundTrip(t: TemplateType)
    ensures TemplateTypeFromStr(DirectoryName(t)) == Ok(t)
  {
    ToLowerAsciiFixed(DirectoryName(t));
    var r := TemplateTypeFromStr(DirectoryName(t));
    DirectoryNameInjective(r.value, t);
  }

  lemma ModelSubTypeRoundTrip(m: ModelSubType)
    ensures ModelSubTypeFromStr(ModelSubTypeName(m)) == Ok(m)
  {
    ToLowerAsciiFixed(ModelSubTypeName(m));
    var r := ModelSubTypeFromStr(ModelSubTypeName(m));
    ModelSubTypeNameInjective(r.value, m);
  }

  /**
   * Parsing ignores ASCII case: two inputs that agree once lower-cased are
   * both accepted as the same kind, or both refused.
   */
  lemma TemplateTypeIgnoresCase(s: string, s': string)
    requires ToLowerAscii(s) == ToLowerAscii(s')
    ensures TemplateTypeFromStr(s).Ok? == TemplateTypeFromStr(s').Ok?
    ensures TemplateTypeFromStr(s).Ok? ==> TemplateTypeFromStr(s).value == TemplateTypeFromStr(s').value
  {
    var r, r' := TemplateTypeFromStr(s), TemplateTypeFromStr(s');
    if r.Ok? {
      DirectoryNameInjective(r.value, r'.value);
    }
  }

  lemma ModelSubTypeIgnoresCase(s: string, s': string)
    requires ToLowerAscii(s) == ToLowerAscii(s')
    ensures ModelSubTypeFromStr(s).Ok? == ModelSubTypeFromStr(s').Ok?
    ensures ModelSubTypeFromStr(s).Ok? ==> ModelSubTypeFromStr(s).value == ModelSubTypeFromStr(s').value
  {
    var r, r' := ModelSubTypeFromStr(s), ModelSubTypeFromStr(s');
    if r.Ok? {
      ModelSubTypeNameInjective(r.value, r'.value);
    }
  }

  /** The kind names in any case are accepted; the empty name and unknown names are refused. */
  lemma FromStrExamples()
    ensures TemplateTypeFromStr("CONTROLLER") == Ok(Controller)
    ensures TemplateTypeFromStr("Controller") == Ok(Controller)
    ensures TemplateTypeFromStr("") == Err(InvalidTemplateType(""))
    ensures TemplateTypeFromStr("invalid") == Err(InvalidTemplateType("invalid"))
  {
    assert ToLowerAscii("CONTROLLER") == "controller";
    assert ToLowerAscii("Controller") == "controller";
    assert ToLowerAscii("invalid") == "invalid";
  }

  /** The model sub-types are read the same way. */
  lemma SubTypeFromStrExamples()
    ensures ModelSubTypeFromStr("APPLICATION") == Ok(Application)
    ensures ModelSubTypeFromStr("unknown") == Err(InvalidModelSubType("unknown"))
  {
    assert ToLowerAscii("APPLICATION") == "application";
    assert ToLowerAscii("unknown") == "unknown";
  }

  /** `TemplateConfig` */
  datatype TemplateConfig = TemplateConfig(
    templateType: TemplateType,
    componentName: string,
    modelSubType: Option<ModelSubType>,
    baseDirectory: string)

  /** `TemplateConfig::new`: the arguments kept as given, under the fixed base directory `./application`. */
  function NewTemplateConfig(t: TemplateType, componentName: string, sub: Option<ModelSubType>): (c: TemplateConfig)
    ensures c.templateType == t && c.componentName == componentName && c.modelSubType == sub
    ensures c.baseDirectory == "./application"
  {
    TemplateConfig(t, componentName, sub, "./application")
  }

  // ---------------------------------------------------------------------
  // The text of `mod.rs`

  /** The text every generated file other than `mod.rs` holds. */
  const UseSuper: string := "use super::*;\n"

  /** A module name as a raw identifier: `r#` put in front unless it is already there. */
  function RawIdent(m: string): string
  {
    if StartsWith(m, "r#") then m else "r#" + m
  }

  /** A module name without its `r#`, as `strip_prefix("r#")` gives it. */
  function StripRaw(m: string): string
  {
    if StartsWith(m, "r#") then m[2..] else m
  }

  /** The raw identifier is the bare name behind exactly one `r#`, so the prefix is never doubled. */
  lemma RawIdentNotDoubled(m: string)
    ensures RawIdent(m) == "r#" + StripRaw(m)
    ensures RawIdent(RawIdent(m)) == RawIdent(m)
    ensures StripRaw(RawIdent(m)) == StripRaw(m)
  {
    if StartsWith(m, "r#") {
      assert m == m[..2] + m[2..];
    } else {
      assert StartsWith("r#" + m, "r#");
      assert ("r#" + m)[2..] == m;
    }
  }

  /** The line declaring one module. */
  function DeclLine(m: string): string
  {
    "mod " + RawIdent(m) + ";"
  }

  /** One declaration line per module, in the order given. */
  function DeclLines(modules: seq<string>): (lines: seq<string>)
    ensures |lines| == |modules|
    ensures forall i :: 0 <= i < |modules| ==> lines[i] == DeclLine(modules[i])
  {
    seq(|modules|, i requires 0 <= i < |modules| => DeclLine(modules[i]))
  }

  /** Declaring one more module adds its line to the end. */
  lemma DeclsSnoc(modules: seq<string>, i: nat)
    requires i < |modules|
    ensures ConcatLines(DeclLines(modules[..i + 1])) == ConcatLines(DeclLines(modules[..i])) + ("mod " + RawIdent(modules[i]) + ";\n")
  {
    var line := DeclLine(modules[i]);
    assert DeclLines(modules[..i + 1]) == DeclLines(modules[..i]) + [line];
    ConcatLinesAppend(DeclLines(modules[..i]), [line]);
    assert [line][1..] == [];
  }

  /**
   * What one module contributes to the `pub use` list: constants, statics
   * and structs by name, enums and functions with a glob, anything else
   * (`impl`) nothing.
   */
  function PubUseItem(m: string): Option<string>
  {
    var raw := StripRaw(m);
    if raw == "const" || raw == "static" then Some(RawIdent(m))
    else if raw == "enum" || raw == "fn" then Some(RawIdent(m) + "::*")
    else if raw == "struct" then Some(RawIdent(m))
    else None
  }

  function ItemList(item: Option<string>): seq<string>
  {
    match item
    case Some(x) => [x]
    case None => []
  }

  /** The `pub use` items of the modules, in their order. */
  function PubUseParts(modules: seq<string>): seq<string>
  {
    if |modules| == 0 then []
    else PubUseParts(modules[..|modules| - 1]) + ItemList(PubUseItem(modules[|modules| - 1]))
  }

  lemma PubUsePartsSnoc(modules: seq<string>, i: nat)
    requires i < |modules|
    ensures PubUseParts(modules[..i + 1]) == PubUseParts(modules[..i]) + ItemList(PubUseItem(modules[i]))
  {
    assert modules[..i + 1][..i] == modules[..i];
  }

  lemma {:induction false} PubUsePartsSound(modules: seq<string>, x: string)
    requires x in PubUseParts(modules)
    ensures exists i :: 0 <= i < |modules| && PubUseItem(modules[i]) == Some(x)
    decreases |modules|
  {
    var init := modules[..|modules| - 1];
    if x in PubUseParts(init) {
      PubUsePartsSound(init, x);
      var i :| 0 <= i < |init| && PubUseItem(init[i]) == Some(x);
      assert init[i] == modules[i];
    } else {
      assert PubUseItem(modules[|modules| - 1]) == Some(x);
    }
  }

  lemma {:induction false} PubUsePartsComplete(modules: seq<string>, i: nat, x: string)
    requires i < |modules| && PubUseItem(modules[i]) == Some(x)
    ensures x in PubUseParts(modules)
    decreases |modules|
  {
    var init := modules[..|modules| - 1];
    if i < |modules| - 1 {
      assert init[i] == modules[i];
      PubUsePartsComplete(init, i, x);
    }
  }

  /** An item is listed exactly when some module contributes it. */
  lemma PubUsePartsMembers(modules: seq<string>, x: string)
    ensures x in PubUseParts(modules) <==> exists i :: 0 <= i < |modules| && PubUseItem(modules[i]) == Some(x)
  {
    if x in PubUseParts(modules) {
      PubUsePartsSound(modules, x);
    }
    if exists i :: 0 <= i < |modules| && PubUseItem(modules[i]) == Some(x) {
      var i :| 0 <= i < |modules| && PubUseItem(modules[i]) == Some(x);
      PubUsePartsComplete(modules, i, x);
    }
  }

  /** The `pub use { ... };` line, present only when some module is re-exported. */
  function PubUseLine(modules: seq<string>): seq<string>
  {
    var parts := PubUseParts(modules);
    if |parts| == 0 then [] else ["pub use {" + JoinText(parts, ", ") + "};"]
  }

  /**
   * The lines of a generated `mod.rs`: one declaration per module, a blank
   * line, the `pub use` line when there is one, a blank line, and
   * `use super::*;`.
   */
  function ModRsLines(modules: seq<string>): seq<string>
  {
    DeclLines(modules) + [""] + PubUseLine(modules) + ["", "use super::*;"]
  }

  /** The text `write_mod_rs` writes: each of those lines ended by `\n`. */
  function ModRsContent(modules: seq<string>): string
  {
    ConcatLines(ModRsLines(modules))
  }

  lemma DeclLinesOneLine(modules: seq<string>)
    requires NoLineBreaks(modules)
    ensures NoLineBreaks(DeclLines(modules))
  {
    forall i | 0 <= i < |modules|
      ensures '\n' !in DeclLine(modules[i])
    {
      RawIdentNotDoubled(modules[i]);
    }
  }

  lemma PubUseItemOneLine(m: string)
    requires '\n' !in m
    ensures PubUseItem(m).Some? ==> '\n' !in PubUseItem(m).value
  {
    RawIdentNotDoubled(m);
  }

  lemma {:induction false} PubUsePartsOneLine(modules: seq<string>)
    requires NoLineBreaks(modules)
    ensures NoLineBreaks(PubUseParts(modules))
    decreases |modules|
  {
    if |modules| > 0 {
      var init := modules[..|modules| - 1];
      var last := modules[|modules| - 1];
      assert NoLineBreaks(init) by {
        forall i | 0 <= i < |init|
          ensures '\n' !in init[i]
        {
          assert init[i] == modules[i];
        }
      }
      PubUsePartsOneLine(init);
      PubUseItemOneLine(last);
      NoLineBreaksAppend(PubUseParts(init), ItemList(PubUseItem(last)));
    }
  }

  lemma PubUseLineOneLine(modules: seq<string>)
    requires NoLineBreaks(modules)
    ensures NoLineBreaks(PubUseLine(modules))
  {
    var parts := PubUseParts(modules);
    PubUsePartsOneLine(modules);
    if |parts| > 0 {
      JoinTextHasNo(parts, ", ", '\n');
    }
  }

  /** No line of `mod.rs` breaks, given module names without line breaks. */
  lemma ModRsLinesOneLine(modules: seq<string>)
    requires NoLineBreaks(modules)
    ensures NoLineBreaks(ModRsLines(modules))
  {
    DeclLinesOneLine(modules);
    PubUseLineOneLine(modules);
    NoLineBreaksAppend(DeclLines(modules), [""]);
    NoLineBreaksAppend(DeclLines(modules) + [""], PubUseLine(modules));
    NoLineBreaksAppend(DeclLines(modules) + [""] + PubUseLine(modules), ["", "use super::*;"]);
  }

  /** Reading `mod.rs` back line by line gives exactly its lines, with nothing after the final line break. */
  lemma ModRsSplit(modules: seq<string>)
    requires NoLineBreaks(modules)
    ensures Split(ModRsContent(modules), '\n') == ModRsLines(modules) + [""]
  {
    ModRsLinesOneLine(modules);
    SplitConcatLines(ModRsLines(modules), "");
    SplitNone("", '\n');
    assert ModRsContent(modules) + "" == ModRsContent(modules);
  }

  lemma DeclLineStartsMod(m: string)
    ensures StartsWith(DeclLine(m), "mod ")
  {
    assert DeclLine(m)[..4] == "mod ";
  }

  /** The blank lines, the `pub use` line and the `use super::*;` line do not declare a module. */
  lemma OtherLinesNotMod(modules: seq<string>, line: string)
    requires line in PubUseLine(modules) || line == "" || line == "use super::*;"
    ensures !StartsWith(line, "mod ")
  {
    assert |line| > 0 ==> line[0] != 'm';
    if |line| >= 4 {
      assert line[..4][0] == line[0];
    }
  }

  /** The lines of `mod.rs` that declare a module are exactly the declarations of the given modules. */
  lemma ModRsDeclarations(modules: seq<string>, line: string)
    requires line in ModRsLines(modules)
    ensures StartsWith(line, "mod ") <==> line in DeclLines(modules)
  {
    if line in DeclLines(modules) {
      var i :| 0 <= i < |modules| && line == DeclLine(modules[i]);
      DeclLineStartsMod(modules[i]);
    } else {
      OtherLinesNotMod(modules, line);
    }
  }

  /** The text of the `pub use` line, with its line break, or nothing. */
  function PubUseText(modules: seq<string>): string
  {
    var parts := PubUseParts(modules);
    if |parts| > 0 then "pub use {" + JoinText(parts, ", ") + "};\n" else ""
  }

  lemma ConcatLinesOne(line: string)
    ensures ConcatLines([line]) == line + "\n"
  {
    assert [line][1..] == [];
  }

  lemma PubUseLineText(modules: seq<string>)
    ensures ConcatLines(PubUseLine(modules)) == PubUseText(modules)
  {
    var pub := PubUseLine(modules);
    if |pub| > 0 {
      ConcatLinesOne(pub[0]);
    }
  }

  /** `mod.rs` as `write_mod_rs` pushes it: the declarations, a line break, the `pub use` line if any, a line break, `use super::*;`. */
  lemma ModRsContentParts(modules: seq<string>)
    ensures ModRsContent(modules)
            == ConcatLines(DeclLines(modules)) + "\n" + PubUseText(modules) + "\n" + "use super::*;\n"
  {
    var decls, pub := DeclLines(modules), PubUseLine(modules);
    var d := ConcatLines(decls);
    ConcatLinesAppend(decls, [""]);
    ConcatLinesOne("");
    assert ConcatLines(decls + [""]) == d + "\n";
    ConcatLinesAppend(decls + [""], pub);
    PubUseLineText(modules);
    assert ConcatLines(decls + [""] + pub) == d + "\n" + PubUseText(modules);
    ConcatLinesAppend(decls + [""] + pub, ["", "use super::*;"]);
    ConcatLinesOne("use super::*;");
    assert ["", "use super::*;"][1..] == ["use super::*;"];
    assert ConcatLines(["", "use super::*;"]) == "\n" + "use super::*;\n";
  }

  /** `mod.rs` always ends with a blank line and then `use super::*;`. */
  lemma ModRsEnding(modules: seq<string>)
    ensures var c := ModRsContent(modules);
            |c| >= 15 && c[|c| - 15..] == "\n" + "use super::*;\n"
  {
    ModRsContentParts(modules);
    EndsWithTwo(ConcatLines(DeclLines(modules)) + "\n" + PubUseText(modules), "\n", "use super::*;\n");
  }

  // ---------------------------------------------------------------------
  // Paths and the disk

  /**
   * `Path::join` on Unix: an absolute part replaces the base; otherwise the
   * part follows the base, with a `/` between them unless the base is empty
   * or already ends in one.
   */
  function PathJoin(base: string, part: string): string
  {
    if StartsWith(part, "/") then part
    else if base == "" || base[|base| - 1] == '/' then base + part
    else base + "/" + part
  }

  /** Two relative parts joined to the same base name the same path only when they are the same part. */
  lemma PathJoinInjective(base: string, a: string, b: string)
    requires !StartsWith(a, "/") && !StartsWith(b, "/")
    ensures PathJoin(base, a) == PathJoin(base, b) ==> a == b
  {
    var prefix := if base == "" || base[|base| - 1] == '/' then base else base + "/";
    assert PathJoin(base, a) == prefix + a && PathJoin(base, b) == prefix + b;
    if prefix + a == prefix + b {
      assert a == (prefix + a)[|prefix|..];
      assert b == (prefix + b)[|prefix|..];
    }
  }

  /** The directories `create_dir_all` makes on the way to `p`: each prefix of `p` that ends just before a `/`. */
  function Ancestors(p: string): set<string>
  {
    set k | 0 < k < |p| && p[k] == '/' :: p[..k]
  }

  /** A name without `/` is a relative path. */
  lemma RelativeName(name: string)
    requires '/' !in name
    ensures !StartsWith(name, "/")
  {
    if |name| >= 1 {
      assert name[0] in name;
      assert name[..1] == [name[0]];
    }
  }

  /** A directory with a name under it has that directory among its ancestors. */
  lemma AncestorOfJoin(base: string, part: string)
    requires base != "" && base[|base| - 1] != '/' && !StartsWith(part, "/") && part != ""
    ensures base in Ancestors(PathJoin(base, part))
  {
    var p := PathJoin(base, part);
    assert p == base + "/" + part;
    assert p[|base|] == '/' && p[..|base|] == base;
  }

  /** The ancestors of an ancestor are ancestors. */
  lemma AncestorsTransitive(p: string, q: string)
    requires q in Ancestors(p)
    ensures Ancestors(q) <= Ancestors(p)
  {
    var k :| 0 < k < |p| && p[k] == '/' && q == p[..k];
    forall x | x in Ancestors(q)
      ensures x in Ancestors(p)
    {
      var j :| 0 < j < |q| && q[j] == '/' && x == q[..j];
      assert p[j] == '/' && x == p[..j];
    }
  }

  /** What is on the disk: the directories, and the files with their text. */
  datatype FsState = FsState(dirs: set<string>, files: map<string, string>)

  /** Pieces with a named part have a last one, after which nothing is named. */
  lemma {:induction false} LastNamedPart(pieces: seq<string>) returns (j: nat)
    requires NamedParts(pieces) != []
    ensures j < |pieces| && NamedParts(pieces) == NamedParts(pieces[..j]) + [pieces[j]]
  {
    var init, last := pieces[..|pieces| - 1], pieces[|pieces| - 1];
    assert pieces == init + [last];
    NamedPartsAppend(init, [last]);
    if last == "" || last == "." {
      j := LastNamedPart(init);
      assert init[..j] == pieces[..j] && init[j] == pieces[j];
    } else {
      j := |pieces| - 1;
    }
  }

  /** Pieces that join to the empty text name nothing. */
  lemma JoinEmptyNamesNothing(pieces: seq<string>)
    requires |pieces| > 0 && Join(pieces, '/') == ""
    ensures NamedParts(pieces) == []
  {
  }

  /**
   * Whether two paths name the same place once the system resolves them:
   * both absolute or both relative, with the same named parts. A doubled
   * or trailing `/` and a `.` part change nothing.
   */
  predicate SamePath(p: string, q: string)
  {
    StartsWith(p, "/") == StartsWith(q, "/") && NamedParts(Split(p, '/')) == NamedParts(Split(q, '/'))
  }

  /** A path whose last piece is empty or `.` can only name a directory. */
  predicate NamesDirectory(p: string)
  {
    var pieces := Split(p, '/');
    pieces[|pieces| - 1] == "" || pieces[|pieces| - 1] == "."
  }

  /** `Path::exists`: a directory at the place `p` names, or a file there when `p` may name a file. */
  predicate Exists(s: FsState, p: string)
  {
    || (exists d :: d in s.dirs && SamePath(d, p))
    || (!NamesDirectory(p) && exists f :: f in s.files && SamePath(f, p))
  }

  /** Whatever exists on a disk still exists on a disk with more directories and files. */
  lemma ExistsGrows(s: FsState, s': FsState, p: string)
    requires s.dirs <= s'.dirs && s.files.Keys <= s'.files.Keys
    requires Exists(s, p)
    ensures Exists(s', p)
  {
    if d :| d in s.dirs && SamePath(d, p) {
      assert d in s'.dirs;
    } else {
      var f :| f in s.files && SamePath(f, p);
      assert f in s'.files;
    }
  }

  /** Joining a path, a `/` and a name gives a path whose named parts are the path's and then the name. */
  lemma ChildParts(q: string, n: string)
    requires '/' !in n && n != "" && n != "."
    ensures NamedParts(Split(q + "/" + n, '/')) == NamedParts(Split(q, '/')) + [n]
  {
    SplitConcat(q, '/', n);
    SplitNone(n, '/');
    NamedPartsAppend(Split(q, '/'), [n]);
  }

  /** Two paths with the same first character are both absolute or both relative. */
  lemma SameStart(x: string, y: string)
    requires |x| > 0 && |y| > 0 && x[0] == y[0]
    ensures StartsWith(x, "/") == StartsWith(y, "/")
  {
    assert x[..1] == [x[0]] && y[..1] == [y[0]];
  }

  /** The spelling of a path up to its last named part, when some named part comes before it. */
  lemma {:induction false} ParentSpelling(d: string, parent: seq<string>, n: string) returns (a: string)
    requires parent != [] && NamedParts(Split(d, '/')) == parent + [n]
    ensures a in Ancestors(d) && a[0] == d[0] && NamedParts(Split(a, '/')) == parent
  {
    var pieces := Split(d, '/');
    var j := LastNamedPart(pieces);
    var before := NamedParts(pieces[..j]);
    assert before + [pieces[j]] == parent + [n];
    assert before == (before + [pieces[j]])[..|before|] == (parent + [n])[..|parent|] == parent;
    assert j > 0;
    a := Join(pieces[..j], '/');
    JoinAt(pieces, '/', j);
    if a == "" {
      JoinEmptyNamesNothing(pieces[..j]);
    }
    assert d[..|a|] == a && d[|a|] == '/';
    forall i | 0 <= i < j
      ensures '/' !in pieces[..j][i]
    {
      assert pieces[..j][i] == pieces[i];
    }
    SplitJoin(pieces[..j], '/');
  }

  /** The parent of a path named `q/n` is named `q`, and it is one of the path's ancestors. */
  lemma ParentOfChild(d: string, q: string, n: string) returns (a: string)
    requires |q| > 0 && NamedParts(Split(q, '/')) != []
    requires '/' !in n && n != "" && n != "."
    requires SamePath(d, q + "/" + n)
    ensures a in Ancestors(d) && SamePath(a, q)
  {
    var child := q + "/" + n;
    ChildParts(q, n);
    assert NamedParts(Split(d, '/')) == NamedParts(Split(q, '/')) + [n];
    a := ParentSpelling(d, NamedParts(Split(q, '/')), n);
    SameStart(a, d);
    SameStart(child, q);
  }

  /**
   * On a disk where everything sits in existing directories, whatever
   * exists at `q/n` has its parent at `q`, however either is spelled.
   */
  lemma ParentExists(s: FsState, q: string, n: string)
    requires Closed(s) && |q| > 0 && NamedParts(Split(q, '/')) != []
    requires '/' !in n && n != "" && n != "."
    requires Exists(s, q + "/" + n)
    ensures exists a :: a in s.dirs && SamePath(a, q)
  {
    var d :| (d in s.dirs || d in s.files) && SamePath(d, q + "/" + n);
    ParentOfEntry(s, d, q, n);
  }

  lemma ParentOfEntry(s: FsState, d: string, q: string, n: string)
    requires Closed(s) && |q| > 0 && NamedParts(Split(q, '/')) != []
    requires '/' !in n && n != "" && n != "."
    requires (d in s.dirs || d in s.files) && SamePath(d, q + "/" + n)
    ensures exists a :: a in s.dirs && SamePath(a, q)
  {
    var a := ParentOfChild(d, q, n);
    assert Ancestors(d) <= s.dirs;
    assert a in s.dirs;
  }

  /** A path ending in `/` or `/.` names the place the path before it names. */
  lemma TrailingCurrentDir(p: string, tail: string)
    requires |p| > 0 && (tail == "" || tail == ".")
    ensures SamePath(p + "/" + tail, p) && NamesDirectory(p + "/" + tail)
  {
    SplitConcat(p, '/', tail);
    SplitNone(tail, '/');
    NamedPartsAppend(Split(p, '/'), [tail]);
    assert NamedParts([tail]) == [];
    assert (p + "/" + tail)[..1] == p[..1];
  }

  /** Every directory and file sits in existing directories, as on a real disk. */
  predicate Closed(s: FsState)
  {
    && (forall p :: p in s.dirs ==> Ancestors(p) <= s.dirs)
    && (forall p :: p in s.files ==> Ancestors(p) <= s.dirs)
  }

  /** One disk operation of a template: `ensure_directory`, `write_mod_rs`, `write_empty_mod_rs`, or a plain `write`. */
  datatype Step =
    | EnsureDir(path: string)
    | WriteModules(path: string, modules: seq<string>)
    | WriteEmptyModules(path: string)
    | WriteText(path: string, text: string)

  /** What a writing step puts in its file. */
  function StepText(st: Step): string
    requires !st.EnsureDir?
  {
    match st
    case WriteModules(_, modules) => ModRsContent(modules)
    case WriteEmptyModules(_) => "\n"
    case WriteText(_, text) => text
  }

  /**
   * One step against the disk. `blocked` are the paths the operating system
   * refuses to create or write (permissions, a file in the way, a full
   * disk). A directory is created, with its ancestors, only when nothing
   * exists at its path; a file is written only into existing directories
   * and never over a directory.
   */
  function ApplyStep(s: FsState, blocked: set<string>, st: Step): Result<FsState, TemplateError>
  {
    match st
    case EnsureDir(p) =>
      if Exists(s, p) then Ok(s)
      else if p in blocked then Err(IoError(p))
      else Ok(s.(dirs := s.dirs + {p} + Ancestors(p)))
    case _ =>
      if st.path in blocked || st.path in s.dirs || !(Ancestors(st.path) <= s.dirs) then Err(IoError(st.path))
      else Ok(s.(files := s.files[st.path := StepText(st)]))
  }

  /** Steps keep every directory and file inside existing directories. */
  lemma ApplyStepClosed(s: FsState, blocked: set<string>, st: Step)
    requires Closed(s)
    ensures ApplyStep(s, blocked, st).Ok? ==> Closed(ApplyStep(s, blocked, st).value)
  {
    if st.EnsureDir? && ApplyStep(s, blocked, st).Ok? && !Exists(s, st.path) {
      var s' := ApplyStep(s, blocked, st).value;
      forall q | q in s'.dirs
        ensures Ancestors(q) <= s'.dirs
      {
        if q in Ancestors(st.path) {
          AncestorsTransitive(st.path, q);
        }
      }
    }
  }

  /** `write_mod_rs` is a `write` of the `mod.rs` text. */
  lemma WriteModulesIsWrite(s: FsState, blocked: set<string>, path: string, modules: seq<string>)
    ensures ApplyStep(s, blocked, WriteModules(path, modules)) == ApplyStep(s, blocked, WriteText(path, ModRsContent(modules)))
  {
  }

  /** The disk and the result after one step: the new disk on success, the old one on error. */
  predicate Performed(before: FsState, blocked: set<string>, st: Step, after: FsState, r: Result<(), TemplateError>)
  {
    match ApplyStep(before, blocked, st)
    case Ok(s) => after == s && r == Ok(())
    case Err(e) => after == before && r == Err(e)
  }

  /** Steps in order, stopping at the first error (the `?` after each call). */
  function RunSteps(s: FsState, blocked: set<string>, steps: seq<Step>): (FsState, Result<(), TemplateError>)
    decreases |steps|
  {
    if |steps| == 0 then (s, Ok(()))
    else match ApplyStep(s, blocked, steps[0])
      case Err(e) => (s, Err(e))
      case Ok(next) => RunSteps(next, blocked, steps[1..])
  }

  lemma {:induction false} RunStepsClosed(s: FsState, blocked: set<string>, steps: seq<Step>)
    requires Closed(s)
    ensures Closed(RunSteps(s, blocked, steps).0)
    decreases |steps|
  {
    if |steps| > 0 {
      ApplyStepClosed(s, blocked, steps[0]);
      if ApplyStep(s, blocked, steps[0]).Ok? {
        RunStepsClosed(ApplyStep(s, blocked, steps[0]).value, blocked, steps[1..]);
      }
    }
  }

  /** The files the steps write, each with the text of the last write to it. */
  function Written(steps: seq<Step>): map<string, string>
  {
    if |steps| == 0 then map[]
    else if steps[0].EnsureDir? then Written(steps[1..])
    else map[steps[0].path := StepText(steps[0])] + Written(steps[1..])
  }

  /** The directories the steps may create: each directory asked for, with its ancestors. */
  function MadeDirs(steps: seq<Step>): set<string>
  {
    if |steps| == 0 then {}
    else if steps[0].EnsureDir? then {steps[0].path} + Ancestors(steps[0].path) + MadeDirs(steps[1..])
    else MadeDirs(steps[1..])
  }

  /** One step that succeeds: a directory step adds directories and makes its path exist; a write sets one file. */
  lemma ApplyStepEffect(s: FsState, blocked: set<string>, st: Step)
    requires ApplyStep(s, blocked, st).Ok?
    ensures var next := ApplyStep(s, blocked, st).value;
            && s.dirs <= next.dirs
            && (st.EnsureDir? ==> next.dirs <= s.dirs + {st.path} + Ancestors(st.path) && next.files == s.files
                                  && Exists(next, st.path))
            && (!st.EnsureDir? ==> next.dirs == s.dirs && next.files == s.files[st.path := StepText(st)])
  {
    if st.EnsureDir? && !Exists(s, st.path) {
      var next := ApplyStep(s, blocked, st).value;
      assert st.path in next.dirs && SamePath(st.path, st.path);
    }
  }

  /** Running steps: directories only appear, and only where a step asks for one; files change only where a step writes. */
  lemma {:induction false} RunStepsFrame(s: FsState, blocked: set<string>, steps: seq<Step>)
    ensures var (s', r) := RunSteps(s, blocked, steps);
            && s.dirs <= s'.dirs <= s.dirs + MadeDirs(steps)
            && s'.files.Keys <= s.files.Keys + Written(steps).Keys
            && (forall q :: q in s.files && q !in Written(steps) ==> q in s'.files && s'.files[q] == s.files[q])
    decreases |steps|
  {
    if |steps| > 0 && ApplyStep(s, blocked, steps[0]).Ok? {
      ApplyStepEffect(s, blocked, steps[0]);
      RunStepsFrame(ApplyStep(s, blocked, steps[0]).value, blocked, steps[1..]);
    }
  }

  lemma MapUpdateMerge(a: map<string, string>, k: string, v: string, b: map<string, string>)
    ensures a[k := v] + b == a + (map[k := v] + b)
  {
  }

  /** When every step succeeds, each written file holds the text of its last write. */
  lemma {:induction false} RunStepsFiles(s: FsState, blocked: set<string>, steps: seq<Step>)
    requires RunSteps(s, blocked, steps).1.Ok?
    ensures RunSteps(s, blocked, steps).0.files == s.files + Written(steps)
    decreases |steps|
  {
    if |steps| > 0 {
      var next := ApplyStep(s, blocked, steps[0]).value;
      ApplyStepEffect(s, blocked, steps[0]);
      RunStepsFiles(next, blocked, steps[1..]);
      if !steps[0].EnsureDir? {
        MapUpdateMerge(s.files, steps[0].path, StepText(steps[0]), Written(steps[1..]));
      }
    }
  }

  /** When every step succeeds, every directory asked for exists. */
  lemma {:induction false} RunStepsDirs(s: FsState, blocked: set<string>, steps: seq<Step>)
    requires RunSteps(s, blocked, steps).1.Ok?
    ensures var s' := RunSteps(s, blocked, steps).0;
            forall i :: 0 <= i < |steps| && steps[i].EnsureDir? ==> Exists(s', steps[i].path)
    decreases |steps|
  {
    if |steps| > 0 {
      var next := ApplyStep(s, blocked, steps[0]).value;
      ApplyStepEffect(s, blocked, steps[0]);
      RunStepsDirs(next, blocked, steps[1..]);
      RunStepsFrame(next, blocked, steps[1..]);
      RunStepsFiles(next, blocked, steps[1..]);
      var s' := RunSteps(next, blocked, steps[1..]).0;
      forall i | 0 <= i < |steps| && steps[i].EnsureDir?
        ensures Exists(s', steps[i].path)
      {
        if i > 0 {
          assert steps[1..][i - 1] == steps[i];
        } else {
          ExistsGrows(next, s', steps[0].path);
        }
      }
    }
  }

  /**
   * Running steps: directories only appear, and only where a step asks for
   * one; files change only where a step writes; and when every step
   * succeeds, each written file holds the text of its last write and every
   * directory asked for exists.
   */
  lemma RunStepsEffect(s: FsState, blocked: set<string>, steps: seq<Step>)
    ensures var (s', r) := RunSteps(s, blocked, steps);
            && s.dirs <= s'.dirs <= s.dirs + MadeDirs(steps)
            && s'.files.Keys <= s.files.Keys + Written(steps).Keys
            && (forall q :: q in s.files && q !in Written(steps) ==> q in s'.files && s'.files[q] == s.files[q])
            && (r.Ok? ==> s'.files == s.files + Written(steps))
            && (r.Ok? ==> forall i :: 0 <= i < |steps| && steps[i].EnsureDir? ==> Exists(s', steps[i].path))
  {
    RunStepsFrame(s, blocked, steps);
    if RunSteps(s, blocked, steps).1.Ok? {
      RunStepsFiles(s, blocked, steps);
      RunStepsDirs(s, blocked, steps);
    }
  }

  // ---------------------------------------------------------------------
  // What each kind of component creates

  /** The modules of each kind's `mod.rs` (an exception gets an empty `mod.rs` instead). */
  function ComponentModules(t: TemplateType): seq<string>
  {
    match t
    case Controller => ["fn", "impl", "struct"]
    case View => ["fn", "impl", "struct"]
    case Service => ["impl", "struct"]
    case Domain => ["impl", "struct"]
    case Repository => ["impl", "struct"]
    case Mapper => ["const", "enum", "fn", "impl", "static", "struct"]
    case Utils => ["fn"]
    case Model => ["struct"]
    case Exception => []
  }

  /** The directory a component's files go in: the target itself, or for a model its sub-type's directory. */
  function ComponentDir(t: TemplateType, target: string, sub: Option<ModelSubType>): string
    requires t == Model ==> sub.Some?
  {
    if t == Model then PathJoin(target, ModelSubTypeName(sub.value)) else target
  }

  /** One `use super::*;` file per module, in order. */
  function ModuleFileSteps(dir: string, modules: seq<string>): seq<Step>
  {
    if |modules| == 0 then [] else [WriteText(PathJoin(dir, modules[0] + ".rs"), UseSuper)] + ModuleFileSteps(dir, modules[1..])
  }

  /**
   * `create_*_template`: the component directory, its `mod.rs`, then one file
   * per module; an exception gets only a `mod.rs` holding a line break.
   */
  function CreateSteps(t: TemplateType, target: string, sub: Option<ModelSubType>): seq<Step>
    requires t == Model ==> sub.Some?
  {
    if t == Exception then [EnsureDir(target), WriteEmptyModules(PathJoin(target, "mod.rs"))]
    else ComponentSteps(ComponentDir(t, target, sub), ComponentModules(t))
  }

  /** A component directory: made, then its `mod.rs`, then one file per module, in order. */
  function ComponentSteps(dir: string, modules: seq<string>): seq<Step>
  {
    [EnsureDir(dir), WriteModules(PathJoin(dir, "mod.rs"), modules)] + ModuleFileSteps(dir, modules)
  }

  lemma {:induction false} WrittenAppend(a: seq<Step>, b: seq<Step>)
    ensures Written(a + b) == Written(a) + Written(b)
    decreases |a|
  {
    if |a| == 0 {
      assert a + b == b;
    } else {
      assert (a + b)[1..] == a[1..] + b;
      WrittenAppend(a[1..], b);
    }
  }

  /** The module files: one per module, at `<dir>/<module>.rs`, each holding `use super::*;`. */
  lemma {:induction false} ModuleFilesWritten(dir: string, modules: seq<string>)
    ensures var w := Written(ModuleFileSteps(dir, modules));
            && w.Keys == (set m | m in modules :: PathJoin(dir, m + ".rs"))
            && forall q :: q in w ==> w[q] == UseSuper
    decreases |modules|
  {
    if |modules| > 0 {
      ModuleFilesWritten(dir, modules[1..]);
      assert modules == [modules[0]] + modules[1..];
    }
  }

  /** A module name that is relative, on one line, not `mod` itself, and not yet a raw identifier. */
  predicate PlainModule(m: string)
  {
    |m| > 0 && m[0] != '/' && m != "mod" && !StartsWith(m, "r#") && '\n' !in m
  }

  /** The module names of every kind are plain. */
  lemma ComponentModulesPlain(t: TemplateType)
    ensures forall m :: m in ComponentModules(t) ==> PlainModule(m)
  {
    assert PlainModule("fn") && PlainModule("impl") && PlainModule("struct");
    assert PlainModule("const") && PlainModule("enum") && PlainModule("static");
  }

  /** A module file is never `mod.rs`. */
  lemma ModuleFileNotModRs(dir: string, m: string)
    requires PlainModule(m)
    ensures PathJoin(dir, m + ".rs") != PathJoin(dir, "mod.rs")
  {
    assert (m + ".rs")[0] == m[0];
    assert m + ".rs" != "mod.rs" by {
      if |m| == 3 {
        assert (m + ".rs")[..3] == m;
        assert "mod.rs"[..3] == "mod";
      }
    }
    PathJoinInjective(dir, m + ".rs", "mod.rs");
  }

  lemma DeclLineOf(m: string)
    requires !StartsWith(m, "r#")
    ensures DeclLine(m) == "mod r#" + m + ";"
  {
  }

  /** A line of `mod.rs` declares a module exactly when it is `mod r#<module>;` for one of the modules. */
  lemma ModRsDeclaresLine(modules: seq<string>, line: string)
    requires forall m :: m in modules ==> !StartsWith(m, "r#")
    ensures line in ModRsLines(modules) && StartsWith(line, "mod ")
            <==> exists m :: m in modules && line == "mod r#" + m + ";"
  {
    if line in ModRsLines(modules) {
      ModRsDeclarations(modules, line);
      if line in DeclLines(modules) {
        var i :| 0 <= i < |modules| && DeclLines(modules)[i] == line;
        DeclLineOf(modules[i]);
        assert modules[i] in modules;
      }
    }
    if exists m :: m in modules && line == "mod r#" + m + ";" {
      var m :| m in modules && line == "mod r#" + m + ";";
      var i :| 0 <= i < |modules| && modules[i] == m;
      DeclLineOf(m);
      assert DeclLines(modules)[i] == line;
      assert line in DeclLines(modules);
      ModRsDeclarations(modules, line);
    }
  }

  /** The lines of a `mod.rs` that declare a module are one `mod r#<module>;` per module given. */
  lemma ModRsDeclares(modules: seq<string>)
    requires NoLineBreaks(modules)
    requires forall m :: m in modules ==> !StartsWith(m, "r#")
    ensures forall line :: line in Split(ModRsContent(modules), '\n') && StartsWith(line, "mod ")
                           <==> exists m :: m in modules && line == "mod r#" + m + ";"
  {
    ModRsSplit(modules);
    forall line
      ensures line in Split(ModRsContent(modules), '\n') && StartsWith(line, "mod ")
              <==> exists m :: m in modules && line == "mod r#" + m + ";"
    {
      ModRsDeclaresLine(modules, line);
    }
  }

  /** The first two steps of a component write only its `mod.rs`. */
  lemma ComponentHeadWritten(dir: string, modules: seq<string>)
    ensures Written([EnsureDir(dir), WriteModules(PathJoin(dir, "mod.rs"), modules)])
            == map[PathJoin(dir, "mod.rs") := ModRsContent(modules)]
  {
    var write := WriteModules(PathJoin(dir, "mod.rs"), modules);
    var head := [EnsureDir(dir), write];
    assert head[1..] == [write] && [write][1..] == [];
    assert Written([write]) == map[write.path := ModRsContent(modules)] + map[];
  }

  /** The module files of plain modules never overwrite the `mod.rs`. */
  lemma ModuleFilesAvoidModRs(dir: string, modules: seq<string>)
    requires forall m :: m in modules ==> PlainModule(m)
    ensures PathJoin(dir, "mod.rs") !in Written(ModuleFileSteps(dir, modules))
  {
    ModuleFilesWritten(dir, modules);
    forall m | m in modules
      ensures PathJoin(dir, m + ".rs") != PathJoin(dir, "mod.rs")
    {
      ModuleFileNotModRs(dir, m);
    }
  }

  /** The files of a component directory: its `mod.rs` with the modules' text, and one `use super::*;` file per module. */
  lemma ComponentStepsWritten(dir: string, modules: seq<string>)
    requires forall m :: m in modules ==> PlainModule(m)
    ensures var w, modRs := Written(ComponentSteps(dir, modules)), PathJoin(dir, "mod.rs");
            && w.Keys == {modRs} + (set m | m in modules :: PathJoin(dir, m + ".rs"))
            && w[modRs] == ModRsContent(modules)
            && (forall m :: m in modules ==> w[PathJoin(dir, m + ".rs")] == UseSuper)
  {
    var modRs := PathJoin(dir, "mod.rs");
    var head := [EnsureDir(dir), WriteModules(modRs, modules)];
    var files := ModuleFileSteps(dir, modules);
    WrittenAppend(head, files);
    ComponentHeadWritten(dir, modules);
    ModuleFilesWritten(dir, modules);
    ModuleFilesAvoidModRs(dir, modules);
    assert Written(ComponentSteps(dir, modules)) == map[modRs := ModRsContent(modules)] + Written(files);
  }

  /**
   * Each component directory holds its `mod.rs` and one file per module and
   * nothing else; the `mod.rs` declares exactly those modules; every other
   * file holds `use super::*;`.
   */
  lemma ComponentFiles(t: TemplateType, target: string, sub: Option<ModelSubType>)
    requires t != Exception && (t == Model ==> sub.Some?)
    ensures var dir, modules := ComponentDir(t, target, sub), ComponentModules(t);
            var w, modRs := Written(CreateSteps(t, target, sub)), PathJoin(dir, "mod.rs");
            && w.Keys == {modRs} + (set m | m in modules :: PathJoin(dir, m + ".rs"))
            && w[modRs] == ModRsContent(modules)
            && (forall m :: m in modules ==> w[PathJoin(dir, m + ".rs")] == UseSuper)
            && (forall line :: line in Split(w[modRs], '\n') && StartsWith(line, "mod ")
                               <==> exists m :: m in modules && line == "mod r#" + m + ";")
  {
    var modules := ComponentModules(t);
    ComponentModulesPlain(t);
    ComponentStepsWritten(ComponentDir(t, target, sub), modules);
    assert NoLineBreaks(modules) by {
      forall i | 0 <= i < |modules|
        ensures '\n' !in modules[i]
      {
        assert PlainModule(modules[i]);
      }
    }
    ModRsDeclares(modules);
  }

  /** An exception component is a directory holding only a `mod.rs` with a single line break. */
  lemma ExceptionFiles(target: string, sub: Option<ModelSubType>)
    ensures Written(CreateSteps(Exception, target, sub)) == map[PathJoin(target, "mod.rs") := "\n"]
  {
    var modRs := WriteEmptyModules(PathJoin(target, "mod.rs"));
    var steps := CreateSteps(Exception, target, sub);
    assert steps == [EnsureDir(target), modRs];
    assert steps[1..] == [modRs] && [modRs][1..] == [];
    assert Written([modRs]) == map[modRs.path := "\n"] + map[];
  }

  // ---------------------------------------------------------------------
  // execute_template

  /** `./application/<kind>` */
  function TypeDir(t: TemplateType): string
  {
    PathJoin("./application", DirectoryName(t))
  }

  /** `./application/<kind>/<name>` */
  function TargetDir(t: TemplateType, componentName: string): string
  {
    PathJoin(TypeDir(t), componentName)
  }

  /**
   * `execute_template` as a function of the disk: refuse an existing target,
   * make the kind's directory, refuse a model without a sub-type, then run
   * the kind's steps.
   */
  function ExecuteOutcome(s: FsState, blocked: set<string>, t: TemplateType, componentName: string,
                          sub: Option<ModelSubType>): (FsState, Result<(), TemplateError>)
  {
    var target := TargetDir(t, componentName);
    if Exists(s, target) then (s, Err(DirectoryExists(target)))
    else match ApplyStep(s, blocked, EnsureDir(TypeDir(t)))
      case Err(e) => (s, Err(e))
      case Ok(s1) =>
        if t == Model && sub.None? then (s1, Err(InvalidModelSubType("Missing model subtype")))
        else RunSteps(s1, blocked, CreateSteps(t, target, sub))
  }

  /** An existing target is refused before anything is created. */
  lemma ExecuteRefusesExisting(s: FsState, blocked: set<string>, t: TemplateType, componentName: string,
                               sub: Option<ModelSubType>)
    requires Exists(s, TargetDir(t, componentName))
    ensures ExecuteOutcome(s, blocked, t, componentName, sub) == (s, Err(DirectoryExists(TargetDir(t, componentName))))
  {
  }

  /**
   * Existence is decided on the place a path names: with the kind's
   * directory on the disk, the component names `""` and `"."`, whose
   * targets end in `/` and `/.`, are refused.
   */
  lemma CurrentDirNameRefused(s: FsState, blocked: set<string>, t: TemplateType, name: string,
                              sub: Option<ModelSubType>)
    requires name == "" || name == "."
    requires TypeDir(t) in s.dirs
    ensures ExecuteOutcome(s, blocked, t, name, sub) == (s, Err(DirectoryExists(TargetDir(t, name))))
  {
    var typeDir, dirName := TypeDir(t), DirectoryName(t);
    assert typeDir == "./application" + "/" + dirName;
    assert typeDir[|typeDir| - 1] == dirName[|dirName| - 1] && dirName[|dirName| - 1] in dirName;
    assert !StartsWith(name, "/");
    assert TargetDir(t, name) == typeDir + "/" + name;
    TrailingCurrentDir(typeDir, name);
    assert typeDir in s.dirs && SamePath(typeDir, TargetDir(t, name));
  }

  /**
   * A model without a sub-type is refused, but only after the kind's
   * directory is made: no file is written and no other directory appears.
   */
  lemma ExecuteModelWithoutSubType(s: FsState, blocked: set<string>, componentName: string)
    requires !Exists(s, TargetDir(Model, componentName))
    ensures var (s', r) := ExecuteOutcome(s, blocked, Model, componentName, None);
            && s'.files == s.files
            && s.dirs <= s'.dirs <= s.dirs + {TypeDir(Model)} + Ancestors(TypeDir(Model))
            && (r == Err(InvalidModelSubType("Missing model subtype")) || r == Err(IoError(TypeDir(Model))))
  {
  }

  /**
   * What a run that gets past the checks does: the steps of the kind, on
   * the disk with the kind's directory made.
   */
  lemma ExecuteRunsSteps(s: FsState, blocked: set<string>, t: TemplateType, componentName: string,
                         sub: Option<ModelSubType>)
    requires !Exists(s, TargetDir(t, componentName)) && (t == Model ==> sub.Some?)
    requires ApplyStep(s, blocked, EnsureDir(TypeDir(t))).Ok?
    ensures var s1 := ApplyStep(s, blocked, EnsureDir(TypeDir(t))).value;
            && s.files == s1.files
            && ExecuteOutcome(s, blocked, t, componentName, sub) == RunSteps(s1, blocked, CreateSteps(t, TargetDir(t, componentName), sub))
  {
  }

  /**
   * A success leaves every file of the component written over what was on
   * the disk, and its directory existing; whatever the outcome, files that
   * are not the component's keep their text.
   */
  lemma ExecuteOutcomeFiles(s: FsState, blocked: set<string>, t: TemplateType, componentName: string,
                            sub: Option<ModelSubType>)
    requires t == Model ==> sub.Some?
    ensures var (s', r) := ExecuteOutcome(s, blocked, t, componentName, sub);
            var target := TargetDir(t, componentName);
            var w := Written(CreateSteps(t, target, sub));
            && (r.Ok? ==> !Exists(s, target) && s'.files == s.files + w && Exists(s', ComponentDir(t, target, sub)))
            && (forall q :: q in s.files && q !in w ==> q in s'.files && s'.files[q] == s.files[q])
            && s'.files.Keys <= s.files.Keys + w.Keys
  {
    var target := TargetDir(t, componentName);
    if !Exists(s, target) && ApplyStep(s, blocked, EnsureDir(TypeDir(t))).Ok? {
      var s1 := ApplyStep(s, blocked, EnsureDir(TypeDir(t))).value;
      var steps := CreateSteps(t, target, sub);
      ExecuteRunsSteps(s, blocked, t, componentName, sub);
      RunStepsEffect(s1, blocked, steps);
      assert steps[0] == EnsureDir(ComponentDir(t, target, sub));
    }
  }

  /** The root path `/` has no named part. */
  lemma RootNamesNothing()
    ensures NamedParts(Split("/", '/')) == []
  {
    assert "/" == "" + ['/'] + "";
    SplitConcat("", '/', "");
    SplitNone("", '/');
    assert NamedParts(["", ""]) == [];
  }

  /** A target ending in `/` names the place of the text before that `/`, and joining a name to it inserts no second `/`. */
  lemma TrailingSlash(target: string, name: string)
    requires |target| > 1 && target[|target| - 1] == '/'
    requires !StartsWith(name, "/")
    ensures var parent := target[..|target| - 1];
            SamePath(target, parent) && PathJoin(target, name) == parent + "/" + name
  {
    var parent := target[..|target| - 1];
    LastSplit(target);
    TrailingCurrentDir(parent, "");
  }

  /** Whatever exists at `target` joined with a plain name has its parent at `target`. */
  lemma JoinedParentExists(s: FsState, target: string, name: string)
    requires Closed(s) && NamedParts(Split(target, '/')) != []
    requires '/' !in name && name != "" && name != "."
    requires Exists(s, PathJoin(target, name))
    ensures Exists(s, target)
  {
    RelativeName(name);
    if target == "" {
      SplitNone("", '/');
    } else if target[|target| - 1] == '/' {
      var parent := target[..|target| - 1];
      if parent == "" {
        assert target == "/";
        RootNamesNothing();
        assert false;
      }
      TrailingSlash(target, name);
      ParentExists(s, parent, name);
      var a :| a in s.dirs && SamePath(a, parent);
      assert SamePath(a, target);
    } else {
      ParentExists(s, target, name);
    }
  }

  /** Whatever the outcome, a disk whose entries sit in existing directories stays so. */
  lemma ExecuteClosed(s: FsState, blocked: set<string>, t: TemplateType, componentName: string,
                      sub: Option<ModelSubType>)
    requires Closed(s)
    ensures Closed(ExecuteOutcome(s, blocked, t, componentName, sub).0)
  {
    var target := TargetDir(t, componentName);
    if !Exists(s, target) && ApplyStep(s, blocked, EnsureDir(TypeDir(t))).Ok? {
      var s1 := ApplyStep(s, blocked, EnsureDir(TypeDir(t))).value;
      ApplyStepClosed(s, blocked, EnsureDir(TypeDir(t)));
      if !(t == Model && sub.None?) {
        RunStepsClosed(s1, blocked, CreateSteps(t, target, sub));
        assert ExecuteOutcome(s, blocked, t, componentName, sub) == RunSteps(s1, blocked, CreateSteps(t, target, sub));
      }
    }
  }

  /** After a model is made, its target exists: the sub-type directory inside it does. */
  lemma ModelTargetExists(s: FsState, blocked: set<string>, componentName: string, sub: Option<ModelSubType>)
    requires Closed(s) && sub.Some?
    requires ExecuteOutcome(s, blocked, Model, componentName, sub).1.Ok?
    requires NamedParts(Split(TargetDir(Model, componentName), '/')) != []
    ensures Exists(ExecuteOutcome(s, blocked, Model, componentName, sub).0, TargetDir(Model, componentName))
  {
    var target := TargetDir(Model, componentName);
    var s' := ExecuteOutcome(s, blocked, Model, componentName, sub).0;
    ExecuteOutcomeFiles(s, blocked, Model, componentName, sub);
    ExecuteClosed(s, blocked, Model, componentName, sub);
    var name := ModelSubTypeName(sub.value);
    assert name != ".";
    assert Exists(s', PathJoin(target, name));
    JoinedParentExists(s', target, name);
  }

  /** After a success, running the same command again is refused with `DirectoryExists`. */
  lemma ExecuteTwiceRefused(s: FsState, blocked: set<string>, t: TemplateType, componentName: string,
                            sub: Option<ModelSubType>)
    requires Closed(s) && (t == Model ==> sub.Some?)
    requires ExecuteOutcome(s, blocked, t, componentName, sub).1.Ok?
    requires t == Model ==> NamedParts(Split(TargetDir(t, componentName), '/')) != []
    ensures var s' := ExecuteOutcome(s, blocked, t, componentName, sub).0;
            ExecuteOutcome(s', blocked, t, componentName, sub) == (s', Err(DirectoryExists(TargetDir(t, componentName))))
  {
    var target := TargetDir(t, componentName);
    var s' := ExecuteOutcome(s, blocked, t, componentName, sub).0;
    ExecuteOutcomeFiles(s, blocked, t, componentName, sub);
    if t == Model {
      ModelTargetExists(s, blocked, componentName, sub);
    }
  }

  /** The first loop of `write_mod_rs`: one `mod` line per module, raw identifiers kept as they are. */
  method DeclarationText(modules: seq<string>) returns (content: string)
    ensures content == ConcatLines(DeclLines(modules))
  {
    content := "";
    for i := 0 to |modules|
      invariant content == ConcatLines(DeclLines(modules[..i]))
    {
      var m := modules[i];
      var modName := if StartsWith(m, "r#") then m else "r#" + m;
      content := content + ("mod " + modName + ";\n");
      DeclsSnoc(modules, i);
    }
    assert modules[..|modules|] == modules;
  }

  /** The second loop of `write_mod_rs`: the `pub use` items, module by module. */
  method PubUseItems(modules: seq<string>) returns (pubUseParts: seq<string>)
    ensures pubUseParts == PubUseParts(modules)
  {
    pubUseParts := [];
    for i := 0 to |modules|
      invariant pubUseParts == PubUseParts(modules[..i])
    {
      var m := modules[i];
      var rawName := if StartsWith(m, "r#") then m[2..] else m;
      var modName := if StartsWith(m, "r#") then m else "r#" + m;
      ghost var before := pubUseParts;
      if rawName == "const" || rawName == "static" {
        pubUseParts := pubUseParts + [modName];
      } else if rawName == "enum" || rawName == "fn" {
        pubUseParts := pubUseParts + [modName + "::*"];
      } else if rawName == "struct" {
        pubUseParts := pubUseParts + [modName];
      }
      assert pubUseParts == before + ItemList(PubUseItem(m));
      PubUsePartsSnoc(modules, i);
    }
    assert modules[..|modules|] == modules;
  }

  /** The text `write_mod_rs` builds: the `mod` lines, a blank line, the `pub use` line if any, a blank line, `use super::*;`. */
  method ModRsText(modules: seq<string>) returns (content: string)
    ensures content == ModRsContent(modules)
  {
    content := DeclarationText(modules);
    ghost var decls := content;
    content := content + "\n";
    var pubUseParts := PubUseItems(modules);
    if |pubUseParts| > 0 {
      content := content + "pub use {";
      content := content + JoinText(pubUseParts, ", ");
      content := content + "};\n";
    }
    assert content == decls + "\n" + PubUseText(modules);
    content := content + "\n";
    content := content + "use super::*;\n";
    ModRsContentParts(modules);
  }

  /**
   * The disk the generator works on: its directories and files, which the
   * operations below change in place, and the paths the operating system
   * refuses.
   */
  class Disk {
    var dirs: set<string>
    var files: map<string, string>
    const blocked: set<string>

    constructor (dirs: set<string>, files: map<string, string>, blocked: set<string>)
      ensures this.dirs == dirs && this.files == files && this.blocked == blocked
    {
      this.dirs := dirs;
      this.files := files;
      this.blocked := blocked;
    }

    function State(): FsState
      reads this
    {
      FsState(dirs, files)
    }

    /** `ensure_directory`: create the directory and its ancestors unless something exists there. */
    method EnsureDirectory(path: string) returns (r: Result<(), TemplateError>)
      modifies this
      ensures Performed(old(State()), blocked, EnsureDir(path), State(), r)
    {
      if Exists(State(), path) {
        return Ok(());
      }
      if path in blocked {
        return Err(IoError(path));
      }
      dirs := dirs + {path} + Ancestors(path);
      r := Ok(());
    }

    /** `std::fs::write` */
    method WriteFile(path: string, text: string) returns (r: Result<(), TemplateError>)
      modifies this
      ensures Performed(old(State()), blocked, WriteText(path, text), State(), r)
    {
      if path in blocked || path in dirs || !(Ancestors(path) <= dirs) {
        return Err(IoError(path));
      }
      files := files[path := text];
      r := Ok(());
    }

    /**
     * `write_mod_rs`: one `mod` line per module, then the `pub use` items
     * gathered module by module, then `use super::*;`, written to `path`.
     */
    method WriteModRs(path: string, modules: seq<string>) returns (r: Result<(), TemplateError>)
      modifies this
      ensures Performed(old(State()), blocked, WriteModules(path, modules), State(), r)
    {
      var content := ModRsText(modules);
      WriteModulesIsWrite(old(State()), blocked, path, modules);
      r := WriteFile(path, content);
    }

    /** `write_empty_mod_rs` */
    method WriteEmptyModRs(path: string) returns (r: Result<(), TemplateError>)
      modifies this
      ensures Performed(old(State()), blocked, WriteEmptyModules(path), State(), r)
    {
      r := WriteFile(path, "\n");
    }

    /**
     * The body of a `create_*_template` function: its steps one after the
     * other, each followed by `?`.
     */
    method RunCreateSteps(steps: seq<Step>) returns (r: Result<(), TemplateError>)
      modifies this
      ensures (State(), r) == RunSteps(old(State()), blocked, steps)
    {
      var i := 0;
      while i < |steps|
        invariant 0 <= i <= |steps|
        invariant RunSteps(State(), blocked, steps[i..]) == RunSteps(old(State()), blocked, steps)
      {
        assert steps[i..][0] == steps[i] && steps[i..][1..] == steps[i + 1..];
        r := PerformStep(steps[i]);
        if r.Err? {
          return;
        }
        i := i + 1;
      }
      r := Ok(());
    }

    /** One step of a `create_*_template` function, by the operation that performs it. */
    method PerformStep(step: Step) returns (r: Result<(), TemplateError>)
      modifies this
      ensures Performed(old(State()), blocked, step, State(), r)
    {
      match step {
        case EnsureDir(p) =>
          r := EnsureDirectory(p);
        case WriteModules(p, modules) =>
          r := WriteModRs(p, modules);
        case WriteText(p, text) =>
          r := WriteFile(p, text);
        case WriteEmptyModules(p) =>
          r := WriteEmptyModRs(p);
      }
    }

    /**
     * `execute_template`: refuse an existing target directory, make the
     * kind's directory, refuse a model without a sub-type, then create the
     * component's directory and files.
     */
    method ExecuteTemplate(t: TemplateType, componentName: string, sub: Option<ModelSubType>)
      returns (r: Result<(), TemplateError>)
      modifies this
      ensures (State(), r) == ExecuteOutcome(old(State()), blocked, t, componentName, sub)
    {
      var config := NewTemplateConfig(t, componentName, sub);
      var dirName := DirectoryName(config.templateType);
      var typeDir := PathJoin(config.baseDirectory, dirName);
      var targetDir := PathJoin(typeDir, config.componentName);
      if Exists(State(), targetDir) {
        return Err(DirectoryExists(targetDir));
      }
      r := EnsureDirectory(typeDir);
      if r.Err? {
        return;
      }
      if config.templateType == Model && config.modelSubType.None? {
        return Err(InvalidModelSubType("Missing model subtype"));
      }
      r := RunCreateSteps(CreateSteps(config.templateType, targetDir, config.modelSubType));
    }
  }
}
