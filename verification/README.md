# hyperlane-cli, modelled in Dafny

This project models the logic of `hyperlane-cli`, a command-line tool for Rust
workspaces. It covers the following parts:

- **`bump`**: rewrite the `version = "x.y.z[-pre]"` line of a `Cargo.toml`.
  - The version is parsed and printed, and the seven bump kinds (patch, minor,
    major, release, alpha, beta, rc) are applied with their pre-release
    arithmetic.
  - The first line holding a parseable version is located and rewritten.
- **`publish`**: publish every package of a workspace in dependency order.
  - Packages are discovered from `workspace.members`, either literal member
    directories or `dir/*` patterns, or the root package on its own when no
    member yields a package.
  - Each manifest is read, and its local dependencies are extracted (entries
    with a `path` key, or with `workspace = true`).
  - The packages are ordered with Kahn's algorithm, which reports a circular
    dependency when no order exists.
  - Each package is published with a bounded retry loop and a doubling
    backoff.
  - One result is produced per package, in publish order.
- **`template`**: generate a component skeleton under
  `./application/<kind>/<name>`.
  - The kind names are parsed case-insensitively.
  - The `mod.rs` text is built from its module list.
  - The files of each kind are created step by step, and an existing target
    or a model without a sub-type is refused.
- **`new`**: validate the project name, then clone the quick-start template
  with git.
- **argument parsing**: the `parse_args` loop over the command line.

The model has these modules:

- **`Wrappers`**: `Option` and `Result`.
- **`Strings`**: splitting, joining, trimming, decimal numbers, and text search
  and replacement with the semantics of the Rust standard library.
- **`Bump`**: the version parser, printer and bumper, and the line-rewrite loop.
- **`Toml`**: a parsed TOML value, with tables as association lists.
- **`Manifest`**: reading a package manifest and its local dependencies.
- **`Discovery`**: workspace member discovery over an abstract file system.
- **`PublishOrder`**: the topological sort.
- **`Publish`**: the retry loop and `execute_publish`.
- **`Template`**: names, `mod.rs` generation, the file plan, and a `Disk` class
  that the creation steps update in place.
- **`NewProject`**: project name validation and the `new` command.
- **`Config`**: argument parsing.

Several operations are abstracted:

- The `cargo publish` run is an oracle `Publisher`, a function from a package
  and an attempt number to success or failure with a message.
- Sleeps are a ghost log of delays.
- The file system of `publish` is a map from paths (sequences of components)
  to directories and manifest files.
- The file system of `template` is a set of directories plus a map from file
  paths to contents, with a set of paths the operating system refuses.
- The outcomes of the git runs in `new` are parameters.

## Model

| member | source | states |
|---|---|---|
| Bump.ParseVersion | src/bump/fn.rs:12-29 | a version exactly when the text before the first `-` splits on `.` into three parts that each parse as a u64; its numbers are those three values, and its pre-release is the text between the first and the second `-`, present exactly when the text has a `-` |
| Bump.ParseVersionToString | src/bump/fn.rs:12-29 | printing then parsing gives back every version whose numbers fit u64 and whose pre-release has no `-` |
| Bump.VersionToStringOfParse | src/bump/fn.rs:83-89 | parsing then printing gives back every text in canonical form (three canonical decimals, optional `-pre` without a second `-`) |
| Bump.ParseVersionDropsAfterSecondDash | src/bump/fn.rs:13-15 | whatever follows a second `-` is ignored by the parser |
| Bump.ParsePrerelease | src/bump/fn.rs:40-48 | always succeeds; the name is exactly the text before the first `.` (the whole text without one); the number is the second `.`-part's u64 value, or 0 when there is no `.` or that part is not a u64 |
| Bump.ParsePrereleaseNumbered | src/bump/fn.rs:40-48 | `name.N` parses to name and N for every u64 N |
| Bump.GetNextPrerelease | src/bump/fn.rs:60-72 | with no current pre-release, the bare target type; otherwise the target type, a `.` and the next number as decimal text |
| Bump.FirstPrerelease | src/bump/fn.rs:60-72 | the first numbered pre-release of a type is `type.1` |
| Bump.NextPrereleaseParses | src/bump/fn.rs:60-72 | the next pre-release parses back to the target type and the next number: the bare type when there is none, N+1 for the same type with N > 0, otherwise 1 |
| Bump.BumpVersion | src/bump/fn.rs:101-155 | patch, minor and major raise the numbers and clear the pre-release; release and the pre-release kinds keep the numbers; alpha, beta and rc set a pre-release of that type with the next number |
| Bump.BumpResets | src/bump/fn.rs:103-120 | patch raises the patch and keeps the minor and the major; minor raises the minor, zeroes the patch and keeps the major; major raises the major and zeroes the minor and the patch |
| Bump.ReleaseIdempotent | src/bump/fn.rs:121-126 | a second release bump changes nothing |
| Bump.BumpedVersionParses | src/bump/fn.rs:101-155 | the printed bumped version parses back to the bumped version |
| Bump.QuotedSpan | src/bump/fn.rs:171-177 | a span found is strictly between two `"` after the first `=` and contains no `"` |
| Bump.FindVersionPosition | src/bump/fn.rs:166-179 | a span is found only in a line whose trimmed text starts with `version`, and lies strictly between the first two quotes after its first `=` |
| Bump.QuotedSpanComplete | src/bump/fn.rs:171-177 | when two `"` follow the first `=` with none between, the span between them is found |
| Bump.FindVersionPositionComplete | src/bump/fn.rs:166-179 | every line whose trimmed text starts with `version` and has two `"` after its first `=` is found, with the span between the first two |
| Bump.FirstMatch | src/bump/fn.rs:200-220 | the first index satisfying the predicate, with none before it; `None` when no line satisfies it |
| Bump.BumpLine | src/bump/fn.rs:204-215 | the rewritten line puts the printed bumped version in place of the quoted span; an overflowing bump is an error |
| Bump.BumpLineAt | src/bump/fn.rs:204-215 | a line whose span parses is a version line, and the rewrite substitutes exactly that span |
| Bump.BumpContent | src/bump/fn.rs:191-229 | the error `VersionFieldNotFound` happens exactly when no line holds a parseable version |
| Bump.BumpLines | src/bump/fn.rs:200-223 | `VersionFieldNotFound` exactly when no line is a version line |
| Bump.BumpLinesFound | src/bump/fn.rs:200-220 | when line i is the first version line, the result replaces the first occurrence of that line's text with the bumped line, and returns the new version |
| Bump.ExecuteBump | src/bump/fn.rs:191-229 | the method computes BumpContent |
| Bump.BumpFirstVersionLine | src/bump/fn.rs:200-223 | the loop over the lines stops at the first line with a parseable version and returns BumpLines |
| Bump.ReplacenRewritesEarlierLine | src/bump/fn.rs:216 | a comment copy of the version line placed before it gets rewritten, while the real version line stays unchanged |
| Bump.BumpLineChanges | src/bump/fn.rs:204-216 | a bump that changes the version changes the line |
| Bump.BumpContentInPlace | src/bump/fn.rs:191-229 | the corrected rewrite fails exactly as the original does, and reports the same new version |
| Bump.InPlaceEditsOneLine | src/bump/fn.rs:200-220 | the corrected rewrite changes only the first version line, keeps every other line and keeps a trailing `\r` |
| Bump.InPlaceKeepsComment | src/bump/fn.rs:216 | on the commented-copy input the corrected rewrite leaves the comment alone and bumps the real line |
| Bump.ExampleBumpLine | src/bump/fn.rs:166-215 | `version = "1.2.3"` is a version line for 1.2.3, and a patch bump turns it into `version = "1.2.4"` |
| Bump.ReplacenExample | src/bump/fn.rs:216 | on a comment `#version = "1.2.3"` above `version = "1.2.3"`, the bump as written rewrites the comment and keeps the version line, while the in-place bump does the opposite |
| Toml.Lookup | src/publish/fn.rs:102-112 | `None` exactly when no entry has the key; otherwise the value of an entry with that key |
| Manifest.ReadDocument | src/publish/fn.rs:99-101 | an I/O error exactly when the file is missing or unreadable; a parse error exactly when it is malformed |
| Manifest.LocalNamesMember | src/publish/fn.rs:145-153 | a name is local exactly when its entry is a table with a `path` key or with `workspace = true`; string entries are never local |
| Manifest.LocalDependenciesSections | src/publish/fn.rs:139-158 | the result is the local names of `dependencies`, then `dev-dependencies`, then `build-dependencies` |
| Manifest.LocalDependencyMember | src/publish/fn.rs:139-158 | a name is a local dependency exactly when some entry of the three sections with that name is local |
| Manifest.LocalDependenciesKeepDuplicates | src/publish/fn.rs:139-158 | a name listed in several sections is reported once per listing |
| Manifest.ExtractLocalDependencies | src/publish/fn.rs:136-161 | the loop computes LocalDependencies |
| Manifest.PackageDir | src/publish/fn.rs:113-116 | the package directory is the manifest's parent, or `.` when the parent is empty |
| Manifest.ReadPackageManifest | src/publish/fn.rs:98-124 | the only errors are an I/O error, exactly when the file cannot be read, and a parse error exactly when `package`, its `name` or its `version` is missing or not a string; on success the package carries those strings, the parent directory and the local dependencies |
| Discovery.JoinPath | src/publish/fn.rs:52 | an absolute member path replaces the base; a relative one is appended |
| Discovery.Discover | src/publish/fn.rs:12-32 | discovery never succeeds with an empty list |
| Discovery.EntriesErrorSticks | src/publish/fn.rs:54-64 | the first manifest error while scanning a directory is the result |
| Discovery.MembersErrorSticks | src/publish/fn.rs:19-24 | the first error while expanding members is the result |
| Discovery.MembersStep | src/publish/fn.rs:19-24 | each string member is expanded in turn, and other members are skipped |
| Discovery.ExpandPattern | src/publish/fn.rs:45-74 | the method appends the expansion of the pattern to the packages found so far |
| Discovery.DiscoverPackages | src/publish/fn.rs:12-32 | the method computes Discover |
| Discovery.SinglePackageMode | src/publish/fn.rs:27-30 | when the members yield no package, the root manifest is read as the only package |
| Discovery.MissingMemberSkipped | src/publish/fn.rs:66-72 | a literal member without a `Cargo.toml` adds nothing and is no error |
| Discovery.EntriesPackagesDirs | src/publish/fn.rs:53-64 | the packages found are those of the sub-directories holding a `Cargo.toml`; an error comes from one of their manifests |
| Discovery.WildcardMember | src/publish/fn.rs:50-65 | a `*` member yields one package per sub-directory of the pattern's parent that holds a `Cargo.toml` |
| PublishOrder.NameSet | src/publish/fn.rs:179-180 | exactly the names of the packages |
| PublishOrder.PackageMap | src/publish/fn.rs:175-178 | the map has exactly the package names as keys, and each maps to a package of that name |
| PublishOrder.EdgesMember | src/publish/fn.rs:179-190 | an edge runs from d to p exactly when p lists d and d names an input package |
| PublishOrder.BuildGraph | src/publish/fn.rs:179-190 | the in-degrees count each package's edges, and the adjacency lists hold the edges |
| PublishOrder.SeedQueue | src/publish/fn.rs:191-196 | the queue holds every name whose in-degree is zero, once |
| PublishOrder.ReleaseDependents | src/publish/fn.rs:202-211 | the in-degree of every dependent drops once per edge, and the names reaching zero join the queue |
| PublishOrder.TopologicalSort | src/publish/fn.rs:172-217 | on success the names are distinct and the result is a permutation of the input that publishes each package after its local dependencies; otherwise `CircularDependency`, and either two packages share a name or no such order exists |
| PublishOrder.NoPublishOrderAtAll | src/publish/fn.rs:213-215 | a non-empty set of packages that each wait on another package of the set rules out every order |
| PublishOrder.SelfDependencyHasNoOrder | src/publish/fn.rs:181-187 | a package that lists its own name has no publish order |
| PublishOrder.SortedIsPublishOrder | src/publish/fn.rs:197-216 | a drained queue gives a publish order |
| Publish.Backoff | src/publish/fn.rs:244-247 | the k-th delay is 2^(k+1) seconds |
| Publish.BackoffDoubles | src/publish/fn.rs:244-247 | the delays start at 2 and each doubles the one before |
| Publish.BackoffFitsU64 | src/publish/fn.rs:246 | with fewer than 64 retries every delay fits u64 |
| Publish.RetryFromOutcome | src/publish/fn.rs:232-256 | from any attempt, a success reports the attempt that succeeded after failures only; a failure reports `max_retries` and the last error |
| Publish.RetrySemantics | src/publish/fn.rs:229-257 | success exactly when some attempt up to `max_retries` succeeds; on success the retries are the earlier failures and there is no error; otherwise retries is `max_retries` and the error is the last failure's text |
| Publish.CallsBound | src/publish/fn.rs:232-233 | the publish step runs `retries + 1` times, at most `max_retries + 1` |
| Publish.PublishWithRetry | src/publish/fn.rs:229-257 | the loop computes Retry, calls the publisher with attempts 0, 1, … in order, and sleeps the backoff delays, with no sleep after the final failure |
| Publish.Results | src/publish/fn.rs:305-325 | one result per package, in order, each that package's retry outcome |
| Publish.LogsSnoc | src/publish/fn.rs:306-324 | each further package appends its result and its publish calls |
| Publish.ExecutePublish | src/publish/fn.rs:295-326 | discovery errors are returned as they are; a cycle is reported exactly as the sort reports it; on error nothing is published; on success the result is one retry outcome per package of a publish order |
| Publish.ExitStatus | src/main.rs:68-84 | the exit status is 0 exactly when publishing succeeded for every package |
| Template.DirectoryName | src/template/fn.rs:12-24 | each name is non-empty, lower-case, and a single path component |
| Template.DirectoryNameInjective | src/template/fn.rs:12-24 | different kinds get different directories |
| Template.ModelSubTypeName | src/template/fn.rs:35-41 | each name is non-empty, lower-case, and a single path component |
| Template.ModelSubTypeNameInjective | src/template/fn.rs:35-41 | different sub-types get different directories |
| Template.TemplateTypeFromStr | src/template/impl.rs:3-20 | accepted exactly when the lower-cased text is one of the nine names; an error carries the original text |
| Template.ModelSubTypeFromStr | src/template/impl.rs:48-59 | accepted exactly when the lower-cased text is application, request or response; an error carries the original text |
| Template.TemplateTypeRoundTrip | src/template/impl.rs:6-19 | parsing a kind's directory name gives back the kind |
| Template.ModelSubTypeRoundTrip | src/template/impl.rs:51-58 | parsing a sub-type's name gives back the sub-type |
| Template.TemplateTypeIgnoresCase | src/template/impl.rs:6 | texts equal up to case parse alike |
| Template.ModelSubTypeIgnoresCase | src/template/impl.rs:51 | texts equal up to case parse alike |
| Template.FromStrExamples | src/template/impl.rs:6-19 | `CONTROLLER` and `Controller` are accepted; the empty text and `invalid` are refused with the text |
| Template.SubTypeFromStrExamples | src/template/impl.rs:51-58 | `APPLICATION` is accepted; `unknown` is refused with the text |
| Template.NewTemplateConfig | src/template/impl.rs:22-46 | the arguments are stored as given, and the base directory is `./application` |
| Template.RawIdentNotDoubled | src/template/fn.rs:72-77 | a name already starting with `r#` gets no second `r#` |
| Template.DeclLines | src/template/fn.rs:71-78 | one `mod` line per module, in module order |
| Template.PubUsePartsMembers | src/template/fn.rs:80-97 | an item is listed exactly when a module yields it: `const`, `static` and `struct` bare, `enum` and `fn` with `::*`, nothing for other modules |
| Template.ModRsContentParts | src/template/fn.rs:69-109 | the text is the `mod` lines, a line break, the `pub use` line when there are items, a line break and `use super::*;` |
| Template.ModRsEnding | src/template/fn.rs:105-106 | every `mod.rs` ends with a line break followed by `use super::*;` |
| Template.ModRsDeclarations | src/template/fn.rs:71-104 | a line of `mod.rs` starts with `mod ` exactly when it is one of the declaration lines |
| Template.ModRsDeclares | src/template/fn.rs:71-78 | the lines of `mod.rs` starting with `mod ` are exactly `mod r#<module>;` for the modules given |
| Template.PathJoinInjective | src/template/fn.rs:355-358 | joining distinct relative names to one base gives distinct paths |
| Template.RunStepsEffect | src/template/fn.rs:135-335 | running creation steps only adds directories that a step asks for, and changes files only where a step writes; when all steps succeed, each written file holds its text and each requested directory exists |
| Template.ComponentStepsWritten | src/template/fn.rs:135-309 | a component writes its `mod.rs` and one `use super::*;` file per module, and nothing else |
| Template.ComponentFiles | src/template/fn.rs:135-335 | each kind writes the files of its module list, and its `mod.rs` declares exactly those sibling files |
| Template.ExceptionFiles | src/template/fn.rs:277-285 | an exception writes only its `mod.rs`, which holds a line break |
| Template.ExecuteRefusesExisting | src/template/fn.rs:358-362 | a target that exists is refused with `DirectoryExists(target)`, before anything is created; existence ignores doubled or trailing `/` and `.` parts, as path resolution does |
| Template.CurrentDirNameRefused | src/template/fn.rs:356-362 | the component names `""` and `"."` give targets ending in `/` and `/.`, which name the kind's directory, so they are refused once that directory exists |
| Template.ExecuteClosed | src/template/fn.rs:348-393 | a run keeps every directory and file of the disk inside existing directories |
| Template.ExecuteModelWithoutSubType | src/template/fn.rs:378-383 | a model without a sub-type writes no file and fails with `InvalidModelSubType` (or an I/O error creating the kind's directory) |
| Template.ExecuteRunsSteps | src/template/fn.rs:364-384 | after the kind's directory is made, the outcome is that of the kind's creation steps |
| Template.ExecuteOutcomeFiles | src/template/fn.rs:348-393 | on success the target did not exist, the files are the old ones plus the component's files, and the component directory exists; files not written are never touched |
| Template.ExecuteTwiceRefused | src/template/fn.rs:358-362 | generating the same component a second time is refused, also when the target is spelled with a trailing `/` |
| Template.DeclarationText | src/template/fn.rs:71-78 | the first loop builds the declaration lines |
| Template.PubUseItems | src/template/fn.rs:80-97 | the second loop builds the `pub use` items |
| Template.ModRsText | src/template/fn.rs:69-106 | the generator builds the `mod.rs` text |
| Template.Disk.EnsureDirectory | src/template/fn.rs:52-57 | an existing path is left alone; otherwise the directory and its ancestors are created, unless the path is refused |
| Template.Disk.WriteFile | src/template/fn.rs:143 | the file is set to the text when its directory exists and the path is allowed; otherwise nothing changes and an I/O error is returned |
| Template.Disk.WriteModRs | src/template/fn.rs:69-109 | writes the generated `mod.rs` text |
| Template.Disk.WriteEmptyModRs | src/template/fn.rs:120-123 | writes a `mod.rs` holding a line break |
| Template.Disk.RunCreateSteps | src/template/fn.rs:135-335 | performs the steps in order, stopping at the first error |
| Template.Disk.ExecuteTemplate | src/template/fn.rs:348-393 | the disk and the result are those of ExecuteOutcome |
| NewProject.ValidateProjectName | src/new/fn.rs:12-29 | accepted exactly when the name is non-empty, has none of `/`, `\` and `:`, and starts with neither `.` nor `-`; each failure gets the message of the first check it fails |
| NewProject.ValidateExamples | src/new/fn.rs:12-29 | `./x` gets the invalid-characters message; `.hidden` and `-x` get the bad-start message |
| NewProject.NewProjectConfigFor | src/new/impl.rs:13-18 | stores the name, with the quick-start template URL |
| NewProject.GitClone | src/new/fn.rs:60-80 | an existing directory is refused before git runs; otherwise one clone of the template into the name's directory, which succeeds exactly when git does |
| NewProject.ExecuteNewOrder | src/new/fn.rs:91-104 | an invalid name starts no git run; a clone happens only after the git check, for a valid name whose directory does not exist; the command succeeds exactly when the clone does |
| Config.ApplyFlag | src/config/fn.rs:17-35 | help and version always set the command; `fmt` and `watch` only replace help or version; `--check` sets check mode; anything else changes nothing |
| Config.ParseArgs | src/config/fn.rs:8-51 | the loop computes Parse |
| Config.ScanEnd | src/config/fn.rs:14-45 | the walk ends at the end, or one past it after a trailing `--manifest-path` |
| Config.ParseDefaults | src/config/fn.rs:10-13 | without arguments: help, no check mode, no manifest path |
| Config.ParseIgnoresProgramName | src/config/fn.rs:13 | the program name is never looked at |
| Config.ParseSnoc | src/config/fn.rs:14-45 | each argument other than `--manifest-path` is applied to what came before |
| Config.ParseManifestPath | src/config/fn.rs:36-41 | `--manifest-path X` sets the path to X, changes nothing else, and the last occurrence wins |
| Config.ParseTrailingManifestPath | src/config/fn.rs:36-41 | a trailing `--manifest-path` without a value changes nothing |
| Config.ManifestValueNotAFlag | src/config/fn.rs:36-41 | the value after `--manifest-path` is never read as a flag |
| Config.FirstSubcommandWins | src/config/fn.rs:23-32 | once `fmt` or `watch` is chosen, a later subcommand is ignored |
| Config.HelpAndVersionOverride | src/config/fn.rs:17-22 | help and version override any earlier command |
| Config.CheckIsSticky | src/config/fn.rs:33-35 | once `--check` is seen, check mode stays on |
| Config.ParseExamples | src/config/fn.rs:8-51 | sample command lines and what they parse to |

## Left out

**External effects**
- Process runs are oracles or parameters, not modelled. This covers `cargo publish`, `git --version` and `git clone`, and the `fmt` and `watch` commands entirely.
- The `format_path` call at the end of `execute_template` is not modelled.
- Printing is not modelled: the `println!`/`eprintln!` calls in `execute_publish`, `execute_template` and `execute_new`, and the help text.
- Sleeping is not modelled. The delays are recorded as a ghost sequence.
- The real file system is an abstract map, with no permissions, links or timestamps.
- Bump.ExecuteBump: reading the manifest with `read_to_string` and writing the result back with `write` are outside the model, and so are the I/O errors either call can return. The method maps the file's text to the new text and the new version.
- Template.Exists: paths are compared after dropping empty and `.` parts, as the system resolves them. A `..` part is compared as a name rather than resolved against the directory above, and symbolic links are not followed.
- Discovery.Components: a member pattern's `..` part is kept as a name, not resolved against the directory above. A member such as `../sibling` or `a/../b` is looked up under a path that holds no directory, so it is skipped, while the code reads the manifest it reaches. If the members then yield nothing, the root manifest is read as the only package.
- Template.ExecuteRefusesExisting and Template.Disk.ExecuteTemplate: a target that reaches an existing directory only through a `..` part, such as the component name `x/..`, is not refused, while the code refuses it.
- Template.ApplyStep: the check that a file's parent directories exist compares their spellings as text, so a write whose path repeats a `/` or holds a `.` part needs those spellings among the directories.
- I/O error payloads are reduced to the failing path. `NewError::IoError` carries no detail.

**Parsing and iteration order**
- TOML text parsing is not modelled. Manifests are given already parsed, or marked unreadable or malformed.
- The iteration order of `HashMap`, `read_dir` and TOML tables is not fixed. The sort seeds its queue in an arbitrary order, and tables are association lists in an order the caller chooses.
- `to_lowercase` is modelled for ASCII only. For the fixed names accepted here it accepts the same texts.
- Byte offsets into UTF-8 strings are modelled as character indices.

**Dispatch and declarations**
- `main`'s dispatch of the commands is not modelled, except its exit status after `publish`.
- `Args.bump_type` and the `CommandType` variants beyond help, version, fmt and watch are not modelled, because `parse_args` never sets them.

**Integer widths and preconditions**
- Bump.BumpVersion: requires that no field overflows u64. ExecuteBump returns an `Overflow` error where the Rust code would panic (debug build) or wrap (release build).
- Publish.PublishWithRetry: requires `max_retries < 64`. Beyond that `2_u64.pow(attempt)` overflows, and `attempt += 1` overflows at `u32::MAX`.
- Template.ExecuteTwiceRefused: for a model component, requires a target with at least one named part. A name such as `/` or `/.` makes the target the root directory, whose existence the disk model does not force.
- NewProject.ExecuteNewOrder: its contract needs no proof beyond unfolding the definition of `execute_new`.

**Where the code differs from the documentation**
- `discover_packages` never returns an empty list: when the members yield nothing, the root manifest is read. `execute_publish`'s empty-list branch is therefore unreachable.
- `extract_local_dependencies` does not deduplicate names across the three sections.

## Findings

| source | as written | input that shows it | evidently intended | confidence | as-written member | corrected member |
|---|---|---|---|---|---|---|
| src/bump/fn.rs:216 | the bumped line replaces the first occurrence of the version line's text anywhere in the content | `#version = "1.2.3"` on the first line and `version = "1.2.3"` on the second: a patch bump gives `#version = "1.2.4"` and leaves the second line at 1.2.3 (Bump.ReplacenExample) | rewrite the version line that was found, at its own position | not executed | Bump.ReplacenRewritesEarlierLine | Bump.BumpContentInPlace |

Bump.ExecuteBump and Bump.BumpFirstVersionLine keep the behaviour as written. Bump.BumpContentInPlace is the corrected rewrite: it fails in the same cases and reports the same new version, and Bump.InPlaceEditsOneLine proves that it edits only the version line it found.
