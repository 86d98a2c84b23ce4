/**
 * `new`: checking the project name, then creating the project by cloning
 * the quick-start template with git. The two git runs (`git --version` and
 * `git clone`) are oracles given as parameters; the model records which of
 * them were started, in order.
 */
module NewProject {
  import opened Wrappers

  /** `NewError`; an I/O error from starting `git clone` carries no detail here. */
  datatype NewError =
    | IoError
    | GitNotFound
    | ProjectExists(name: string)
    | CloneFailed(stderr: string)
    | InvalidName(message: string)

  const EmptyNameMessage: string := "Project name cannot be empty"
  const InvalidCharactersMessage: string := "Project name contains invalid characters"
  const BadStartMessage: string := "Project name cannot start with '.' or '-'"

  /** The characters a project name may not contain: they would make it a path. */
  predicate HasPathCharacter(name: string)
  {
    '/' in name || '\\' in name || ':' in name
  }

  /** Names that would be hidden or read as an option. */
  predicate HasBadStart(name: string)
  {
    |name| > 0 && (name[0] == '.' || name[0] == '-')
  }

  /**
   * `validate_project_name`: a name is accepted exactly when it is not empty,
   * holds none of `/`, `\` and `:`, and does not start with `.` or `-`. The
   * checks run in that order, so the first one a name fails decides the
   * message.
   */
  function ValidateProjectName(name: string): (r: Result<(), NewError>)
    ensures r.Ok? <==> name != "" && !HasPathCharacter(name) && !HasBadStart(name)
    ensures r.Err? ==> r.error.InvalidName?
    ensures r == Err(InvalidName(EmptyNameMessage)) <==> name == ""
    ensures r == Err(InvalidName(InvalidCharactersMessage)) <==> name != "" && HasPathCharacter(name)
    ensures r == Err(InvalidName(BadStartMessage)) <==> !HasPathCharacter(name) && HasBadStart(name)
  {
    if name == "" then Err(InvalidName(EmptyNameMessage))
    else if '/' in name || '\\' in name || ':' in name then Err(InvalidName(InvalidCharactersMessage))
    else if name[0] == '.' || name[0] == '-' then Err(InvalidName(BadStartMessage))
    else Ok(())
  }

  /** The order of the checks decides the message: `./x` is refused for its `/`, not for its leading dot. */
  lemma ValidateExamples()
    ensures ValidateProjectName("./x") == Err(InvalidName(InvalidCharactersMessage))
    ensures ValidateProjectName(".hidden") == Err(InvalidName(BadStartMessage))
    ensures ValidateProjectName("-x") == Err(InvalidName(BadStartMessage))
    ensures ValidateProjectName("") == Err(InvalidName(EmptyNameMessage))
    ensures ValidateProjectName("my-project") == Ok(())
    ensures ValidateProjectName("a:b") == Err(InvalidName(InvalidCharactersMessage))
  {
    assert "./x"[1] == '/';
    assert "a:b"[1] == ':';
    assert !HasPathCharacter("my-project") by {
      forall i | 0 <= i < |"my-project"|
        ensures "my-project"[i] != '/' && "my-project"[i] != '\\' && "my-project"[i] != ':'
      {
      }
    }
  }

  /** The repository every new project is cloned from. */
  const TemplateUrl: string := "https://github.com/hyperlane-dev/hyperlane-quick-start"

  /** `NewProjectConfig` */
  datatype NewProjectConfig = NewProjectConfig(projectName: string, templateUrl: string)

  /** `NewProjectConfig::new`: the name as given, cloned from the quick-start template. */
  function NewProjectConfigFor(projectName: string): (c: NewProjectConfig)
    ensures c.projectName == projectName && c.templateUrl == TemplateUrl
  {
    NewProjectConfig(projectName, TemplateUrl)
  }

  /** A git run the command starts. */
  datatype GitRun = VersionCheck | Clone(url: string, directory: string)

  /** How `git clone` ends: it could not be started, it failed with this standard error, or it succeeded. */
  datatype CloneOutcome = CloneSpawnFailed | CloneExited(success: bool, stderr: string)

  /**
   * `git_clone`: refuse a project directory that already exists, otherwise
   * run `git clone <template> <name>`.
   */
  function GitClone(config: NewProjectConfig, projectExists: bool, clone: CloneOutcome)
    : (out: (Result<(), NewError>, seq<GitRun>))
    ensures projectExists ==> out == (Err(ProjectExists(config.projectName)), [])
    ensures !projectExists ==> out.1 == [Clone(config.templateUrl, config.projectName)]
    ensures out.0.Ok? <==> !projectExists && clone.CloneExited? && clone.success
  {
    if projectExists then (Err(ProjectExists(config.projectName)), [])
    else
      var runs := [Clone(config.templateUrl, config.projectName)];
      match clone
      case CloneSpawnFailed => (Err(IoError), runs)
      case CloneExited(success, stderr) => (if success then Ok(()) else Err(CloneFailed(stderr)), runs)
  }

  /**
   * `execute_new`: validate the name, check that git runs, then clone.
   * `gitAvailable` is the outcome of `git --version`; `projectExists` whether
   * a directory of the project's name exists; `clone` the outcome of the
   * clone. The result comes with the git runs started, in order.
   */
  function ExecuteNew(projectName: string, gitAvailable: bool, projectExists: bool, clone: CloneOutcome)
    : (out: (Result<(), NewError>, seq<GitRun>))
  {
    match ValidateProjectName(projectName)
    case Err(e) => (Err(e), [])
    case Ok(_) =>
      if !gitAvailable then (Err(GitNotFound), [VersionCheck])
      else
        var (r, runs) := GitClone(NewProjectConfigFor(projectName), projectExists, clone);
        (r, [VersionCheck] + runs)
  }

  /**
   * No git run starts for an invalid name; a clone is only ever attempted
   * after git answered, for a valid name whose directory does not exist,
   * from the quick-start template into a directory of that name; and the
   * command succeeds exactly when that clone does.
   */
  lemma ExecuteNewOrder(projectName: string, gitAvailable: bool, projectExists: bool, clone: CloneOutcome)
    ensures var (r, runs) := ExecuteNew(projectName, gitAvailable, projectExists, clone);
            && (ValidateProjectName(projectName).Err? ==> r == ValidateProjectName(projectName) && runs == [])
            && (ValidateProjectName(projectName).Ok? ==> |runs| >= 1 && runs[0] == VersionCheck)
            && (ValidateProjectName(projectName).Ok? && !gitAvailable ==> r == Err(GitNotFound) && runs == [VersionCheck])
            && (forall i :: 0 <= i < |runs| && runs[i].Clone? ==>
                  && i == 1
                  && ValidateProjectName(projectName).Ok? && gitAvailable && !projectExists
                  && runs[i] == Clone(TemplateUrl, projectName))
            && (r.Ok? <==> ValidateProjectName(projectName).Ok? && gitAvailable && !projectExists
                           && clone.CloneExited? && clone.success)
  {
  }
}
