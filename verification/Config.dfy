/**
 * Command-line parsing: `parse_args` walks the arguments after the program
 * name once, left to right. `-h`/`--help` and `-v`/`--version` always set
 * the command; `fmt` and `watch` set it only while no subcommand has been
 * chosen; `--check` switches check mode on; `--manifest-path` takes the next
 * argument as its value. Anything else is ignored.
 */
module Config {
  import opened Wrappers

  /** `CommandType` */
  datatype CommandType = Fmt | Watch | Help | Version

  /** `Args`, the fields `parse_args` fills in. */
  datatype Args = Args(command: CommandType, check: bool, manifestPath: Option<string>)

  /** What `parse_args` starts from: help, no check mode, no manifest path. */
  const DefaultArgs: Args := Args(Help, false, None)

  /** Help and version are the commands a subcommand may still replace. */
  predicate NoSubcommand(c: CommandType)
  {
    c == Help || c == Version
  }

  /**
   * The effect of one argument other than `--manifest-path`: the help and
   * version flags override any command, a subcommand only replaces help or
   * version, `--check` sets check mode, and nothing else changes anything.
   */
  function ApplyFlag(a: Args, arg: string): (r: Args)
    ensures r.manifestPath == a.manifestPath
    ensures r.check <==> a.check || arg == "--check"
    ensures (arg == "-h" || arg == "--help") ==> r.command == Help
    ensures (arg == "-v" || arg == "--version") ==> r.command == Version
    ensures (arg == "fmt" || arg == "watch") && !NoSubcommand(a.command) ==> r == a
    ensures arg == "fmt" && NoSubcommand(a.command) ==> r.command == Fmt
    ensures arg == "watch" && NoSubcommand(a.command) ==> r.command == Watch
    ensures arg !in {"-h", "--help", "-v", "--version", "fmt", "watch", "--check"} ==> r == a
  {
    if arg == "-h" || arg == "--help" then a.(command := Help)
    else if arg == "-v" || arg == "--version" then a.(command := Version)
    else if arg == "fmt" then (if NoSubcommand(a.command) then a.(command := Fmt) else a)
    else if arg == "watch" then (if NoSubcommand(a.command) then a.(command := Watch) else a)
    else if arg == "--check" then a.(check := true)
    else a
  }

  /**
   * The arguments from position `i` on, applied to `a`: the result and the
   * position the walk stops at. `--manifest-path` consumes the argument
   * after it, and is ignored when it is the last one.
   */
  function Scan(raw: seq<string>, i: nat, a: Args): (r: (Args, nat))
    ensures r.1 >= i
    decreases |raw| - i
  {
    if i >= |raw| then (a, i)
    else if raw[i] == "--manifest-path" then
      Scan(raw, i + 2, if i + 1 < |raw| then a.(manifestPath := Some(raw[i + 1])) else a)
    else Scan(raw, i + 1, ApplyFlag(a, raw[i]))
  }

  /** What `parse_args` returns for the command line `raw` (program name first). */
  function Parse(raw: seq<string>): Args
  {
    Scan(raw, 1, DefaultArgs).0
  }

  /**
   * The command line ends on a whole argument: it is not a trailing
   * `--manifest-path` still waiting for its value.
   */
  predicate Complete(raw: seq<string>)
  {
    Scan(raw, 1, DefaultArgs).1 == |raw|
  }

  /** `parse_args` over the command line `raw`. */
  method ParseArgs(raw: seq<string>) returns (args: Args)
    ensures args == Parse(raw)
  {
    var command := Help;
    var check := false;
    var manifestPath: Option<string> := None;
    var i := 1;
    while i < |raw|
      invariant i >= 1
      invariant Scan(raw, i, Args(command, check, manifestPath)) == Scan(raw, 1, DefaultArgs)
      decreases |raw| - i
    {
      var arg := raw[i];
      if arg == "-h" || arg == "--help" {
        command := Help;
      } else if arg == "-v" || arg == "--version" {
        command := Version;
      } else if arg == "fmt" {
        if command == Help || command == Version {
          command := Fmt;
        }
      } else if arg == "watch" {
        if command == Help || command == Version {
          command := Watch;
        }
      } else if arg == "--check" {
        check := true;
      } else if arg == "--manifest-path" {
        i := i + 1;
        if i < |raw| {
          manifestPath := Some(raw[i]);
        }
      }
      i := i + 1;
    }
    args := Args(command, check, manifestPath);
  }

  /** The walk only stops at the end, or one past it after a trailing `--manifest-path`. */
  lemma {:induction false} ScanEnd(raw: seq<string>, i: nat, a: Args)
    requires i <= |raw|
    ensures Scan(raw, i, a).1 == |raw| || Scan(raw, i, a).1 == |raw| + 1
    decreases |raw| - i
  {
    if i < |raw| {
      if raw[i] == "--manifest-path" {
        if i + 1 < |raw| {
          ScanEnd(raw, i + 2, a.(manifestPath := Some(raw[i + 1])));
        }
      } else {
        ScanEnd(raw, i + 1, ApplyFlag(a, raw[i]));
      }
    }
  }

  /** Arguments appended after a complete walk are applied to its result. */
  lemma {:induction false} ScanAppend(raw: seq<string>, ext: seq<string>, i: nat, a: Args)
    requires i <= |raw|
    requires Scan(raw, i, a).1 == |raw|
    ensures Scan(raw + ext, i, a) == Scan(raw + ext, |raw|, Scan(raw, i, a).0)
    decreases |raw| - i
  {
    if i < |raw| {
      assert (raw + ext)[i] == raw[i];
      if raw[i] == "--manifest-path" {
        if i + 1 < |raw| {
          assert (raw + ext)[i + 1] == raw[i + 1];
          ScanAppend(raw, ext, i + 2, a.(manifestPath := Some(raw[i + 1])));
        }
      } else {
        ScanAppend(raw, ext, i + 1, ApplyFlag(a, raw[i]));
      }
    }
  }

  /** The walk from position `i` never looks before `i`. */
  lemma {:induction false} ScanIgnoresPrefix(raw: seq<string>, other: seq<string>, i: nat, a: Args)
    requires |raw| == |other| && i <= |raw|
    requires forall k :: i <= k < |raw| ==> raw[k] == other[k]
    ensures Scan(raw, i, a) == Scan(other, i, a)
    decreases |raw| - i
  {
    if i < |raw| {
      if raw[i] == "--manifest-path" {
        if i + 2 <= |raw| {
          ScanIgnoresPrefix(raw, other, i + 2, if i + 1 < |raw| then a.(manifestPath := Some(raw[i + 1])) else a);
        }
      } else {
        ScanIgnoresPrefix(raw, other, i + 1, ApplyFlag(a, raw[i]));
      }
    }
  }

  /** Without arguments after the program name, the defaults: help, no check mode, no manifest path. */
  lemma ParseDefaults(raw: seq<string>)
    requires |raw| <= 1
    ensures Parse(raw) == DefaultArgs
    ensures |raw| == 1 ==> Complete(raw)
  {
  }

  /** The program name is never interpreted. */
  lemma ParseIgnoresProgramName(raw: seq<string>, name: string)
    requires |raw| >= 1
    ensures Parse([name] + raw[1..]) == Parse(raw)
  {
    ScanIgnoresPrefix(raw, [name] + raw[1..], 1, DefaultArgs);
  }

  /** Appending an argument other than `--manifest-path` applies it to what came before. */
  lemma ParseSnoc(raw: seq<string>, arg: string)
    requires |raw| >= 1 && Complete(raw)
    requires arg != "--manifest-path"
    ensures Parse(raw + [arg]) == ApplyFlag(Parse(raw), arg)
    ensures Complete(raw + [arg])
  {
    ScanAppend(raw, [arg], 1, DefaultArgs);
  }

  /** `--manifest-path <value>` at the end sets the manifest path to that value and changes nothing else. */
  lemma ParseManifestPath(raw: seq<string>, value: string)
    requires |raw| >= 1 && Complete(raw)
    ensures Parse(raw + ["--manifest-path", value]) == Parse(raw).(manifestPath := Some(value))
    ensures Complete(raw + ["--manifest-path", value])
  {
    ScanAppend(raw, ["--manifest-path", value], 1, DefaultArgs);
  }

  /** A trailing `--manifest-path` without a value is ignored, and leaves the line incomplete. */
  lemma ParseTrailingManifestPath(raw: seq<string>)
    requires |raw| >= 1 && Complete(raw)
    ensures Parse(raw + ["--manifest-path"]) == Parse(raw)
    ensures !Complete(raw + ["--manifest-path"])
  {
    ScanAppend(raw, ["--manifest-path"], 1, DefaultArgs);
  }

  /** The value of `--manifest-path` is taken as it is, even when it looks like a flag. */
  lemma ManifestValueNotAFlag(raw: seq<string>)
    requires |raw| >= 1 && Complete(raw)
    ensures Parse(raw + ["--manifest-path", "-v"]).command == Parse(raw).command
    ensures Parse(raw + ["--manifest-path", "--check"]).check == Parse(raw).check
  {
    ParseManifestPath(raw, "-v");
    ParseManifestPath(raw, "--check");
  }

  /** The first subcommand wins: once `fmt` or `watch` is chosen, another one is ignored. */
  lemma FirstSubcommandWins(raw: seq<string>, arg: string)
    requires |raw| >= 1 && Complete(raw)
    requires Parse(raw).command == Fmt || Parse(raw).command == Watch
    requires arg == "fmt" || arg == "watch"
    ensures Parse(raw + [arg]) == Parse(raw)
  {
    ParseSnoc(raw, arg);
  }

  /** The help and version flags override whatever came before. */
  lemma HelpAndVersionOverride(raw: seq<string>)
    requires |raw| >= 1 && Complete(raw)
    ensures Parse(raw + ["-h"]).command == Help && Parse(raw + ["--help"]).command == Help
    ensures Parse(raw + ["-v"]).command == Version && Parse(raw + ["--version"]).command == Version
  {
    ParseSnoc(raw, "-h");
    ParseSnoc(raw, "--help");
    ParseSnoc(raw, "-v");
    ParseSnoc(raw, "--version");
  }

  /** The walk never switches check mode off. */
  lemma {:induction false} ScanKeepsCheck(raw: seq<string>, i: nat, a: Args)
    requires a.check
    ensures Scan(raw, i, a).0.check
    decreases |raw| - i
  {
    if i < |raw| {
      if raw[i] == "--manifest-path" {
        ScanKeepsCheck(raw, i + 2, if i + 1 < |raw| then a.(manifestPath := Some(raw[i + 1])) else a);
      } else {
        ScanKeepsCheck(raw, i + 1, ApplyFlag(a, raw[i]));
      }
    }
  }

  /** Once `--check` has been seen, check mode stays on whatever follows. */
  lemma CheckIsSticky(raw: seq<string>, ext: seq<string>)
    requires |raw| >= 1 && Complete(raw)
    requires Parse(raw).check
    ensures Parse(raw + ext).check
  {
    ScanAppend(raw, ext, 1, DefaultArgs);
    ScanKeepsCheck(raw + ext, |raw|, Parse(raw));
  }

  /** A few command lines and what they parse to. */
  lemma ParseExamples()
    ensures Parse(["hyperlane-cli", "fmt", "--check"]) == Args(Fmt, true, None)
    ensures Parse(["hyperlane-cli", "watch", "fmt"]) == Args(Watch, false, None)
    ensures Parse(["hyperlane-cli", "fmt", "-h", "watch"]) == Args(Watch, false, None)
    ensures Parse(["hyperlane-cli", "--manifest-path", "a", "--manifest-path", "b"]) == Args(Help, false, Some("b"))
    ensures Parse(["hyperlane-cli", "fmt", "--manifest-path"]) == Args(Fmt, false, None)
    ensures Parse(["hyperlane-cli", "--manifest-path", "-v"]) == Args(Help, false, Some("-v"))
  {
  }
}
