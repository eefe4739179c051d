/** The argument pre-splitter of src/cli.js (`separateChildArgs`): before
    commander parses the command line, a `--` is put in front of the first
    word that is neither an option, an option's value nor a command, so
    that everything from there on goes to the child process untouched, and
    the default command is put in when none was given. Commander's own
    tables enter as two parameters: `optionFor` gives, for a known option,
    whether it takes a value, and `isCommand` tells the command words. */
module CliArgs {
  import opened Outcomes

  predicate IsDashed(arg: string) {
    |arg| > 0 && arg[0] == '-'
  }

  /** Where the scan stops, whether a command word was passed on the way,
      and whether it stopped at a word for the child. */
  datatype Stop = Stop(at: nat, haveCommand: bool, atChild: bool)

  /** The scan from index `i` (src/cli.js:138-162). A known option that
      takes a value skips the next word; an unknown option skips the next
      word unless that word starts with a dash. */
  function Scan(argv: seq<string>, optionFor: string -> Option<bool>, isCommand: string -> bool,
                i: nat, have: bool): (r: Stop)
    ensures r.at >= i && (have ==> r.haveCommand)
    ensures r.atChild ==> r.at < |argv| && !IsDashed(argv[r.at]) && !isCommand(argv[r.at])
    ensures !r.atChild && i <= r.at < |argv| ==> argv[r.at] == "--"
    ensures i <= |argv| + 1 ==> r.at <= |argv| + 1
    decreases |argv| - i
  {
    if i >= |argv| then Stop(i, have, false)
    else
      var arg := argv[i];
      if arg == "--" then Stop(i, have, false)
      else if IsDashed(arg) then
        var skip := match optionFor(arg)
          case Some(takesValue) => takesValue
          case None => i < |argv| - 1 && !IsDashed(argv[i + 1]);
        Scan(argv, optionFor, isCommand, if skip then i + 2 else i + 1, have)
      else if isCommand(arg) then Scan(argv, optionFor, isCommand, i + 1, true)
      else Stop(i, have, true)
  }

  /** `s.splice(i, 0, x)`: an index beyond the end appends. */
  function Insert(s: seq<string>, i: nat, x: string): (r: seq<string>)
    ensures |r| == |s| + 1
  {
    if i <= |s| then s[..i] + [x] + s[i..] else s + [x]
  }

  /** The words put in at the stop: the default command unless one was
      given, then `--` if the scan stopped at a word for the child. */
  function Inserted(stop: Stop, defaultCmd: string): seq<string> {
    (if stop.haveCommand then [] else [defaultCmd]) + (if stop.atChild then ["--"] else [])
  }

  function Separated(argv: seq<string>, defaultCmd: string,
                     optionFor: string -> Option<bool>, isCommand: string -> bool): seq<string>
  {
    var stop := Scan(argv, optionFor, isCommand, 2, false);
    var k := if stop.at <= |argv| then stop.at else |argv|;
    argv[..k] + Inserted(stop, defaultCmd) + argv[k..]
  }

  /** `separateChildArgs` (src/cli.js:135-168), on a copy of the input. */
  method SeparateChildArgs(rawArgv: seq<string>, defaultCmd: string,
                           optionFor: string -> Option<bool>, isCommand: string -> bool)
    returns (argv: seq<string>)
    ensures argv == Separated(rawArgv, defaultCmd, optionFor, isCommand)
  {
    argv := rawArgv;
    ghost var stop := Scan(rawArgv, optionFor, isCommand, 2, false);
    var i := 2;
    var haveCommand := false;
    while i < |argv|
      invariant argv == rawArgv && i >= 2
      invariant Scan(rawArgv, optionFor, isCommand, i, haveCommand) == stop
      decreases |argv| - i
    {
      var arg := argv[i];
      if arg == "--" {
        break;
      }
      if |arg| > 0 && arg[0] == '-' {
        match optionFor(arg) {
          case Some(takesValue) =>
            if takesValue { i := i + 1; }
          case None =>
            if i < |argv| - 1 && !(|argv[i + 1]| > 0 && argv[i + 1][0] == '-') { i := i + 1; }
        }
      } else if isCommand(arg) {
        haveCommand := true;
        i := i + 1;
        continue;
      } else {
        argv := argv[..i] + ["--"] + argv[i..];
        break;
      }
      i := i + 1;
    }
    assert stop == Stop(i, haveCommand, argv != rawArgv);
    ghost var cut := argv;
    if !haveCommand {
      argv := Insert(argv, i, defaultCmd);
    }
    Finish(rawArgv, cut, i, stop, defaultCmd);
  }

  /** The words put in where the scan stopped, on the input as the loop
      leaves it: unchanged, or with the `--` already spliced in. */
  lemma Finish(raw: seq<string>, argv: seq<string>, i: nat, stop: Stop, defaultCmd: string)
    requires stop.at == i
    requires stop.atChild ==> i < |raw| && argv == raw[..i] + ["--"] + raw[i..]
    requires !stop.atChild ==> argv == raw
    ensures var k := if i <= |raw| then i else |raw|;
            (if stop.haveCommand then argv else Insert(argv, i, defaultCmd))
            == raw[..k] + Inserted(stop, defaultCmd) + raw[k..]
  {
    if stop.atChild {
      assert argv[..i] == raw[..i] && argv[i..] == ["--"] + raw[i..];
    } else if i > |raw| {
      assert raw[..|raw|] == raw && raw[|raw|..] == [];
    }
  }

  /** Every word the scan passes is an option, the word after one, or a
      command word, and a command was seen only if the scan passed one. */
  lemma {:induction false} ScanPasses(argv: seq<string>, optionFor: string -> Option<bool>,
                                      isCommand: string -> bool, i: nat, have: bool)
    requires i >= 2
    ensures var r := Scan(argv, optionFor, isCommand, i, have);
            forall j :: i <= j < r.at && j < |argv| ==>
              IsDashed(argv[j]) || isCommand(argv[j]) || IsDashed(argv[j - 1])
    ensures var r := Scan(argv, optionFor, isCommand, i, have);
            r.haveCommand ==> have || exists j :: i <= j < r.at && j < |argv| && isCommand(argv[j])
    decreases |argv| - i
  {
    if i < |argv| && argv[i] != "--" {
      var arg := argv[i];
      if IsDashed(arg) {
        var skip := match optionFor(arg)
          case Some(takesValue) => takesValue
          case None => i < |argv| - 1 && !IsDashed(argv[i + 1]);
        var next := if skip then i + 2 else i + 1;
        ScanPasses(argv, optionFor, isCommand, next, have);
      } else if isCommand(arg) {
        ScanPasses(argv, optionFor, isCommand, i + 1, true);
      }
    }
  }

  /** The result is the input with at most two words put in at one place:
      the default command when none was given, then `--` when the scan
      stopped at a word for the child. Nothing of the input is lost or
      reordered, and the words for the child follow the `--` unchanged. */
  lemma SeparatedShape(argv: seq<string>, defaultCmd: string,
                       optionFor: string -> Option<bool>, isCommand: string -> bool)
    ensures var r := Separated(argv, defaultCmd, optionFor, isCommand);
            var stop := Scan(argv, optionFor, isCommand, 2, false);
            var k := if stop.at <= |argv| then stop.at else |argv|;
            var n := |Inserted(stop, defaultCmd)|;
            && |r| == |argv| + n && n <= 2
            && r[..k] == argv[..k]
            && r[k + n..] == argv[k..]
            && r[..k] + r[k + n..] == argv
            && (!stop.haveCommand ==> r[k] == defaultCmd)
            && (stop.atChild ==> r[k + n - 1] == "--" && !IsDashed(r[k + n]) && !isCommand(r[k + n]))
            && (k < |argv| && argv[k] == "--" ==> n <= 1)
  {
    var r := Separated(argv, defaultCmd, optionFor, isCommand);
    var stop := Scan(argv, optionFor, isCommand, 2, false);
    var k := if stop.at <= |argv| then stop.at else |argv|;
    var ins := Inserted(stop, defaultCmd);
    assert r == argv[..k] + ins + argv[k..];
    assert r[..k] == argv[..k];
    assert r[k + |ins|..] == argv[k..];
    assert argv[..k] + argv[k..] == argv;
  }

  /** The options of the envex command line and of its commands: those
      that take a value, and those that do not. */
  function EnvexOption(arg: string): (r: Option<bool>)
    ensures r.Some? <==> arg in ["-f", "--rc-file", "-p", "--profile", "--out",
                                 "-s", "--shell", "-w", "--overwrite", "-V", "--version"]
  {
    if arg in ["-f", "--rc-file", "-p", "--profile", "--out"] then Some(true)
    else if arg in ["-s", "--shell", "-w", "--overwrite", "-V", "--version"] then Some(false)
    else None
  }

  predicate EnvexCommand(arg: string) {
    arg == "run" || arg == "get"
  }

  /** `-p app npm --init` becomes `-p app run -- npm --init`. */
  lemma ImplicitRun()
    ensures Separated(["node", "envex.js", "-p", "app", "npm", "--init"], "run", EnvexOption, EnvexCommand)
            == ["node", "envex.js", "-p", "app", "run", "--", "npm", "--init"]
  {
    var argv := ["node", "envex.js", "-p", "app", "npm", "--init"];
    assert EnvexOption("-p") == Some(true) && argv[2] == "-p" && argv[4] == "npm";
    assert Scan(argv, EnvexOption, EnvexCommand, 4, false) == Stop(4, false, true);
    assert Scan(argv, EnvexOption, EnvexCommand, 2, false) == Stop(4, false, true);
    assert Inserted(Stop(4, false, true), "run") == ["run", "--"];
    assert argv[..4] + ["run", "--"] + argv[4..] == ["node", "envex.js", "-p", "app", "run", "--", "npm", "--init"];
  }

  /** An explicit `run` gets only the `--`. */
  lemma ExplicitRun()
    ensures Separated(["node", "envex.js", "-p", "app", "run", "npm", "--init"], "run", EnvexOption, EnvexCommand)
            == ["node", "envex.js", "-p", "app", "run", "--", "npm", "--init"]
  {
    var argv := ["node", "envex.js", "-p", "app", "run", "npm", "--init"];
    assert EnvexOption("-p") == Some(true) && argv[2] == "-p" && argv[4] == "run" && argv[5] == "npm";
    assert Scan(argv, EnvexOption, EnvexCommand, 5, true) == Stop(5, true, true);
    assert Scan(argv, EnvexOption, EnvexCommand, 4, false) == Stop(5, true, true);
    assert Scan(argv, EnvexOption, EnvexCommand, 2, false) == Stop(5, true, true);
    assert Inserted(Stop(5, true, true), "run") == ["--"];
    assert argv[..5] + ["--"] + argv[5..] == ["node", "envex.js", "-p", "app", "run", "--", "npm", "--init"];
  }

  const OptionsArgv := ["node", "envex.js", "-p", "app", "-s", "--out", "file.env", "run", "npm", "--init"]

  /** Options of `run` may come before it; `--out` takes a value, `-s` does not. */
  lemma OptionsBeforeRun()
    ensures Separated(OptionsArgv, "run", EnvexOption, EnvexCommand)
            == ["node", "envex.js", "-p", "app", "-s", "--out", "file.env", "run", "--", "npm", "--init"]
  {
    OptionsScan();
    assert Inserted(Stop(8, true, true), "run") == ["--"];
    assert OptionsArgv[..8] + ["--"] + OptionsArgv[8..]
           == ["node", "envex.js", "-p", "app", "-s", "--out", "file.env", "run", "--", "npm", "--init"];
  }

  /** The scan passes `-p app`, `-s`, `--out file.env` and `run`, and stops at `npm`. */
  lemma OptionsScan()
    ensures Scan(OptionsArgv, EnvexOption, EnvexCommand, 2, false) == Stop(8, true, true)
  {
    var argv := OptionsArgv;
    OptionsScanTail();
    assert EnvexOption("-p") == Some(true) && EnvexOption("-s") == Some(false);
    assert argv[2] == "-p" && argv[4] == "-s";
    assert Scan(argv, EnvexOption, EnvexCommand, 4, false) == Stop(8, true, true);
  }

  lemma OptionsScanTail()
    ensures Scan(OptionsArgv, EnvexOption, EnvexCommand, 5, false) == Stop(8, true, true)
  {
    var argv := OptionsArgv;
    assert EnvexOption("--out") == Some(true);
    assert argv[5] == "--out" && argv[7] == "run" && argv[8] == "npm";
    assert Scan(argv, EnvexOption, EnvexCommand, 8, true) == Stop(8, true, true);
    assert Scan(argv, EnvexOption, EnvexCommand, 7, false) == Stop(8, true, true);
  }

  lemma GetCommand()
    ensures Separated(["node", "envex.js", "-p", "app", "get", "PORT"], "run", EnvexOption, EnvexCommand)
            == ["node", "envex.js", "-p", "app", "get", "--", "PORT"]
  {
    var argv := ["node", "envex.js", "-p", "app", "get", "PORT"];
    assert Scan(argv, EnvexOption, EnvexCommand, 5, true) == Stop(5, true, true);
    assert Scan(argv, EnvexOption, EnvexCommand, 4, false) == Stop(5, true, true);
    assert Scan(argv, EnvexOption, EnvexCommand, 2, false) == Stop(5, true, true);
  }

  /** With no arguments at all only the default command is added. */
  lemma NoArguments()
    ensures Separated(["node", "envex.js"], "run", EnvexOption, EnvexCommand) == ["node", "envex.js", "run"]
  {
  }
}
