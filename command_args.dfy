/** Command-line parsing (src/tasks/parse-command-arguments-and-options.ts):
    the flags, the command with its "help X" and "version" forms, the
    positional arguments of `setup` and `submit`, and the questions asked for
    the ones that are missing. */
module CommandArgs {
  import opened Basics

  // ------------------------------------------------------------- the argv

  /** What the option parser hands back: the three flags and the positional
      arguments in order. */
  datatype Parsed = Parsed(dev: bool, help: bool, version: bool, positionals: seq<string>)

  predicate IsShortGroup(a: string) {
    |a| > 2 && a[0] == '-' && a[1] != '-'
  }

  /** Every letter of a group such as "-hv" names a known short flag. */
  predicate KnownShortGroup(a: string) {
    IsShortGroup(a) && forall i :: 1 <= i < |a| ==> a[i] == 'h' || a[i] == 'v'
  }

  /** The flags one argument sets, or None when it is not an option. */
  function FlagOf(a: string): (r: Option<Result<Parsed, string>>)
    ensures r.None? <==> |a| <= 1 || a[0] != '-'
  {
    if |a| <= 1 || a[0] != '-' then None
    else if a == "--dev" then Some(Ok(Parsed(true, false, false, [])))
    else if a == "--help" || a == "-h" then Some(Ok(Parsed(false, true, false, [])))
    else if a == "--version" || a == "-v" then Some(Ok(Parsed(false, false, true, [])))
    else if KnownShortGroup(a) then Some(Ok(Parsed(false, 'h' in a[1..], 'v' in a[1..], [])))
    else Some(Err("unknown or unexpected option: " + a))
  }

  /** The `arg` option parser with the specification {--dev, --help/-h,
      --version/-v}: flags may come anywhere, "--" ends the options, and any
      other argument led by a dash is an error naming the first offender. */
  function ParseArgv(args: seq<string>): Result<Parsed, string> {
    if args == [] then Ok(Parsed(false, false, false, []))
    else if args[0] == "--" then Ok(Parsed(false, false, false, args[1..]))
    else
      var here := FlagOf(args[0]);
      if here.Some? && here.value.Err? then here.value
      else
        var rest := ParseArgv(args[1..]);
        if rest.Err? then rest
        else if here.None? then Ok(rest.value.(positionals := [args[0]] + rest.value.positionals))
        else
          var f := here.value.value;
          Ok(rest.value.(dev := f.dev || rest.value.dev, help := f.help || rest.value.help,
                         version := f.version || rest.value.version))
  }

  /** The parser keeps the positional arguments in order and sets a flag
      exactly when one of its spellings occurs before any "--". */
  lemma {:induction false} ParseArgvFlags(args: seq<string>)
    requires "--" !in args
    requires forall i :: 0 <= i < |args| ==> FlagOf(args[i]).None? || FlagOf(args[i]).value.Ok?
    ensures ParseArgv(args).Ok?
    ensures ParseArgv(args).value.dev <==> "--dev" in args
    ensures ParseArgv(args).value.positionals == Positionals(args)
  {
    if args != [] {
      assert args[1..] == args[1..];
      assert forall i :: 1 <= i < |args| ==> args[i] == args[1..][i - 1];
      assert "--" !in args[1..];
      ParseArgvFlags(args[1..]);
      assert args == [args[0]] + args[1..];
      if args[0] != "--dev" && FlagOf(args[0]).Some? {
        assert KnownShortGroup(args[0]) ==> args[0][2] == 'h' || args[0][2] == 'v';
      }
    }
  }

  /** The arguments that are not options. */
  function Positionals(args: seq<string>): seq<string> {
    if args == [] then []
    else (if FlagOf(args[0]).None? then [args[0]] else []) + Positionals(args[1..])
  }

  /** An unknown option stops the parse with an error naming it. */
  lemma UnknownOptionRejected(a: string, rest: seq<string>)
    requires |a| > 1 && a[0] == '-' && a != "--"
    requires a !in {"--dev", "--help", "-h", "--version", "-v"} && !KnownShortGroup(a)
    ensures ParseArgv([a] + rest) == Err("unknown or unexpected option: " + a)
  {
    assert ([a] + rest)[0] == a;
  }

  // --------------------------------------------------------- the options

  /** The three fields a positional argument or an answer can fill. */
  datatype Field = ChallengeField | InstallLocationField | ContractAddressField

  /** A field of the options object: absent, `null`, or a string. */
  datatype Slot = Absent | Null | Given(text: string)

  /** JavaScript truthiness of the field: a non-empty string. */
  predicate Truthy(s: Slot) {
    s.Given? && s.text != ""
  }

  datatype CommandOptions = CommandOptions(
    dev: bool,
    help: bool,
    command: Option<string>,
    challenge: Slot,
    installLocation: Slot,
    contractAddress: Slot)

  /** `parsedArgs._[k] ?? null` */
  function Positional(p: seq<string>, k: nat): (r: Slot)
    ensures r.Given? <==> k < |p|
    ensures r.Given? ==> r.text == p[k]
  {
    if k < |p| then Given(p[k]) else Null
  }

  /** `help` and `version`: the flag when given, else whether the first
      positional argument is the word itself. */
  function HelpOf(p: Parsed): (r: bool)
    ensures r <==> p.help || (|p.positionals| > 0 && p.positionals[0] == "help")
  {
    if p.help then true else |p.positionals| > 0 && p.positionals[0] == "help"
  }

  function VersionOf(p: Parsed): (r: bool)
    ensures r <==> p.version || (|p.positionals| > 0 && p.positionals[0] == "version")
  {
    if p.version then true else |p.positionals| > 0 && p.positionals[0] == "version"
  }

  /** The command: "version" wins; "help X" names X; otherwise the first
      positional argument; none when there is nothing to name. */
  function CommandOf(p: Parsed): (r: Option<string>)
    ensures VersionOf(p) ==> r == Some("version")
    ensures !VersionOf(p) && HelpOf(p) && |p.positionals| > 0 && p.positionals[0] == "help" ==>
              (r.Some? <==> |p.positionals| > 1) && (r.Some? ==> r.value == p.positionals[1])
    ensures !VersionOf(p) && !(HelpOf(p) && |p.positionals| > 0 && p.positionals[0] == "help") ==>
              (r.Some? <==> |p.positionals| > 0) && (r.Some? ==> r.value == p.positionals[0])
  {
    if VersionOf(p) then Some("version")
    else if HelpOf(p) && |p.positionals| > 0 && p.positionals[0] == "help" then
      (if |p.positionals| > 1 then Some(p.positionals[1]) else None)
    else if |p.positionals| > 0 then Some(p.positionals[0]) else None
  }

  /** The positional fields of a command: `setup` takes challenge and
      install location, `submit` challenge and contract address. */
  function ArgumentNames(command: Option<string>): (r: seq<Field>)
    ensures |r| == 0 || |r| == 2
  {
    if command == Some("setup") then [ChallengeField, InstallLocationField]
    else if command == Some("submit") then [ChallengeField, ContractAddressField]
    else []
  }

  function SetField(o: CommandOptions, f: Field, v: Slot): CommandOptions {
    match f
    case ChallengeField => o.(challenge := v)
    case InstallLocationField => o.(installLocation := v)
    case ContractAddressField => o.(contractAddress := v)
  }

  /** `parseCommandArgumentsAndOptions`: lower-case everything after the
      program name and script path, parse the options, resolve the command
      and copy positionals 1 and 2 into the command's fields. */
  method ParseCommandArgumentsAndOptions(rawArgs: seq<string>) returns (r: Result<CommandOptions, string>)
    ensures var args := if |rawArgs| >= 2 then LowerAll(rawArgs[2..]) else [];
      var parsed := ParseArgv(args);
      && (r.Err? <==> parsed.Err?)
      && (r.Err? ==> r.error == parsed.error)
      && (r.Ok? ==> var o := r.value; var p := parsed.value;
           && o.dev == p.dev
           && o.help == HelpOf(p)
           && o.command == CommandOf(p)
           && o.challenge == (if |ArgumentNames(o.command)| > 0 then Positional(p.positionals, 1) else Absent)
           && o.installLocation == (if o.command == Some("setup") then Positional(p.positionals, 2) else Absent)
           && o.contractAddress == (if o.command == Some("submit") then Positional(p.positionals, 2) else Absent))
  {
    var args := if |rawArgs| >= 2 then LowerAll(rawArgs[2..]) else [];
    var parsed := ParseArgv(args);
    if parsed.Err? {
      return Err(parsed.error);
    }
    var p := parsed.value;
    var command: Option<string> := None;
    if VersionOf(p) {
      command := Some("version");
    } else if HelpOf(p) && |p.positionals| > 0 && p.positionals[0] == "help" {
      command := if |p.positionals| > 1 then Some(p.positionals[1]) else None;
    } else {
      command := if |p.positionals| > 0 then Some(p.positionals[0]) else None;
    }
    var o := CommandOptions(p.dev, HelpOf(p), command, Absent, Absent, Absent);
    var names := ArgumentNames(command);
    for k := 0 to |names|
      invariant o.dev == p.dev && o.help == HelpOf(p) && o.command == command
      invariant o.challenge == (if k >= 1 then Positional(p.positionals, 1) else Absent)
      invariant o.installLocation == (if k >= 2 && command == Some("setup") then Positional(p.positionals, 2) else Absent)
      invariant o.contractAddress == (if k >= 2 && command == Some("submit") then Positional(p.positionals, 2) else Absent)
    {
      o := SetField(o, names[k], Positional(p.positionals, k + 1));
    }
    return Ok(o);
  }

  /** `a.toLowerCase()` over every argument. */
  function LowerAll(args: seq<string>): (r: seq<string>)
    ensures |r| == |args|
    ensures forall i :: 0 <= i < |args| ==> r[i] == Lower(args[i])
  {
    if args == [] then [] else [Lower(args[0])] + LowerAll(args[1..])
  }

  /** "help setup x": the command is "setup", and since the positionals are
      not shifted, its challenge field is "setup" and its install location
      "x". */
  lemma HelpShiftsNothing()
    ensures var p := Parsed(false, false, false, ["help", "setup", "x"]);
      && HelpOf(p) && CommandOf(p) == Some("setup")
      && Positional(p.positionals, 1) == Given("setup")
      && Positional(p.positionals, 2) == Given("x")
  {
  }

  // ----------------------------------------------------------- questions

  datatype QuestionKind = Search | Input

  /** A question of `promptForMissingCommandArgs`; the field it answers is
      `name`. */
  datatype Question = Question(kind: QuestionKind, name: Field, message: string)

  const SetupChallengeQ := Question(Search, ChallengeField, "Which challenge would you like to setup?")
  const InstallLocationQ := Question(Input, InstallLocationField, "Where would you like to download the challenges?")
  const SubmitChallengeQ := Question(Search, ChallengeField, "Which challenge would you like to submit?")
  const ContractAddressQ := Question(Input, ContractAddressField, "What is the contract address of your completed challenge?")

  /** The install location after the fallback to the user's saved one. */
  function EffectiveInstall(o: CommandOptions, saved: string): Slot {
    if Truthy(o.installLocation) then o.installLocation else Given(saved)
  }

  /** The questions, in order: for `setup` the challenge and the install
      location, for `submit` the challenge and the contract address, each
      only when missing. */
  function Questions(o: CommandOptions, saved: string): (qs: seq<Question>)
    ensures o.command != Some("setup") && o.command != Some("submit") ==> qs == []
    ensures o.command == Some("setup") ==>
      (SetupChallengeQ in qs <==> !Truthy(o.challenge)) &&
      (InstallLocationQ in qs <==> !Truthy(EffectiveInstall(o, saved))) &&
      forall q :: q in qs ==> q == SetupChallengeQ || q == InstallLocationQ
    ensures o.command == Some("submit") ==>
      (SubmitChallengeQ in qs <==> !Truthy(o.challenge)) &&
      (ContractAddressQ in qs <==> !Truthy(o.contractAddress)) &&
      forall q :: q in qs ==> q == SubmitChallengeQ || q == ContractAddressQ
  {
    if o.command == Some("setup") then
      (if !Truthy(o.challenge) then [SetupChallengeQ] else []) +
      (if !Truthy(EffectiveInstall(o, saved)) then [InstallLocationQ] else [])
    else if o.command == Some("submit") then
      (if !Truthy(o.challenge) then [SubmitChallengeQ] else []) +
      (if !Truthy(o.contractAddress) then [ContractAddressQ] else [])
    else []
  }

  /** The answers collected for questions `qs`, keyed by field name. */
  function AnswersOf(qs: seq<Question>, ask: Question -> string): map<Field, string> {
    if qs == [] then map[]
    else AnswersOf(qs[..|qs| - 1], ask)[qs[|qs| - 1].name := ask(qs[|qs| - 1])]
  }

  lemma AnswersOfTwo(q1: Question, q2: Question, ask: Question -> string)
    ensures AnswersOf([q1], ask) == map[q1.name := ask(q1)]
    ensures AnswersOf([q1, q2], ask) == map[q1.name := ask(q1), q2.name := ask(q2)]
  {
    assert [q1, q2][..1] == [q1];
    assert [q1][..0] == [];
  }

  /** `{...commands, installLocation, ...answers}` */
  function Merge(o: CommandOptions, install: Slot, answers: map<Field, string>): (r: CommandOptions)
    ensures r.dev == o.dev && r.help == o.help && r.command == o.command
  {
    var withInstall := o.(installLocation := install);
    var c := if ChallengeField in answers then withInstall.(challenge := Given(answers[ChallengeField])) else withInstall;
    var l := if InstallLocationField in answers then c.(installLocation := Given(answers[InstallLocationField])) else c;
    if ContractAddressField in answers then l.(contractAddress := Given(answers[ContractAddressField])) else l
  }

  /** The loop over the questions: each answer is recorded under its field. */
  method AskAll(questions: seq<Question>, ask: Question -> string) returns (answers: map<Field, string>)
    ensures answers == AnswersOf(questions, ask)
  {
    answers := map[];
    for i := 0 to |questions|
      invariant answers == AnswersOf(questions[..i], ask)
    {
      assert questions[..i + 1][..i] == questions[..i];
      answers := answers[questions[i].name := ask(questions[i])];
    }
    assert questions[..|questions|] == questions;
  }

  /** `promptForMissingCommandArgs`: the interactive prompts are the oracle
      `ask`; each question is asked in turn and its answer recorded. */
  method PromptForMissingCommandArgs(o: CommandOptions, saved: string, ask: Question -> string)
    returns (r: CommandOptions)
    ensures r.dev == o.dev && r.help == o.help && r.command == o.command
    ensures r.challenge ==
      if o.command == Some("setup") && !Truthy(o.challenge) then Given(ask(SetupChallengeQ))
      else if o.command == Some("submit") && !Truthy(o.challenge) then Given(ask(SubmitChallengeQ))
      else o.challenge
    ensures r.installLocation ==
      if o.command == Some("setup") && !Truthy(EffectiveInstall(o, saved)) then Given(ask(InstallLocationQ))
      else EffectiveInstall(o, saved)
    ensures r.contractAddress ==
      if o.command == Some("submit") && !Truthy(o.contractAddress) then Given(ask(ContractAddressQ))
      else o.contractAddress
  {
    var install := EffectiveInstall(o, saved);
    var questions := Questions(o, saved);
    var answers := AskAll(questions, ask);
    r := Merge(o, install, answers);
    if o.command == Some("setup") {
      SetupMerge(o, saved, ask);
    } else if o.command == Some("submit") {
      SubmitMerge(o, saved, ask);
    }
  }

  /** The field `f` after merging `answers`: the answer if there is one,
      `otherwise` if not. */
  function Answered(answers: map<Field, string>, f: Field, otherwise: Slot): Slot {
    if f in answers then Given(answers[f]) else otherwise
  }

  /** Each field of the merge is its answer when one was given, and the
      value from the command line (or the install fallback) otherwise. */
  lemma MergeFields(o: CommandOptions, install: Slot, answers: map<Field, string>)
    ensures var r := Merge(o, install, answers);
      && r.challenge == Answered(answers, ChallengeField, o.challenge)
      && r.installLocation == Answered(answers, InstallLocationField, install)
      && r.contractAddress == Answered(answers, ContractAddressField, o.contractAddress)
  {
  }

  lemma SetupMerge(o: CommandOptions, saved: string, ask: Question -> string)
    requires o.command == Some("setup")
    ensures var r := Merge(o, EffectiveInstall(o, saved), AnswersOf(Questions(o, saved), ask));
      && r.challenge == (if !Truthy(o.challenge) then Given(ask(SetupChallengeQ)) else o.challenge)
      && r.installLocation ==
        (if !Truthy(EffectiveInstall(o, saved)) then Given(ask(InstallLocationQ)) else EffectiveInstall(o, saved))
      && r.contractAddress == o.contractAddress
  {
    var install := EffectiveInstall(o, saved);
    var qs := Questions(o, saved);
    var ans := AnswersOf(qs, ask);
    AnswersOfTwo(SetupChallengeQ, InstallLocationQ, ask);
    AnswersOfTwo(InstallLocationQ, InstallLocationQ, ask);
    MergeFields(o, install, ans);
    if !Truthy(o.challenge) && !Truthy(install) {
      assert qs == [SetupChallengeQ, InstallLocationQ];
    } else if !Truthy(o.challenge) {
      assert qs == [SetupChallengeQ];
    } else if !Truthy(install) {
      assert qs == [InstallLocationQ];
    } else {
      assert qs == [];
    }
  }

  lemma SubmitMerge(o: CommandOptions, saved: string, ask: Question -> string)
    requires o.command == Some("submit")
    ensures var r := Merge(o, EffectiveInstall(o, saved), AnswersOf(Questions(o, saved), ask));
      && r.challenge == (if !Truthy(o.challenge) then Given(ask(SubmitChallengeQ)) else o.challenge)
      && r.installLocation == EffectiveInstall(o, saved)
      && r.contractAddress == (if !Truthy(o.contractAddress) then Given(ask(ContractAddressQ)) else o.contractAddress)
  {
    var qs := Questions(o, saved);
    var ans := AnswersOf(qs, ask);
    AnswersOfTwo(SubmitChallengeQ, ContractAddressQ, ask);
    AnswersOfTwo(ContractAddressQ, ContractAddressQ, ask);
    MergeFields(o, EffectiveInstall(o, saved), ans);
    if !Truthy(o.challenge) && !Truthy(o.contractAddress) {
      assert qs == [SubmitChallengeQ, ContractAddressQ];
    } else if !Truthy(o.challenge) {
      assert qs == [SubmitChallengeQ];
    } else if !Truthy(o.contractAddress) {
      assert qs == [ContractAddressQ];
    } else {
      assert qs == [];
    }
  }

  /** A command that is neither `setup` nor `submit` asks nothing and only
      gains the fallback install location. */
  lemma OtherCommandsAskNothing(o: CommandOptions, saved: string, ask: Question -> string)
    requires o.command != Some("setup") && o.command != Some("submit")
    ensures Questions(o, saved) == []
    ensures Merge(o, EffectiveInstall(o, saved), AnswersOf(Questions(o, saved), ask)) ==
            o.(installLocation := EffectiveInstall(o, saved))
  {
  }
}
