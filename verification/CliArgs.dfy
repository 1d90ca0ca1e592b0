/**
 The command line parser (cli/args.ts:27-120), against a reading of the arguments as tokens.
 */
module CliArgs {
  import opened Results
  import opened Sequences
  import opened Decimals

  datatype Flag =
    | URL | TOKEN | TOKEN_FILE | PROJECT | WORK_DIR | BACKEND | PROFILE | MODEL | REASONING_EFFORT
    | SESSION | RUN | ANSWERS | ACTION | REPLY | REQUEST_ID

  datatype Mode = HUMAN | JSON | JSONL

  datatype CliOptions = CliOptions(
    command: string, positionals: seq<string>, files: Option<seq<string>>, values: map<Flag, string>,
    output: Mode, after: int, help: bool, version: bool)

  const DEFAULTS := CliOptions("chat", [], None, map[], HUMAN, 0, false, false)

  datatype Error =
    | ExclusiveModes | AfterNotInteger | FileMissing | ValueMissing(flag: Flag) | UnknownOption(arg: string)
    | UnsupportedBackend | InvalidReply | InvalidEffort | InvalidAction

  // `Number(text)`: a safe integer or anything else.
  datatype Number = Safe(n: int) | NotSafe
  type Reader = string -> Number

  const MAX_SAFE_INTEGER := 9_007_199_254_740_991

  function Name(flag: Flag): string {
    match flag
    case URL => "--url"
    case TOKEN => "--token"
    case TOKEN_FILE => "--token-file"
    case PROJECT => "--project"
    case WORK_DIR => "--work-dir"
    case BACKEND => "--backend"
    case PROFILE => "--profile"
    case MODEL => "--model"
    case REASONING_EFFORT => "--reasoning-effort"
    case SESSION => "--session"
    case RUN => "--run"
    case ANSWERS => "--answers"
    case ACTION => "--action"
    case REPLY => "--reply"
    case REQUEST_ID => "--request-id"
  }

  const FLAGS := [URL, TOKEN, TOKEN_FILE, PROJECT, WORK_DIR, BACKEND, PROFILE, MODEL, REASONING_EFFORT,
                  SESSION, RUN, ANSWERS, ACTION, REPLY, REQUEST_ID]

  function FlagNamed(arg: string, flags: seq<Flag>): Option<Flag> {
    if flags == [] then None
    else if Name(flags[0]) == arg then Some(flags[0])
    else FlagNamed(arg, flags[1..])
  }

  predicate StartsWith(s: string, prefix: string) {
    prefix <= s
  }

  /** What a flag or `--file` takes for a value. */
  predicate IsValue(value: string) {
    value != "" && !StartsWith(value, "--")
  }

  /** An argument that is not an option. */
  predicate IsWord(arg: string) {
    !StartsWith(arg, "-") || arg == "-"
  }

  // ---------------------------------------------------------------------------
  // Reading the arguments as tokens

  datatype Token =
    | Help
    | Version
    | SetMode(lines: bool)
    | After(after: int)
    | File(path: string)
    | Value(flag: Flag, value: string)
    | Word(word: string)
    | Rest(words: seq<string>)
    | Bad(error: Error)

  /** The token at the front, and how many arguments it takes. */
  function NextToken(argv: seq<string>, number: Reader): (r: (Token, nat))
    requires argv != []
    ensures 1 <= r.1
    ensures !r.0.Bad? ==> r.1 <= |argv|
  {
    var arg := argv[0];
    if arg == "--" then (Rest(argv[1..]), |argv|)
    else if arg == "-h" || arg == "--help" then (Help, 1)
    else if arg == "-v" || arg == "--version" then (Version, 1)
    else if arg == "--json" then (SetMode(false), 1)
    else if arg == "--jsonl" then (SetMode(true), 1)
    else if arg == "--after" then
      if |argv| > 1 && number(argv[1]).Safe? && number(argv[1]).n >= 0 then (After(number(argv[1]).n), 2)
      else (Bad(AfterNotInteger), 2)
    else if arg == "--file" then
      if |argv| > 1 && IsValue(argv[1]) then (File(argv[1]), 2) else (Bad(FileMissing), 2)
    else
      match FlagNamed(arg, FLAGS)
      case Some(flag) =>
        if |argv| > 1 && IsValue(argv[1]) then (Value(flag, argv[1]), 2) else (Bad(ValueMissing(flag)), 2)
      case None =>
        if IsWord(arg) then (Word(arg), 1) else (Bad(UnknownOption(arg)), 1)
  }

  function Tokens(argv: seq<string>, number: Reader): seq<Token>
    decreases |argv|
  {
    if argv == [] then []
    else
      var (token, n) := NextToken(argv, number);
      [token] + if token.Bad? then [] else Tokens(argv[n..], number)
  }

  datatype State = State(options: CliOptions, hasCommand: bool)

  const FRESH := State(DEFAULTS, false)

  function Apply(s: State, token: Token): Result<State, Error> {
    var o := s.options;
    match token
    case Help => Ok(s.(options := o.(help := true)))
    case Version => Ok(s.(options := o.(version := true)))
    case SetMode(lines) =>
      var mode := if lines then JSONL else JSON;
      if o.output != HUMAN && o.output != mode then Err(ExclusiveModes)
      else Ok(s.(options := o.(output := mode)))
    case After(n) => Ok(s.(options := o.(after := n)))
    case File(path) => Ok(s.(options := o.(files := Some((if o.files.Some? then o.files.value else []) + [path]))))
    case Value(flag, value) => Ok(s.(options := o.(values := o.values[flag := value])))
    case Word(word) =>
      if s.hasCommand then Ok(s.(options := o.(positionals := o.positionals + [word])))
      else Ok(State(o.(command := word), true))
    case Rest(words) => Ok(s.(options := o.(positionals := o.positionals + words)))
    case Bad(error) => Err(error)
  }

  function ApplyAll(s: State, tokens: seq<Token>): Result<State, Error>
    decreases |tokens|
  {
    if tokens == [] then Ok(s)
    else
      match Apply(s, tokens[0])
      case Ok(next) => ApplyAll(next, tokens[1..])
      case Err(e) => Err(e)
  }

  /** The checks after the loop. */
  function Checked(o: CliOptions): Result<CliOptions, Error> {
    if BACKEND in o.values && o.values[BACKEND] != "native" then Err(UnsupportedBackend)
    else if REPLY in o.values && o.values[REPLY] !in ["once", "always", "reject"] then Err(InvalidReply)
    else if REASONING_EFFORT in o.values && o.values[REASONING_EFFORT] !in ["low", "medium", "high", "xhigh", "max"]
    then Err(InvalidEffort)
    else if ACTION in o.values && o.values[ACTION] !in ["submit", "decline", "cancel", "save", "revise", "execute"]
    then Err(InvalidAction)
    else Ok(o)
  }

  function Parsed(argv: seq<string>, number: Reader): Result<CliOptions, Error> {
    match ApplyAll(FRESH, Tokens(argv, number))
    case Err(e) => Err(e)
    case Ok(s) => Checked(s.options)
  }

  /** What remains to be read gives the same result from the state reached. */
  ghost predicate OnTrack(argv: seq<string>, number: Reader, index: nat, options: CliOptions, hasCommand: bool) {
    index <= |argv|
    && ApplyAll(FRESH, Tokens(argv, number)) == ApplyAll(State(options, hasCommand), Tokens(argv[index..], number))
  }

  /** The source's loop over the arguments. */
  method ParseArgs(argv: seq<string>, number: Reader) returns (r: Result<CliOptions, Error>)
    ensures r == Parsed(argv, number)
  {
    hide OnTrack, Checked, Tokens, ApplyAll;
    var options, hasCommand := DEFAULTS, false;
    var index := 0;
    StartOnTrack(argv, number);
    while index < |argv|
      invariant index <= |argv| && OnTrack(argv, number, index, options, hasCommand)
    {
      var arg := argv[index];
      Ahead(argv, index);
      OneToken(argv, number, index, options, hasCommand);
      if arg == "--" {
        options := options.(positionals := options.positionals + argv[index + 1..]);
        index := |argv|;
        break;
      }
      if arg == "-h" || arg == "--help" {
        options := options.(help := true);
        index := index + 1;
        continue;
      }
      if arg == "-v" || arg == "--version" {
        options := options.(version := true);
        index := index + 1;
        continue;
      }
      if arg == "--json" || arg == "--jsonl" {
        var mode := if arg == "--json" then JSON else JSONL;
        if options.output != HUMAN && options.output != mode { return Err(ExclusiveModes); }
        options := options.(output := mode);
        index := index + 1;
        continue;
      }
      if arg == "--after" {
        var after := if index + 1 < |argv| then number(argv[index + 1]) else NotSafe;
        if after.NotSafe? || after.n < 0 { return Err(AfterNotInteger); }
        options := options.(after := after.n);
        index := index + 2;
        continue;
      }
      if arg == "--file" {
        if index + 1 >= |argv| || !IsValue(argv[index + 1]) { return Err(FileMissing); }
        var files := if options.files.Some? then options.files.value else [];
        options := options.(files := Some(files + [argv[index + 1]]));
        index := index + 2;
        continue;
      }
      var key := FlagNamed(arg, FLAGS);
      if key.Some? {
        if index + 1 >= |argv| || !IsValue(argv[index + 1]) { return Err(ValueMissing(key.value)); }
        options := options.(values := options.values[key.value := argv[index + 1]]);
        index := index + 2;
        continue;
      }
      if !IsWord(arg) { return Err(UnknownOption(arg)); }
      if !hasCommand {
        options, hasCommand := options.(command := arg), true;
      } else {
        options := options.(positionals := options.positionals + [arg]);
      }
      index := index + 1;
    }
    EndOfTrack(argv, number, options, hasCommand);
    r := Checked(options);
  }

  lemma StartOnTrack(argv: seq<string>, number: Reader)
    ensures OnTrack(argv, number, 0, DEFAULTS, false)
  {
    Whole(argv);
  }

  lemma EndOfTrack(argv: seq<string>, number: Reader, options: CliOptions, hasCommand: bool)
    requires OnTrack(argv, number, |argv|, options, hasCommand)
    ensures ApplyAll(FRESH, Tokens(argv, number)) == Ok(State(options, hasCommand))
  {
    Whole(argv);
  }

  /** One step along: the token at `index` is applied, or ends the reading with its error. */
  lemma OneToken(argv: seq<string>, number: Reader, index: nat, options: CliOptions, hasCommand: bool)
    requires index < |argv| && OnTrack(argv, number, index, options, hasCommand)
    ensures var (token, n) := NextToken(argv[index..], number);
            match Apply(State(options, hasCommand), token)
            case Err(e) => ApplyAll(FRESH, Tokens(argv, number)) == Err(e)
            case Ok(next) => !token.Bad? && OnTrack(argv, number, index + n, next.options, next.hasCommand)
  {
    hide NextToken, Apply, Tokens, ApplyAll, OnTrack;
    Unfolded(argv, number, index, options, hasCommand);
    FrontToken(argv[index..], number, State(options, hasCommand));
    var (token, n) := NextToken(argv[index..], number);
    if !token.Bad? {
      DropDrop(argv, index, n);
      var next := Apply(State(options, hasCommand), token);
      if next.Ok? { Unfolded(argv, number, index + n, next.value.options, next.value.hasCommand); }
    }
  }

  lemma Ahead(argv: seq<string>, index: nat)
    requires index < |argv|
    ensures argv[index..] != [] && argv[index..][0] == argv[index] && argv[index..][1..] == argv[index + 1..]
    ensures index + 1 < |argv| ==> argv[index..][1] == argv[index + 1]
  {
  }

  lemma Unfolded(argv: seq<string>, number: Reader, index: nat, options: CliOptions, hasCommand: bool)
    requires index <= |argv|
    ensures OnTrack(argv, number, index, options, hasCommand)
       <==> ApplyAll(FRESH, Tokens(argv, number)) == ApplyAll(State(options, hasCommand), Tokens(argv[index..], number))
  {
  }

  lemma FrontToken(argv: seq<string>, number: Reader, s: State)
    requires argv != []
    ensures NextToken(argv, number).0.Bad? ==> Apply(s, NextToken(argv, number).0).Err?
    ensures var (token, n) := NextToken(argv, number);
            ApplyAll(s, Tokens(argv, number)) ==
            match Apply(s, token)
            case Err(e) => Err(e)
            case Ok(next) => if token.Bad? then Ok(next) else ApplyAll(next, Tokens(argv[n..], number))
  {
    hide NextToken;
    var (token, n) := NextToken(argv, number);
    var more := if token.Bad? then [] else Tokens(argv[n..], number);
    assert ([token] + more)[1..] == more;
  }
}
