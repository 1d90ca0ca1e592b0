/**
 The command line spelled out: its options, what counts as a value or a word, and which command
 lines are refused (cli/args.ts:27-120).
 */
module CliRules {
  import opened Results
  import opened Sequences
  import opened CliArgs
  import opened CliRoundTrip

  // ---------------------------------------------------------------------------
  // The options

  /** The option with a value that is written like this. */
  predicate Spelled(arg: string, flag: Flag) {
    match flag
    case URL => arg == "--url"
    case TOKEN => arg == "--token"
    case TOKEN_FILE => arg == "--token-file"
    case PROJECT => arg == "--project"
    case WORK_DIR => arg == "--work-dir"
    case BACKEND => arg == "--backend"
    case PROFILE => arg == "--profile"
    case MODEL => arg == "--model"
    case REASONING_EFFORT => arg == "--reasoning-effort"
    case SESSION => arg == "--session"
    case RUN => arg == "--run"
    case ANSWERS => arg == "--answers"
    case ACTION => arg == "--action"
    case REPLY => arg == "--reply"
    case REQUEST_ID => arg == "--request-id"
  }

  lemma {:induction false} NamedFlag(arg: string, flags: seq<Flag>)
    ensures FlagNamed(arg, flags).Some? ==> FlagNamed(arg, flags).value in flags && Name(FlagNamed(arg, flags).value) == arg
  {
    hide Name;
    if flags != [] { NamedFlag(arg, flags[1..]); }
  }

  lemma NameIsSpelled(arg: string, flag: Flag)
    ensures Name(flag) == arg <==> Spelled(arg, flag)
  {
  }

  /** An argument is read as an option with a value exactly by this table. */
  lemma FlagTable(arg: string, flag: Flag)
    ensures FlagNamed(arg, FLAGS) == Some(flag) <==> Spelled(arg, flag)
  {
    NamedFlag(arg, FLAGS);
    NameIsSpelled(arg, flag);
    FlagListed(flag);
    if Name(flag) == arg { FlagIsFound(flag, FLAGS); }
    hide Name, FlagNamed, Spelled;
  }

  /** A value is a text that is not empty and does not begin with two dashes. */
  lemma ValueMeans(value: string)
    ensures IsValue(value) <==> value != "" && !(|value| > 1 && value[0] == '-' && value[1] == '-')
  {
  }

  /** A word does not begin with a dash, unless it is only that. */
  lemma WordMeans(arg: string)
    ensures IsWord(arg) <==> arg == "" || arg[0] != '-' || |arg| == 1
  {
  }

  /** How an argument that takes a value reads the next one, if there is a next one. */
  predicate TakesValue(arg: string, value: string, number: Reader, token: Token) {
    if arg == "--after" then
      match number(value)
      case Safe(n) => token == if n >= 0 then After(n) else Bad(AfterNotInteger)
      case NotSafe => token == Bad(AfterNotInteger)
    else if arg == "--file" then
      token == if IsValue(value) then File(value) else Bad(FileMissing)
    else
      forall flag | Spelled(arg, flag) :: token == if IsValue(value) then Value(flag, value) else Bad(ValueMissing(flag))
  }

  /** What is wrong when it is the last argument. */
  predicate LacksValue(arg: string, token: Token) {
    if arg == "--after" then token == Bad(AfterNotInteger)
    else if arg == "--file" then token == Bad(FileMissing)
    else forall flag | Spelled(arg, flag) :: token == Bad(ValueMissing(flag))
  }

  predicate IsPaired(arg: string) {
    arg == "--after" || arg == "--file" || exists flag :: Spelled(arg, flag)
  }

  /** The other arguments, each by itself. */
  predicate StandsAlone(arg: string, token: Token) {
    if arg == "-h" || arg == "--help" then token == Help
    else if arg == "-v" || arg == "--version" then token == Version
    else if arg == "--json" then token == SetMode(false)
    else if arg == "--jsonl" then token == SetMode(true)
    else if arg == "" || arg[0] != '-' || |arg| == 1 then token == Word(arg)
    else token == Bad(UnknownOption(arg))
  }

  /** Each argument is read as what it is, with the next one as its value if it takes one. */
  lemma ArgumentMeans(argv: seq<string>, number: Reader)
    requires argv != []
    ensures var (token, n) := NextToken(argv, number);
            var arg := argv[0];
            if arg == "--" then token == Rest(argv[1..]) && n == |argv|
            else if IsPaired(arg) then
              n == 2 && if |argv| > 1 then TakesValue(arg, argv[1], number, token) else LacksValue(arg, token)
            else n == 1 && StandsAlone(arg, token)
  {
    var arg := argv[0];
    var key := FlagNamed(arg, FLAGS);
    WordMeans(arg);
    forall flag
      ensures key == Some(flag) <==> Spelled(arg, flag)
    {
      FlagTable(arg, flag);
    }
    PairedIsFlag(arg);
    hide Spelled, FlagNamed, IsValue, IsWord;
  }

  lemma PairedIsFlag(arg: string)
    ensures IsPaired(arg) <==> arg == "--after" || arg == "--file" || FlagNamed(arg, FLAGS).Some?
    ensures arg in ["--", "-h", "--help", "-v", "--version", "--json", "--jsonl", "--after", "--file"] ==>
              FlagNamed(arg, FLAGS).None?
  {
    var key := FlagNamed(arg, FLAGS);
    forall flag
      ensures key == Some(flag) <==> Spelled(arg, flag)
    {
      FlagTable(arg, flag);
    }
    if key.Some? {
      NamedFlag(arg, FLAGS);
      NotAnotherOption(key.value);
    }
    hide Spelled, FlagNamed, Name;
    if flag :| Spelled(arg, flag) { assert key == Some(flag); }
  }

  /** Without arguments: a chat, in human form, from the start. */
  lemma NothingGiven(number: Reader)
    ensures Parsed([], number) == Ok(CliOptions("chat", [], None, map[], HUMAN, 0, false, false))
  {
  }

  // ---------------------------------------------------------------------------
  // What is refused

  /** The value of the flag, if it has one, is one of these. */
  predicate OneOf(value: Option<string>, words: seq<string>) {
    value.Some? ==> value.value in words
  }

  predicate ValuesAllowed(backend: Option<string>, reply: Option<string>, effort: Option<string>, action: Option<string>) {
    && OneOf(backend, ["native"])
    && OneOf(reply, ["once", "always", "reject"])
    && OneOf(effort, ["low", "medium", "high", "xhigh", "max"])
    && OneOf(action, ["submit", "decline", "cancel", "save", "revise", "execute"])
  }

  function ValueIn(o: CliOptions, flag: Flag): Option<string> {
    if flag in o.values then Some(o.values[flag]) else None
  }

  lemma CheckedMeans(o: CliOptions)
    ensures Checked(o).Ok?
       <==> ValuesAllowed(ValueIn(o, BACKEND), ValueIn(o, REPLY), ValueIn(o, REASONING_EFFORT), ValueIn(o, ACTION))
    ensures Checked(o).Ok? ==> Checked(o).value == o
    ensures var backend := OneOf(ValueIn(o, BACKEND), ["native"]);
            var reply := OneOf(ValueIn(o, REPLY), ["once", "always", "reject"]);
            var effort := OneOf(ValueIn(o, REASONING_EFFORT), ["low", "medium", "high", "xhigh", "max"]);
            && (Checked(o) == Err(UnsupportedBackend) <==> !backend)
            && (Checked(o) == Err(InvalidReply) <==> backend && !reply)
            && (Checked(o) == Err(InvalidEffort) <==> backend && reply && !effort)
  {
  }

  /** Both output modes are asked for, or the one that was not asked for before. */
  ghost predicate TwoModes(tokens: seq<Token>, output: Mode) {
    && (SetMode(false) in tokens || output == JSON)
    && (SetMode(true) in tokens || output == JSONL)
  }

  ghost predicate HasBad(tokens: seq<Token>) {
    exists t :: t in tokens && t.Bad?
  }

  /** Reading fails exactly at an argument that cannot be read, or when both modes are asked for. */
  lemma {:induction false} ReadingFails(s: State, tokens: seq<Token>)
    ensures ApplyAll(s, tokens).Err? ==> var e := ApplyAll(s, tokens).error; e == ExclusiveModes || Bad(e) in tokens
    ensures ApplyAll(s, tokens).Err? <==> HasBad(tokens) || TwoModes(tokens, s.options.output)
    decreases |tokens|
  {
    if tokens != [] {
      var t, more := tokens[0], tokens[1..];
      assert forall u :: u in tokens <==> u == t || u in more;
      BadFirst(tokens);
      var next := Apply(s, t);
      if next.Ok? { ReadingFails(next.value, more); }
      ModeFirst(s, t);
      hide Apply, HasBad;
    }
  }

  lemma BadFirst(tokens: seq<Token>)
    requires tokens != []
    ensures HasBad(tokens) <==> tokens[0].Bad? || HasBad(tokens[1..])
  {
    assert forall u :: u in tokens <==> u == tokens[0] || u in tokens[1..];
  }

  lemma ModeFirst(s: State, t: Token)
    ensures Apply(s, t).Err? ==> t == Bad(Apply(s, t).error) || Apply(s, t).error == ExclusiveModes
    ensures Apply(s, t).Err? <==>
              || t.Bad?
              || (t == SetMode(false) && s.options.output == JSONL)
              || (t == SetMode(true) && s.options.output == JSON)
    ensures Apply(s, t).Ok? ==>
              Apply(s, t).value.options.output
              == if t == SetMode(false) then JSON else if t == SetMode(true) then JSONL else s.options.output
  {
  }

  /**
   A command line is refused exactly if one of its arguments cannot be read, if it asks for both
   output modes, or if the last value given for one of four options is none of those allowed.
   */
  lemma RefusedExactly(argv: seq<string>, number: Reader)
    ensures var tokens := Tokens(argv, number);
            Parsed(argv, number).Err? <==>
              || HasBad(tokens)
              || (SetMode(false) in tokens && SetMode(true) in tokens)
              || !ValuesAllowed(LastValue(tokens, BACKEND), LastValue(tokens, REPLY),
                                LastValue(tokens, REASONING_EFFORT), LastValue(tokens, ACTION))
  {
    var tokens := Tokens(argv, number);
    ReadingFails(FRESH, tokens);
    var read := ApplyAll(FRESH, tokens);
    if read.Ok? {
      ReadingMeans(FRESH, tokens);
      var o := read.value.options;
      CheckedMeans(o);
      LastValues(tokens, o);
      hide ApplyAll, Tokens, Checked, ValuesAllowed, HasBad;
    }
  }

  lemma LastValues(tokens: seq<Token>, o: CliOptions)
    requires ValuesMean(map[], tokens, o.values)
    ensures forall flag :: ValueIn(o, flag) == LastValue(tokens, flag)
  {
    hide LastValue;
  }
}
