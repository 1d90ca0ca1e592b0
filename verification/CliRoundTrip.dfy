/**
 What parsing means, and printing as its inverse: the options a command line can produce are
 exactly the valid ones, and each of them is printed and read back unchanged.
 */
module CliRoundTrip {
  import opened Results
  import opened Sequences
  import opened Decimals
  import opened CliArgs

  // ---------------------------------------------------------------------------
  // What the tokens mean

  /** The value of the last occurrence of a flag. */
  function LastValue(tokens: seq<Token>, flag: Flag): Option<string> {
    if tokens == [] then None
    else
      var later := LastValue(tokens[1..], flag);
      if later.None? && tokens[0].Value? && tokens[0].flag == flag then Some(tokens[0].value) else later
  }

  /** Every path given, in order. */
  function Paths(tokens: seq<Token>): seq<string> {
    if tokens == [] then []
    else (if tokens[0].File? then [tokens[0].path] else []) + Paths(tokens[1..])
  }

  function FirstWord(tokens: seq<Token>): Option<string> {
    if tokens == [] then None else if tokens[0].Word? then Some(tokens[0].word) else FirstWord(tokens[1..])
  }

  /** Words that are not the command, and everything after `--`. */
  function Positionals(tokens: seq<Token>, hasCommand: bool): seq<string> {
    if tokens == [] then []
    else
      match tokens[0]
      case Word(word) => (if hasCommand then [word] else []) + Positionals(tokens[1..], true)
      case Rest(words) => words + Positionals(tokens[1..], hasCommand)
      case _ => Positionals(tokens[1..], hasCommand)
  }

  function LastAfter(tokens: seq<Token>, n: int): int {
    if tokens == [] then n else LastAfter(tokens[1..], if tokens[0].After? then tokens[0].after else n)
  }

  /** All output modes asked for are the same one. */
  ghost predicate OneMode(tokens: seq<Token>, output: Mode, r: Mode) {
    && (forall t | t in tokens && t.SetMode? :: r == if t.lines then JSONL else JSON)
    && ((forall t | t in tokens :: !t.SetMode?) ==> r == output)
    && (output != HUMAN ==> r == output)
  }

  ghost predicate ValuesMean(before: map<Flag, string>, tokens: seq<Token>, after: map<Flag, string>) {
    forall flag ::
      var last := LastValue(tokens, flag);
      && (flag in after <==> last.Some? || flag in before)
      && (flag in after ==> after[flag] == if last.Some? then last.value else before[flag])
  }

  function AddPaths(files: Option<seq<string>>, paths: seq<string>): Option<seq<string>> {
    if paths == [] then files else Some((if files.Some? then files.value else []) + paths)
  }

  ghost predicate TextMeans(s: State, tokens: seq<Token>, end: State) {
    && end.options.files == AddPaths(s.options.files, Paths(tokens))
    && end.options.positionals == s.options.positionals + Positionals(tokens, s.hasCommand)
    && end.options.command ==
         (if s.hasCommand || FirstWord(tokens).None? then s.options.command else FirstWord(tokens).value)
  }

  /** The options after reading `tokens` from state `s`, field by field. */
  ghost predicate Means(s: State, tokens: seq<Token>, end: State) {
    && (end.options.help <==> s.options.help || Help in tokens)
    && (end.options.version <==> s.options.version || Version in tokens)
    && end.options.after == LastAfter(tokens, s.options.after)
    && OneMode(tokens, s.options.output, end.options.output)
    && ValuesMean(s.options.values, tokens, end.options.values)
    && TextMeans(s, tokens, end)
  }

  lemma {:induction false} ReadingMeans(s: State, tokens: seq<Token>)
    requires ApplyAll(s, tokens).Ok?
    ensures Means(s, tokens, ApplyAll(s, tokens).value)
    decreases |tokens|
  {
    if tokens != [] {
      var next := Apply(s, tokens[0]).value;
      ReadingMeans(next, tokens[1..]);
      var end := ApplyAll(s, tokens).value;
      SwitchesFirst(s, tokens, end);
      hide OneMode, ValuesMean, TextMeans, LastAfter, Apply;
      TextFirst(s, tokens, end);
      ValuesFirst(s, tokens, end);
      ModesFirst(s, tokens, end);
    }
  }

  lemma SwitchesFirst(s: State, tokens: seq<Token>, end: State)
    requires tokens != [] && Apply(s, tokens[0]).Ok?
    ensures var o, next := s.options, Apply(s, tokens[0]).value.options;
            && (next.help || Help in tokens[1..] <==> o.help || Help in tokens)
            && (next.version || Version in tokens[1..] <==> o.version || Version in tokens)
            && LastAfter(tokens[1..], next.after) == LastAfter(tokens, o.after)
  {
    assert forall t :: t in tokens <==> t == tokens[0] || t in tokens[1..];
  }

  lemma AddOne(files: Option<seq<string>>, path: string, paths: seq<string>)
    ensures AddPaths(AddPaths(files, [path]), paths) == AddPaths(files, [path] + paths)
  {
    var before := if files.Some? then files.value else [];
    if paths == [] {
      assert [path] + paths == [path];
    } else {
      Assoc(before, [path], paths);
    }
  }

  lemma NoPathFirst(tokens: seq<Token>)
    requires tokens != []
    ensures !tokens[0].File? ==> Paths(tokens) == Paths(tokens[1..])
  {
    assert [] + Paths(tokens[1..]) == Paths(tokens[1..]);
  }

  lemma TextFirst(s: State, tokens: seq<Token>, end: State)
    requires tokens != [] && Apply(s, tokens[0]).Ok?
    requires TextMeans(Apply(s, tokens[0]).value, tokens[1..], end)
    ensures TextMeans(s, tokens, end)
  {
    var next := Apply(s, tokens[0]).value;
    var more := Positionals(tokens[1..], next.hasCommand);
    NoPathFirst(tokens);
    match tokens[0]
    case Word(word) => Assoc(s.options.positionals, [word], more);
    case Rest(words) => Assoc(s.options.positionals, words, more);
    case File(path) => AddOne(s.options.files, path, Paths(tokens[1..]));
    case _ =>
  }

  lemma ValuesFirst(s: State, tokens: seq<Token>, end: State)
    requires tokens != [] && Apply(s, tokens[0]).Ok?
    requires ValuesMean(Apply(s, tokens[0]).value.options.values, tokens[1..], end.options.values)
    ensures ValuesMean(s.options.values, tokens, end.options.values)
  {
  }

  lemma ModesFirst(s: State, tokens: seq<Token>, end: State)
    requires tokens != [] && Apply(s, tokens[0]).Ok?
    requires OneMode(tokens[1..], Apply(s, tokens[0]).value.options.output, end.options.output)
    ensures OneMode(tokens, s.options.output, end.options.output)
  {
    assert forall t :: t in tokens <==> t == tokens[0] || t in tokens[1..];
  }

  /**
   What a successful parse says: a flag has the value of its last occurrence, files keep their
   order, the first word is the command, the other words and everything after `--` follow in order.
   */
  lemma ParsedMeans(argv: seq<string>, number: Reader)
    requires Parsed(argv, number).Ok?
    ensures exists end ::
      Means(FRESH, Tokens(argv, number), end) && end.options == Parsed(argv, number).value
  {
    ReadingMeans(FRESH, Tokens(argv, number));
    var end := ApplyAll(FRESH, Tokens(argv, number)).value;
    assert Checked(end.options) == Ok(end.options);
  }

  // ---------------------------------------------------------------------------
  // Printing

  /** The options a command line can produce. */
  ghost predicate Valid(o: CliOptions) {
    && IsWord(o.command)
    && (o.files.Some? ==> o.files.value != [] && forall path | path in o.files.value :: IsValue(path))
    && (forall flag | flag in o.values :: IsValue(o.values[flag]))
    && 0 <= o.after <= 9_007_199_254_740_991
    && Checked(o) == Ok(o)
  }

  ghost predicate Sound(number: Reader) {
    && (forall n: nat | n <= MAX_SAFE_INTEGER :: number(Decimal(n)) == Safe(n))
    && (forall s: string | number(s).Safe? :: number(s).n <= MAX_SAFE_INTEGER)
  }

  function PrintFiles(paths: seq<string>): seq<string> {
    if paths == [] then [] else ["--file", paths[0]] + PrintFiles(paths[1..])
  }

  function PrintValues(values: map<Flag, string>, flags: seq<Flag>): seq<string> {
    if flags == [] then []
    else (if flags[0] in values then [Name(flags[0]), values[flags[0]]] else []) + PrintValues(values, flags[1..])
  }

  function PrintMode(mode: Mode): seq<string> {
    match mode
    case HUMAN => []
    case JSON => ["--json"]
    case JSONL => ["--jsonl"]
  }

  /** Flags, then the command, `--`, and the positionals. */
  function Print(o: CliOptions): seq<string>
    requires 0 <= o.after
  {
    (if o.help then ["--help"] else [])
    + ((if o.version then ["--version"] else [])
       + (PrintMode(o.output)
          + (["--after", Decimal(o.after)]
             + (PrintFiles(if o.files.Some? then o.files.value else [])
                + (PrintValues(o.values, FLAGS)
                   + ([o.command, "--"] + o.positionals))))))
  }

  lemma NamesDiffer(f: Flag, g: Flag)
    requires f != g
    ensures Name(f) != Name(g)
  {
  }

  lemma {:induction false} FlagIsFound(flag: Flag, flags: seq<Flag>)
    requires flag in flags
    ensures FlagNamed(Name(flag), flags) == Some(flag)
  {
    if flags[0] != flag {
      NamesDiffer(flags[0], flag);
      FlagIsFound(flag, flags[1..]);
    }
  }

  /** A flag name and a value are read as that flag with that value. */
  lemma FlagIsRead(flag: Flag, value: string, rest: seq<string>, number: Reader)
    requires IsValue(value)
    ensures NextToken([Name(flag), value] + rest, number) == (Value(flag, value), 2)
  {
    FlagListed(flag);
    FlagIsFound(flag, FLAGS);
    NotAnotherOption(flag);
    hide FlagNamed, Name, IsValue, IsWord, NextToken;
    FlagAhead([Name(flag), value] + rest, flag, number);
  }

  lemma FlagAhead(argv: seq<string>, flag: Flag, number: Reader)
    requires |argv| > 1 && IsValue(argv[1]) && FlagNamed(argv[0], FLAGS) == Some(flag)
    requires argv[0] !in ["--", "-h", "--help", "-v", "--version", "--json", "--jsonl", "--after", "--file"]
    ensures NextToken(argv, number) == (Value(flag, argv[1]), 2)
  {
    hide FlagNamed, IsValue, IsWord;
  }

  lemma NotAnotherOption(flag: Flag)
    ensures Name(flag) !in ["--", "-h", "--help", "-v", "--version", "--json", "--jsonl", "--after", "--file"]
  {
  }

  lemma ReadOne(s: State, arg: string, rest: seq<string>, number: Reader)
    requires NextToken([arg] + rest, number).1 == 1 && Apply(s, NextToken([arg] + rest, number).0).Ok?
    ensures ApplyAll(s, Tokens([arg] + rest, number))
         == ApplyAll(Apply(s, NextToken([arg] + rest, number).0).value, Tokens(rest, number))
  {
    hide NextToken;
    FrontToken([arg] + rest, number, s);
    assert ([arg] + rest)[1..] == rest;
  }

  lemma ReadTwo(s: State, arg: string, value: string, rest: seq<string>, number: Reader)
    requires NextToken([arg, value] + rest, number).1 == 2
    requires Apply(s, NextToken([arg, value] + rest, number).0).Ok?
    ensures ApplyAll(s, Tokens([arg, value] + rest, number))
         == ApplyAll(Apply(s, NextToken([arg, value] + rest, number).0).value, Tokens(rest, number))
  {
    hide NextToken;
    FrontToken([arg, value] + rest, number, s);
    assert ([arg, value] + rest)[2..] == rest;
  }

  /** From any state, two different flags can be given in either order. */
  lemma FlagsCommute(s: State, f: Flag, v: string, g: Flag, w: string, rest: seq<string>, number: Reader)
    requires f != g && IsValue(v) && IsValue(w)
    ensures ApplyAll(s, Tokens([Name(f), v] + ([Name(g), w] + rest), number))
         == ApplyAll(s, Tokens([Name(g), w] + ([Name(f), v] + rest), number))
  {
    hide Tokens, ApplyAll, Name, IsValue;
    ReadFlag(s, f, v, [Name(g), w] + rest, number);
    ReadFlag(WithValue(s, f, v), g, w, rest, number);
    ReadFlag(s, g, w, [Name(f), v] + rest, number);
    ReadFlag(WithValue(s, g, w), f, v, rest, number);
    assert s.options.values[f := v][g := w] == s.options.values[g := w][f := v];
  }

  /** From any state, a flag given twice in a row counts the second time only. */
  lemma LaterFlagWins(s: State, f: Flag, v: string, w: string, rest: seq<string>, number: Reader)
    requires IsValue(v) && IsValue(w)
    ensures ApplyAll(s, Tokens([Name(f), v] + ([Name(f), w] + rest), number))
         == ApplyAll(s, Tokens([Name(f), w] + rest, number))
  {
    hide Tokens, ApplyAll, Name, IsValue;
    ReadFlag(s, f, v, [Name(f), w] + rest, number);
    ReadFlag(WithValue(s, f, v), f, w, rest, number);
    ReadFlag(s, f, w, rest, number);
    assert s.options.values[f := v][f := w] == s.options.values[f := w];
  }

  function WithValue(s: State, flag: Flag, value: string): State {
    s.(options := s.options.(values := s.options.values[flag := value]))
  }

  lemma ReadFlag(s: State, flag: Flag, value: string, rest: seq<string>, number: Reader)
    requires IsValue(value)
    ensures ApplyAll(s, Tokens([Name(flag), value] + rest, number))
         == ApplyAll(WithValue(s, flag, value), Tokens(rest, number))
  {
    FlagIsRead(flag, value, rest, number);
    hide NextToken;
    ReadTwo(s, Name(flag), value, rest, number);
  }

  /** The values of the listed flags taken over into `before`. */
  function Merged(before: map<Flag, string>, values: map<Flag, string>, flags: seq<Flag>): map<Flag, string>
    decreases |flags|
  {
    if flags == [] then before
    else Merged(if flags[0] in values then before[flags[0] := values[flags[0]]] else before, values, flags[1..])
  }

  lemma {:induction false} ReadValues(s: State, values: map<Flag, string>, flags: seq<Flag>, rest: seq<string>, number: Reader)
    requires forall flag | flag in values :: IsValue(values[flag])
    ensures ApplyAll(s, Tokens(PrintValues(values, flags) + rest, number))
         == ApplyAll(s.(options := s.options.(values := Merged(s.options.values, values, flags))), Tokens(rest, number))
    decreases |flags|
  {
    if flags == [] {
      assert PrintValues(values, flags) + rest == rest;
    } else if flags[0] in values {
      var more := PrintValues(values, flags[1..]);
      Assoc([Name(flags[0]), values[flags[0]]], more, rest);
      ReadFlag(s, flags[0], values[flags[0]], more + rest, number);
      ReadValues(WithValue(s, flags[0], values[flags[0]]), values, flags[1..], rest, number);
    } else {
      assert PrintValues(values, flags) == PrintValues(values, flags[1..]);
      ReadValues(s, values, flags[1..], rest, number);
    }
  }

  lemma {:induction false} MergedIs(before: map<Flag, string>, values: map<Flag, string>, flags: seq<Flag>)
    ensures forall flag :: flag in Merged(before, values, flags) <==> flag in before || (flag in flags && flag in values)
    ensures forall flag | flag in Merged(before, values, flags) ::
      Merged(before, values, flags)[flag] == if flag in flags && flag in values then values[flag] else before[flag]
    decreases |flags|
  {
    if flags != [] {
      var next := if flags[0] in values then before[flags[0] := values[flags[0]]] else before;
      MergedIs(next, values, flags[1..]);
      assert forall flag :: flag in flags <==> flag == flags[0] || flag in flags[1..];
    }
  }

  lemma AllMerged(values: map<Flag, string>)
    ensures Merged(map[], values, FLAGS) == values
  {
    MergedIs(map[], values, FLAGS);
    EveryFlagListed();
    hide Merged;
    assert Merged(map[], values, FLAGS).Keys == values.Keys;
  }

  lemma FlagListed(flag: Flag)
    ensures flag in FLAGS
  {
  }

  lemma EveryFlagListed()
    ensures forall flag: Flag :: flag in FLAGS
  {
    forall flag: Flag
      ensures flag in FLAGS
    {
      FlagListed(flag);
    }
  }

  lemma {:induction false} ReadFiles(s: State, paths: seq<string>, rest: seq<string>, number: Reader)
    requires forall path | path in paths :: IsValue(path)
    ensures ApplyAll(s, Tokens(PrintFiles(paths) + rest, number))
         == ApplyAll(s.(options := s.options.(files := AddPaths(s.options.files, paths))), Tokens(rest, number))
    decreases |paths|
  {
    if paths == [] {
      assert PrintFiles(paths) + rest == rest;
    } else {
      var more := PrintFiles(paths[1..]);
      Assoc(["--file", paths[0]], more, rest);
      ReadFile(s, paths[0], more + rest, number);
      ReadFiles(WithFile(s, paths[0]), paths[1..], rest, number);
      AddOne(s.options.files, paths[0], paths[1..]);
      assert [paths[0]] + paths[1..] == paths;
    }
  }

  function WithFile(s: State, path: string): State {
    s.(options := s.options.(files := AddPaths(s.options.files, [path])))
  }

  lemma ReadFile(s: State, path: string, rest: seq<string>, number: Reader)
    requires IsValue(path)
    ensures ApplyAll(s, Tokens(["--file", path] + rest, number)) == ApplyAll(WithFile(s, path), Tokens(rest, number))
  {
    assert NextToken(["--file", path] + rest, number) == (File(path), 2);
    hide NextToken;
    ReadTwo(s, "--file", path, rest, number);
  }

  lemma ReadAfter(s: State, n: nat, rest: seq<string>, number: Reader)
    requires Sound(number) && n <= MAX_SAFE_INTEGER
    ensures ApplyAll(s, Tokens(["--after", Decimal(n)] + rest, number))
         == ApplyAll(s.(options := s.options.(after := n)), Tokens(rest, number))
  {
    hide Decimal;
    assert NextToken(["--after", Decimal(n)] + rest, number) == (After(n), 2);
    hide NextToken;
    ReadTwo(s, "--after", Decimal(n), rest, number);
  }

  lemma ReadMode(s: State, mode: Mode, rest: seq<string>, number: Reader)
    requires s.options.output == HUMAN
    ensures ApplyAll(s, Tokens(PrintMode(mode) + rest, number))
         == ApplyAll(s.(options := s.options.(output := mode)), Tokens(rest, number))
  {
    if mode == HUMAN {
      assert PrintMode(mode) + rest == rest;
    } else {
      var arg := if mode == JSON then "--json" else "--jsonl";
      assert NextToken([arg] + rest, number) == (SetMode(mode == JSONL), 1);
      hide NextToken;
      ReadOne(s, arg, rest, number);
    }
  }

  lemma ReadSwitches(s: State, help: bool, version: bool, rest: seq<string>, number: Reader)
    requires !s.options.help && !s.options.version
    ensures ApplyAll(s, Tokens((if help then ["--help"] else []) + ((if version then ["--version"] else []) + rest), number))
         == ApplyAll(s.(options := s.options.(help := help, version := version)), Tokens(rest, number))
  {
    var second := (if version then ["--version"] else []) + rest;
    var s' := s.(options := s.options.(help := help));
    assert help ==> NextToken(["--help"] + second, number) == (Help, 1);
    assert version ==> NextToken(["--version"] + rest, number) == (Version, 1);
    hide NextToken;
    if help { ReadOne(s, "--help", second, number); } else { assert [] + second == second; }
    if version { ReadOne(s', "--version", rest, number); } else { assert [] + rest == rest; }
  }

  lemma ReadText(s: State, command: string, positionals: seq<string>, number: Reader)
    requires !s.hasCommand && s.options.positionals == [] && IsWord(command)
    ensures ApplyAll(s, Tokens([command, "--"] + positionals, number))
         == Ok(State(s.options.(command := command, positionals := positionals), true))
  {
    var rest := ["--"] + positionals;
    var s' := State(s.options.(command := command), true);
    assert [command, "--"] + positionals == [command] + rest;
    WordIsRead(command, rest, number);
    RestIsRead(positionals, number);
    hide NextToken;
    ReadOne(s, command, rest, number);
    FrontToken(rest, number, s');
    Whole(rest);
    assert [] + positionals == positionals;
  }

  lemma WordIsRead(word: string, rest: seq<string>, number: Reader)
    requires IsWord(word)
    ensures NextToken([word] + rest, number) == (Word(word), 1)
  {
    NotAFlag(word, FLAGS);
    hide FlagNamed;
  }

  lemma {:induction false} NotAFlag(word: string, flags: seq<Flag>)
    requires IsWord(word)
    ensures FlagNamed(word, flags).None?
  {
    if flags != [] {
      assert Name(flags[0])[0] == '-' && Name(flags[0])[1] == '-';
      assert "-" <= Name(flags[0]);
      NotAFlag(word, flags[1..]);
    }
  }

  lemma RestIsRead(positionals: seq<string>, number: Reader)
    ensures NextToken(["--"] + positionals, number) == (Rest(positionals), |["--"] + positionals|)
  {
    assert (["--"] + positionals)[1..] == positionals;
  }

  function PrintText(o: CliOptions): seq<string> {
    PrintFiles(if o.files.Some? then o.files.value else [])
    + (PrintValues(o.values, FLAGS) + ([o.command, "--"] + o.positionals))
  }

  lemma ReadPrintedText(s: State, o: CliOptions, number: Reader)
    requires !s.hasCommand && s.options == o.(command := "chat", positionals := [], files := None, values := map[])
    requires Valid(o)
    ensures ApplyAll(s, Tokens(PrintText(o), number)) == Ok(State(o, true))
  {
    hide Tokens, ApplyAll, PrintValues, PrintFiles, NextToken, Checked, IsWord, IsValue;
    var r1 := [o.command, "--"] + o.positionals;
    var r2 := PrintValues(o.values, FLAGS) + r1;
    var s2 := s.(options := s.options.(files := o.files));
    var paths := if o.files.Some? then o.files.value else [];
    assert [] + paths == paths;
    assert AddPaths(None, paths) == o.files;
    ReadFiles(s, paths, r2, number);
    ReadAllValues(s2, o.values, r1, number);
    ReadText(s2.(options := s2.options.(values := o.values)), o.command, o.positionals, number);
  }

  lemma ReadPrintedSettings(o: CliOptions, rest: seq<string>, number: Reader)
    requires Sound(number) && 0 <= o.after <= MAX_SAFE_INTEGER
    ensures ApplyAll(FRESH, Tokens(
              (if o.help then ["--help"] else [])
              + ((if o.version then ["--version"] else [])
                 + (PrintMode(o.output) + (["--after", Decimal(o.after)] + rest))), number))
         == ApplyAll(State(o.(command := "chat", positionals := [], files := None, values := map[]), false),
                     Tokens(rest, number))
  {
    hide Tokens, ApplyAll, PrintMode, Decimal, NextToken, Sound;
    var r4 := ["--after", Decimal(o.after)] + rest;
    var r5 := PrintMode(o.output) + r4;
    var o5 := DEFAULTS.(help := o.help, version := o.version);
    ReadSwitches(FRESH, o.help, o.version, r5, number);
    ReadMode(State(o5, false), o.output, r4, number);
    ReadAfter(State(o5.(output := o.output), false), o.after, rest, number);
  }

  /** Printing valid options and parsing them gives them back. */
  lemma PrintedOptionsParse(o: CliOptions, number: Reader)
    requires Valid(o) && Sound(number)
    ensures Parsed(Print(o), number) == Ok(o)
  {
    hide Tokens, ApplyAll, PrintMode, Decimal, PrintValues, PrintFiles, Checked, Sound, IsWord, IsValue;
    ReadPrintedSettings(o, PrintText(o), number);
    ReadPrintedText(State(o.(command := "chat", positionals := [], files := None, values := map[]), false), o, number);
  }

  lemma ReadAllValues(s: State, values: map<Flag, string>, rest: seq<string>, number: Reader)
    requires s.options.values == map[] && forall flag | flag in values :: IsValue(values[flag])
    ensures ApplyAll(s, Tokens(PrintValues(values, FLAGS) + rest, number))
         == ApplyAll(s.(options := s.options.(values := values)), Tokens(rest, number))
  {
    AllMerged(values);
    hide *;
    ReadValues(s, values, FLAGS, rest, number);
  }

  // ---------------------------------------------------------------------------
  // Only valid options come out

  ghost predicate Sane(o: CliOptions) {
    && IsWord(o.command)
    && (o.files.Some? ==> o.files.value != [] && forall path | path in o.files.value :: IsValue(path))
    && (forall flag | flag in o.values :: IsValue(o.values[flag]))
    && 0 <= o.after <= MAX_SAFE_INTEGER
  }

  lemma {:induction false} ReadingStaysSane(s: State, argv: seq<string>, number: Reader)
    requires Sane(s.options) && Sound(number) && ApplyAll(s, Tokens(argv, number)).Ok?
    ensures Sane(ApplyAll(s, Tokens(argv, number)).value.options)
    decreases |argv|
  {
    if argv != [] {
      var (token, n) := NextToken(argv, number);
      FrontToken(argv, number, s);
      TokenStaysSane(s, argv, number);
      hide NextToken, Apply, Tokens, ApplyAll, Sane;
      ReadingStaysSane(Apply(s, token).value, argv[n..], number);
    }
  }

  ghost predicate SaneToken(token: Token) {
    match token
    case After(n) => 0 <= n <= MAX_SAFE_INTEGER
    case File(path) => IsValue(path)
    case Value(_, value) => IsValue(value)
    case Word(word) => IsWord(word)
    case _ => true
  }

  lemma TokensAreSane(argv: seq<string>, number: Reader)
    requires argv != [] && Sound(number)
    ensures SaneToken(NextToken(argv, number).0)
  {
    hide FlagNamed, IsValue, IsWord;
  }

  lemma SaneTokenKeeps(s: State, token: Token)
    requires Sane(s.options) && SaneToken(token) && Apply(s, token).Ok?
    ensures Sane(Apply(s, token).value.options) && !token.Bad?
  {
    hide IsValue, IsWord;
  }

  lemma TokenStaysSane(s: State, argv: seq<string>, number: Reader)
    requires argv != [] && Sane(s.options) && Sound(number)
    requires Apply(s, NextToken(argv, number).0).Ok?
    ensures Sane(Apply(s, NextToken(argv, number).0).value.options)
    ensures !NextToken(argv, number).0.Bad?
  {
    hide *;
    TokensAreSane(argv, number);
    SaneTokenKeeps(s, NextToken(argv, number).0);
  }

  /** What parsing can return is exactly the valid options: each is returned for some arguments, and nothing else is. */
  lemma ParsedOptionsAreValid(argv: seq<string>, number: Reader)
    requires Sound(number) && Parsed(argv, number).Ok?
    ensures Valid(Parsed(argv, number).value)
    ensures Parsed(Print(Parsed(argv, number).value), number) == Parsed(argv, number)
  {
    assert "chat"[0] == 'c';
    assert Sane(DEFAULTS);
    ReadingStaysSane(FRESH, argv, number);
    PrintedOptionsParse(Parsed(argv, number).value, number);
  }
}
