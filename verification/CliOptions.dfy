/** The option parser (parse_options of nvidia/src/cli.cpp). */
module CliOptions {
  import opened Decimal
  import opened CsvLists

  datatype Options = Options(
    probe: string, gpu: int, gpus: seq<int>, mode: string, iterations: int,
    memSizes: seq<int>, bytes: int, output: string, help: bool)

  const DEFAULTS: Options := Options("all", 0, [], "smoke", 0, [], 0, "results/latest.json", false)

  datatype Flag = Probe | Gpu | Gpus | Mode | Iterations | MemSizes | Bytes | Output

  datatype Word = Help | Valued(flag: Flag) | Unknown

  function Name(f: Flag): string {
    match f
    case Probe => "--probe"
    case Gpu => "--gpu"
    case Gpus => "--gpus"
    case Mode => "--mode"
    case Iterations => "--iterations"
    case MemSizes => "--mem-sizes"
    case Bytes => "--bytes"
    case Output => "--output"
  }

  /** The chain of comparisons on one argument. */
  function Classify(arg: string): Word {
    if arg == "--help" || arg == "-h" then Help
    else if arg == "--probe" then Valued(Probe)
    else if arg == "--gpu" then Valued(Gpu)
    else if arg == "--gpus" then Valued(Gpus)
    else if arg == "--mode" then Valued(Mode)
    else if arg == "--iterations" then Valued(Iterations)
    else if arg == "--mem-sizes" then Valued(MemSizes)
    else if arg == "--bytes" then Valued(Bytes)
    else if arg == "--output" then Valued(Output)
    else Unknown
  }

  predicate ValidProbe(p: string) {
    p == "env" || p == "ptx-latency" || p == "mem-chase" || p == "hbm-bandwidth" || p == "fabric-smoke" || p == "all"
  }

  predicate ValidMode(m: string) { m == "smoke" || m == "custom" }

  function NonNegative(s: string): Result<int> {
    match ParseInt(s)
    case Err(e) => Err(e)
    case Ok(n) => if n < 0 then Err(NegativeValue) else Ok(n)
  }

  /** Store the value of one flag. */
  function Take(o: Options, f: Flag, v: string): Result<Options> {
    match f
    case Probe => Ok(o.(probe := v))
    case Gpu => var r := NonNegative(v); if r.Ok? then Ok(o.(gpu := r.value)) else Err(r.error)
    case Gpus => var r := ParseTokens(Split(v), GpuToken); if r.Ok? then Ok(o.(gpus := r.value)) else Err(r.error)
    case Mode => Ok(o.(mode := v))
    case Iterations => var r := NonNegative(v); if r.Ok? then Ok(o.(iterations := r.value)) else Err(r.error)
    case MemSizes =>
      var r := ParseTokens(Split(v), U64Token); if r.Ok? then Ok(o.(memSizes := r.value)) else Err(r.error)
    case Bytes => var r := ParseU64(v); if r.Ok? then Ok(o.(bytes := r.value)) else Err(r.error)
    case Output => Ok(o.(output := v))
  }

  /** What the argument loop makes of the remaining arguments. */
  function RunArgs(args: seq<string>, o: Options): Result<Options> {
    if args == [] then Ok(o)
    else match Classify(args[0])
      case Help => RunArgs(args[1..], o.(help := true))
      case Unknown => Err(UnknownArgument)
      case Valued(f) =>
        if |args| < 2 then Err(MissingValue)
        else
          var r := Take(o, f, args[1]);
          if r.Ok? then RunArgs(args[2..], r.value) else r
  }

  function Validated(o: Options): Result<Options> {
    if !ValidProbe(o.probe) then Err(UnknownProbe)
    else if !ValidMode(o.mode) then Err(UnknownMode)
    else if o.output == "" then Err(EmptyOutput)
    else Ok(o)
  }

  function Parsed(args: seq<string>): Result<Options> {
    var r := RunArgs(args, DEFAULTS);
    if r.Ok? then Validated(r.value) else r
  }

  method RequireValue(index: nat, argv: seq<string>) returns (r: Result<string>, next: nat)
    requires index < |argv|
    ensures index + 1 < |argv| ==> r == Ok(argv[index + 1]) && next == index + 1
    ensures index + 1 >= |argv| ==> r == Err(MissingValue)
  {
    next := index;
    if index + 1 >= |argv| {
      return Err(MissingValue), index;
    }
    next := index + 1;
    r := Ok(argv[next]);
  }

  method ParseOptions(argv: seq<string>) returns (r: Result<Options>)
    ensures r == Parsed(if |argv| > 0 then argv[1..] else [])
  {
    var options := DEFAULTS;
    var i := 1;
    ghost var args := if |argv| > 0 then argv[1..] else [];
    while i < |argv|
      invariant 1 <= i && (|argv| > 0 ==> i <= |argv|)
      invariant RunArgs(args, DEFAULTS) == RunArgs(if i <= |argv| then argv[i..] else [], options)
    {
      var arg := argv[i];
      assert argv[i..][0] == arg && argv[i..][1..] == argv[i + 1..];
      match Classify(arg) {
        case Help => options := options.(help := true);
        case Unknown => return Err(UnknownArgument);
        case Valued(f) =>
          ghost var at := i;
          var v;
          v, i := RequireValue(i, argv);
          if v.Err? { return Err(v.error); }
          assert argv[at..][1] == v.value && argv[at..][2..] == argv[at + 2..];
          var taken := Take(options, f, v.value);
          if taken.Err? { return taken; }
          options := taken.value;
      }
      i := i + 1;
    }
    if !ValidProbe(options.probe) { return Err(UnknownProbe); }
    if !ValidMode(options.mode) { return Err(UnknownMode); }
    if options.output == "" { return Err(EmptyOutput); }
    r := Ok(options);
  }

  // ----- the words of the command line

  /** Without arguments everything has its default. */
  lemma Defaults()
    ensures Parsed([]) == Ok(Options("all", 0, [], "smoke", 0, [], 0, "results/latest.json", false))
  {
  }

  lemma NamesClassify(f: Flag)
    ensures Classify(Name(f)) == Valued(f)
  {
    match f
    case Probe => assert "--probe"[2] != "--help"[2];
    case Gpu => assert |"--gpu"| != |"--gpus"|;
    case Gpus => assert |"--gpu"| != |"--gpus"|;
    case Mode => assert "--mode"[2] != "--help"[2];
    case Iterations =>
    case MemSizes =>
    case Bytes => assert "--bytes"[2] != "--probe"[2];
    case Output => assert "--output"[2] != "--probe"[2];
  }

  lemma OneFlag(f: Flag, v: string, rest: seq<string>, o: Options)
    ensures RunArgs([Name(f), v] + rest, o) ==
      if Take(o, f, v).Ok? then RunArgs(rest, Take(o, f, v).value) else Take(o, f, v)
  {
    NamesClassify(f);
    var args := [Name(f), v] + rest;
    assert args[0] == Name(f) && args[1] == v && args[2..] == rest;
  }

  /** Flags that store their value as it is, and the two help words. */
  lemma TextFlags(v: string, rest: seq<string>, o: Options)
    ensures RunArgs(["--probe", v] + rest, o) == RunArgs(rest, o.(probe := v))
    ensures RunArgs(["--mode", v] + rest, o) == RunArgs(rest, o.(mode := v))
    ensures RunArgs(["--output", v] + rest, o) == RunArgs(rest, o.(output := v))
    ensures RunArgs(["--help"] + rest, o) == RunArgs(["-h"] + rest, o) == RunArgs(rest, o.(help := true))
  {
    OneFlag(Probe, v, rest, o);
    OneFlag(Mode, v, rest, o);
    OneFlag(Output, v, rest, o);
    assert (["--help"] + rest)[1..] == rest && (["-h"] + rest)[1..] == rest;
  }

  /** Flags with a non-negative int. */
  lemma IntFlags(v: string, rest: seq<string>, o: Options)
    ensures IsInteger(v) && 0 <= IntegerValue(v) <= 0x7fff_ffff ==>
      && RunArgs(["--gpu", v] + rest, o) == RunArgs(rest, o.(gpu := IntegerValue(v)))
      && RunArgs(["--iterations", v] + rest, o) == RunArgs(rest, o.(iterations := IntegerValue(v)))
    ensures IsInteger(v) && -0x8000_0000 <= IntegerValue(v) < 0 ==>
      RunArgs(["--gpu", v] + rest, o) == RunArgs(["--iterations", v] + rest, o) == Err(NegativeValue)
    ensures !(IsInteger(v) && -0x8000_0000 <= IntegerValue(v) <= 0x7fff_ffff) ==>
      RunArgs(["--gpu", v] + rest, o) == RunArgs(["--iterations", v] + rest, o) == Err(InvalidInteger)
  {
    OneFlag(Gpu, v, rest, o);
    OneFlag(Iterations, v, rest, o);
    if IsInteger(v) { ParseIntLanguage(v, IntegerValue(v)); }
    if ParseInt(v).Ok? { ParseIntLanguage(v, ParseInt(v).value); }
  }

  /** The byte count, and the two lists, whose texts CsvLanguage describes. */
  lemma CountFlags(v: string, rest: seq<string>, o: Options)
    ensures RunArgs(["--bytes", v] + rest, o) ==
      if v != "" && AllDigits(v) && 1 <= Value(v) <= 0xffff_ffff_ffff_ffff then RunArgs(rest, o.(bytes := Value(v)))
      else Err(InvalidPositive)
    ensures RunArgs(["--gpus", v] + rest, o) ==
      var r := ParseTokens(Split(v), GpuToken);
      if r.Ok? then RunArgs(rest, o.(gpus := r.value)) else Err(r.error)
    ensures RunArgs(["--mem-sizes", v] + rest, o) ==
      var r := ParseTokens(Split(v), U64Token);
      if r.Ok? then RunArgs(rest, o.(memSizes := r.value)) else Err(r.error)
  {
    OneFlag(Bytes, v, rest, o);
    OneFlag(Gpus, v, rest, o);
    OneFlag(MemSizes, v, rest, o);
    if AllDigits(v) { ParseU64Language(v, Value(v)); }
    if ParseU64(v).Ok? { ParseU64Language(v, ParseU64(v).value); }
  }

  /** Any other word is refused, and so is a flag without a value. */
  lemma OtherWords(word: string, rest: seq<string>, o: Options)
    ensures var flags := {"--probe", "--gpu", "--gpus", "--mode", "--iterations", "--mem-sizes", "--bytes", "--output"};
      && (word !in flags && word != "--help" && word != "-h" ==> RunArgs([word] + rest, o) == Err(UnknownArgument))
      && (word in flags ==> RunArgs([word], o) == Err(MissingValue))
  {
    assert ([word] + rest)[0] == word;
  }

  /** The final checks. */
  lemma FinalChecks(o: Options)
    ensures var goodProbe := o.probe in {"env", "ptx-latency", "mem-chase", "hbm-bandwidth", "fabric-smoke", "all"};
      var goodMode := o.mode in {"smoke", "custom"};
      Validated(o) ==
        if !goodProbe then Err(UnknownProbe)
        else if !goodMode then Err(UnknownMode)
        else if o.output == "" then Err(EmptyOutput)
        else Ok(o)
  {
  }

  // ----- every result is valid

  /** What parse_options promises about what it returns. */
  ghost predicate Valid(o: Options) {
    && ValidProbe(o.probe) && ValidMode(o.mode) && o.output != ""
    && NumbersValid(o)
  }

  ghost predicate NumbersValid(o: Options) {
    && 0 <= o.gpu <= INT_MAX && 0 <= o.iterations <= INT_MAX && 0 <= o.bytes <= U64_MAX
    && AllWithin(o.gpus, 0, INT_MAX) && AllWithin(o.memSizes, 1, U64_MAX)
  }

  predicate AllWithin(vs: seq<int>, lo: int, hi: int) {
    forall i :: 0 <= i < |vs| ==> lo <= vs[i] <= hi
  }

  lemma TokensInRange(ts: seq<string>)
    ensures var g := ParseTokens(ts, GpuToken);
      g.Ok? ==> AllWithin(g.value, 0, INT_MAX)
    ensures var u := ParseTokens(ts, U64Token);
      u.Ok? ==> AllWithin(u.value, 1, U64_MAX)
  {
    var g, u := ParseTokens(ts, GpuToken), ParseTokens(ts, U64Token);
    if g.Ok? {
      ListLanguage(ts, GpuToken, g.value);
      forall i | 0 <= i < |g.value| ensures 0 <= g.value[i] <= INT_MAX { TokenLanguage(ts[i], g.value[i]); }
    }
    if u.Ok? {
      ListLanguage(ts, U64Token, u.value);
      forall i | 0 <= i < |u.value| ensures 1 <= u.value[i] <= U64_MAX { TokenLanguage(ts[i], u.value[i]); }
    }
  }

  lemma TakeKeepsValid(o: Options, f: Flag, v: string)
    requires NumbersValid(o) && Take(o, f, v).Ok?
    ensures NumbersValid(Take(o, f, v).value)
  {
    match f
    case Gpus => TokensInRange(Split(v));
    case MemSizes => TokensInRange(Split(v));
    case Bytes => ParseU64Language(v, ParseU64(v).value);
    case Gpu => ParseIntLanguage(v, ParseInt(v).value);
    case Iterations => ParseIntLanguage(v, ParseInt(v).value);
    case _ =>
  }

  lemma {:induction false} RunKeepsValid(args: seq<string>, o: Options)
    requires NumbersValid(o) && RunArgs(args, o).Ok?
    ensures NumbersValid(RunArgs(args, o).value)
    decreases |args|
  {
    if args == [] {
    } else {
      match Classify(args[0])
      case Help => RunKeepsValid(args[1..], o.(help := true));
      case Valued(f) =>
        TakeKeepsValid(o, f, args[1]);
        RunKeepsValid(args[2..], Take(o, f, args[1]).value);
    }
  }

  /** Every successful parse satisfies the validity invariant. */
  lemma ParsedIsValid(args: seq<string>)
    requires Parsed(args).Ok?
    ensures Valid(Parsed(args).value)
  {
    RunKeepsValid(args, DEFAULTS);
  }

  // ----- arguments as groups; the last occurrence of a flag decides

  datatype Group = HelpGroup(word: string) | ValueGroup(flag: Flag, value: string)

  function Words(g: Group): seq<string> {
    match g
    case HelpGroup(w) => [w]
    case ValueGroup(f, v) => [Name(f), v]
  }

  function Flatten(gs: seq<Group>): seq<string> {
    if gs == [] then [] else Words(gs[0]) + Flatten(gs[1..])
  }

  ghost predicate WellFormed(gs: seq<Group>) {
    forall i :: 0 <= i < |gs| ==> gs[i].HelpGroup? ==> gs[i].word == "--help" || gs[i].word == "-h"
  }

  /** A group list is parsed group by group. */
  function RunGroups(gs: seq<Group>, o: Options): Result<Options> {
    if gs == [] then Ok(o)
    else match gs[0]
      case HelpGroup(_) => RunGroups(gs[1..], o.(help := true))
      case ValueGroup(f, v) =>
        var r := Take(o, f, v);
        if r.Ok? then RunGroups(gs[1..], r.value) else r
  }

  lemma {:induction false} RunFlattened(gs: seq<Group>, o: Options)
    requires WellFormed(gs)
    ensures RunArgs(Flatten(gs), o) == RunGroups(gs, o)
    decreases |gs|
  {
    if gs == [] {
    } else {
      var rest := Flatten(gs[1..]);
      match gs[0]
      case HelpGroup(w) =>
        assert Flatten(gs)[1..] == rest;
        RunFlattened(gs[1..], o.(help := true));
      case ValueGroup(f, v) =>
        NamesClassify(f);
        assert Flatten(gs)[2..] == rest;
        if Take(o, f, v).Ok? { RunFlattened(gs[1..], Take(o, f, v).value); }
    }
  }

  /** Accepted arguments always are a list of groups. */
  lemma {:induction false} ArgsAreGroups(args: seq<string>, o: Options) returns (gs: seq<Group>)
    requires RunArgs(args, o).Ok?
    ensures WellFormed(gs) && Flatten(gs) == args
    decreases |args|
  {
    if args == [] {
      gs := [];
    } else {
      match Classify(args[0])
      case Help =>
        var rest := ArgsAreGroups(args[1..], o.(help := true));
        gs := [HelpGroup(args[0])] + rest;
        assert gs[1..] == rest && args == [args[0]] + args[1..];
      case Valued(f) =>
        var rest := ArgsAreGroups(args[2..], Take(o, f, args[1]).value);
        ClassifyNames(args[0], f);
        gs := [ValueGroup(f, args[1])] + rest;
        assert gs[1..] == rest && args == [args[0], args[1]] + args[2..];
    }
  }

  lemma ClassifyNames(arg: string, f: Flag)
    requires Classify(arg) == Valued(f)
    ensures arg == Name(f)
  {
  }

  /** The value a flag was last given. */
  function LastValues(gs: seq<Group>, m: map<Flag, string>): map<Flag, string> {
    if gs == [] then m
    else match gs[0]
      case HelpGroup(_) => LastValues(gs[1..], m)
      case ValueGroup(f, v) => LastValues(gs[1..], m[f := v])
  }

  /** Group i gives flag f a value and no later group does. */
  ghost predicate IsLast(gs: seq<Group>, i: int, f: Flag) {
    && 0 <= i < |gs| && gs[i].ValueGroup? && gs[i].flag == f
    && forall j :: i < j < |gs| && gs[j].ValueGroup? ==> gs[j].flag != f
  }

  lemma {:induction false} UntouchedFlag(gs: seq<Group>, m: map<Flag, string>, f: Flag)
    requires forall j :: 0 <= j < |gs| && gs[j].ValueGroup? ==> gs[j].flag != f
    ensures f in LastValues(gs, m) <==> f in m
    ensures f in m ==> LastValues(gs, m)[f] == m[f]
    decreases |gs|
  {
    if gs == [] {
    } else {
      UntouchedFlag(gs[1..], if gs[0].HelpGroup? then m else m[gs[0].flag := gs[0].value], f);
    }
  }

  /** A flag's last value is the one its last group gives it. */
  lemma {:induction false} LastValueIsLast(gs: seq<Group>, m: map<Flag, string>, f: Flag, i: nat)
    requires IsLast(gs, i, f)
    ensures f in LastValues(gs, m) && LastValues(gs, m)[f] == gs[i].value
    decreases |gs|
  {
    var t := gs[1..];
    if i == 0 {
      assert forall j :: 0 <= j < |t| ==> t[j] == gs[j + 1];
      UntouchedFlag(t, m[f := gs[0].value], f);
    } else {
      assert forall j :: 0 <= j < |t| ==> t[j] == gs[j + 1];
      LastValueIsLast(t, if gs[0].HelpGroup? then m else m[gs[0].flag := gs[0].value], f, i - 1);
    }
  }

  predicate AnyHelp(gs: seq<Group>) {
    exists i :: 0 <= i < |gs| && gs[i].HelpGroup?
  }

  /** A flag's value can be stored at all. */
  predicate Acceptable(f: Flag, v: string) {
    Take(DEFAULTS, f, v).Ok?
  }

  predicate AllAcceptable(gs: seq<Group>) {
    forall i :: 0 <= i < |gs| && gs[i].ValueGroup? ==> Acceptable(gs[i].flag, gs[i].value)
  }

  function NumberOf(m: map<Flag, string>, f: Flag): int {
    if f in m && NonNegative(m[f]).Ok? then NonNegative(m[f]).value else 0
  }

  function ListOf(m: map<Flag, string>, f: Flag, token: string -> Result<int>): seq<int> {
    if f in m && ParseTokens(Split(m[f]), token).Ok? then ParseTokens(Split(m[f]), token).value else []
  }

  function TextOf(m: map<Flag, string>, f: Flag, default: string): string {
    if f in m then m[f] else default
  }

  /** The options denoted by the last values of the flags. */
  function Denoted(m: map<Flag, string>, help: bool): Options {
    Options(
      TextOf(m, Probe, DEFAULTS.probe), NumberOf(m, Gpu), ListOf(m, Gpus, GpuToken),
      TextOf(m, Mode, DEFAULTS.mode), NumberOf(m, Iterations), ListOf(m, MemSizes, U64Token),
      if Bytes in m && ParseU64(m[Bytes]).Ok? then ParseU64(m[Bytes]).value else 0,
      TextOf(m, Output, DEFAULTS.output), help)
  }

  lemma TakeDenoted(m: map<Flag, string>, help: bool, f: Flag, v: string)
    ensures Take(Denoted(m, help), f, v) ==
      if Acceptable(f, v) then Ok(Denoted(m[f := v], help)) else Err(Take(DEFAULTS, f, v).error)
  {
  }

  lemma {:induction false} RunDenoted(gs: seq<Group>, m: map<Flag, string>, help: bool)
    ensures RunGroups(gs, Denoted(m, help)).Ok? <==> AllAcceptable(gs)
    ensures AllAcceptable(gs) ==> RunGroups(gs, Denoted(m, help)) == Ok(Denoted(LastValues(gs, m), help || AnyHelp(gs)))
    decreases |gs|
  {
    if gs == [] {
    } else {
      var t := gs[1..];
      assert forall i :: 0 < i < |gs| ==> gs[i] == t[i - 1];
      assert forall i :: 0 <= i < |t| ==> t[i] == gs[i + 1];
      match gs[0]
      case HelpGroup(_) => RunDenoted(t, m, true);
      case ValueGroup(f, v) =>
        TakeDenoted(m, help, f, v);
        RunDenoted(t, m[f := v], help);
    }
  }

  lemma DefaultsDenoted()
    ensures Denoted(map[], false) == DEFAULTS
  {
  }

  lemma RunFromDefaults(gs: seq<Group>)
    requires WellFormed(gs)
    ensures RunArgs(Flatten(gs), DEFAULTS).Ok? <==> AllAcceptable(gs)
    ensures AllAcceptable(gs) ==> RunArgs(Flatten(gs), DEFAULTS) == Ok(Denoted(LastValues(gs, map[]), AnyHelp(gs)))
  {
    RunFlattened(gs, DEFAULTS);
    DefaultsDenoted();
    RunDenoted(gs, map[], false);
  }

  /** The parse of any argument list made of groups: it succeeds exactly when every single value is
      acceptable and the final options are valid, and the result depends only on the last value of
      each flag and on whether help was asked for. In particular the order of groups with different
      flags does not matter. */
  lemma LastOccurrenceWins(gs: seq<Group>, o: Options)
    requires WellFormed(gs)
    ensures Parsed(Flatten(gs)) == Ok(o) <==>
      AllAcceptable(gs) && o == Denoted(LastValues(gs, map[]), AnyHelp(gs)) && Validated(o).Ok?
  {
    RunFromDefaults(gs);
    SettleValidation(RunArgs(Flatten(gs), DEFAULTS), o);
  }

  lemma {:induction false} LastValuesAppend(a: seq<Group>, b: seq<Group>, m: map<Flag, string>)
    ensures LastValues(a + b, m) == LastValues(b, LastValues(a, m))
  {
    if a == [] {
      assert a + b == b;
    } else {
      assert (a + b)[1..] == a[1..] + b;
      LastValuesAppend(a[1..], b, if a[0].HelpGroup? then m else m[a[0].flag := a[0].value]);
    }
  }

  predicate SameFlag(g: Group, h: Group) {
    g.ValueGroup? && h.ValueGroup? && g.flag == h.flag
  }

  /** Neighbouring groups can be exchanged unless they set the same flag. */
  lemma GroupsCommute(a: seq<Group>, g: Group, h: Group, b: seq<Group>, o: Options)
    requires !SameFlag(g, h)
    requires WellFormed(a + ([g, h] + b)) && WellFormed(a + ([h, g] + b))
    ensures Parsed(Flatten(a + ([g, h] + b))) == Ok(o) <==> Parsed(Flatten(a + ([h, g] + b))) == Ok(o)
  {
    LastOccurrenceWins(a + ([g, h] + b), o);
    LastOccurrenceWins(a + ([h, g] + b), o);
    LastValuesAppend(a, [g, h] + b, map[]);
    LastValuesAppend(a, [h, g] + b, map[]);
    ExchangePair(g, h, b, LastValues(a, map[]));
    ExchangeMembers(a, g, h, b);
    ExchangeMembers(a, h, g, b);
  }

  lemma ExchangePair(g: Group, h: Group, b: seq<Group>, m: map<Flag, string>)
    requires !SameFlag(g, h)
    ensures LastValues([g, h] + b, m) == LastValues([h, g] + b, m)
  {
    assert ([g, h] + b)[1..] == [h] + b && ([h, g] + b)[1..] == [g] + b;
    assert ([h] + b)[1..] == b && ([g] + b)[1..] == b;
    if g.ValueGroup? && h.ValueGroup? {
      assert m[g.flag := g.value][h.flag := h.value] == m[h.flag := h.value][g.flag := g.value];
    }
  }

  lemma ExchangeMembers(a: seq<Group>, g: Group, h: Group, b: seq<Group>)
    ensures AllAcceptable(a + ([g, h] + b)) ==> AllAcceptable(a + ([h, g] + b))
    ensures AnyHelp(a + ([g, h] + b)) ==> AnyHelp(a + ([h, g] + b))
  {
    var u, w := a + ([g, h] + b), a + ([h, g] + b);
    var n := |a|;
    assert u[n] == g == w[n + 1] && u[n + 1] == h == w[n];
    assert forall i :: 0 <= i < |u| && i != n && i != n + 1 ==> u[i] == w[i];
  }

  lemma SettleValidation(r: Result<Options>, o: Options)
    ensures (if r.Ok? then Validated(r.value) else r) == Ok(o) <==> r == Ok(o) && Validated(o).Ok?
  {
  }

  // ----- rendering and parsing back

  function If(c: bool, g: Group): seq<Group> {
    if c then [g] else []
  }

  /** The flags that denote an options value; empty lists and zero bytes have none. */
  function Rendering(o: Options): seq<Group>
    requires NumbersValid(o)
  {
    [ValueGroup(Probe, o.probe), ValueGroup(Gpu, Digits(o.gpu)), ValueGroup(Mode, o.mode),
     ValueGroup(Iterations, Digits(o.iterations)), ValueGroup(Output, o.output)] + Optional(o)
  }

  function Optional(o: Options): seq<Group>
    requires NumbersValid(o)
  {
    If(o.gpus != [], ValueGroup(Gpus, ListText(o.gpus))) + OptionalSizes(o)
  }

  function OptionalSizes(o: Options): seq<Group>
    requires NumbersValid(o)
  {
    If(o.memSizes != [], ValueGroup(MemSizes, ListText(o.memSizes))) + OptionalBytes(o)
  }

  function OptionalBytes(o: Options): seq<Group>
    requires NumbersValid(o)
  {
    If(o.bytes != 0, ValueGroup(Bytes, Digits(o.bytes))) + OptionalHelp(o)
  }

  function OptionalHelp(o: Options): seq<Group> {
    If(o.help, HelpGroup("--help"))
  }

  function ListText(vs: seq<int>): string
    requires AllWithin(vs, 0, U64_MAX)
  {
    if vs == [] then "" else Join(Rendered(vs))
  }

  function StepGroup(g: Group, o: Options): Result<Options> {
    match g
    case HelpGroup(_) => Ok(o.(help := true))
    case ValueGroup(f, v) => Take(o, f, v)
  }

  lemma RunIf(c: bool, g: Group, rest: seq<Group>, o: Options)
    ensures RunGroups(If(c, g) + rest, o) ==
      if !c then RunGroups(rest, o)
      else if StepGroup(g, o).Ok? then RunGroups(rest, StepGroup(g, o).value) else StepGroup(g, o)
  {
    if c { assert ([g] + rest)[1..] == rest; } else { assert [] + rest == rest; }
  }

  lemma ListTextParses(vs: seq<int>)
    requires vs != [] && AllWithin(vs, 0, U64_MAX)
    ensures AllWithin(vs, 0, INT_MAX) ==> ParseTokens(Split(ListText(vs)), GpuToken) == Ok(vs)
    ensures AllWithin(vs, 1, U64_MAX) ==> ParseTokens(Split(ListText(vs)), U64Token) == Ok(vs)
  {
    ListRoundTrip(vs);
  }

  /** The five flags that are always rendered. */
  lemma RunFixed(o: Options, rest: seq<Group>)
    requires NumbersValid(o)
    ensures RunGroups([ValueGroup(Probe, o.probe), ValueGroup(Gpu, Digits(o.gpu)), ValueGroup(Mode, o.mode),
                       ValueGroup(Iterations, Digits(o.iterations)), ValueGroup(Output, o.output)] + rest, DEFAULTS)
      == RunGroups(rest, Options(o.probe, o.gpu, [], o.mode, o.iterations, [], 0, o.output, false))
  {
    DigitsParse(o.gpu);
    DigitsParse(o.iterations);
    var a, b, c := ValueGroup(Probe, o.probe), ValueGroup(Gpu, Digits(o.gpu)), ValueGroup(Mode, o.mode);
    var d, e := ValueGroup(Iterations, Digits(o.iterations)), ValueGroup(Output, o.output);
    assert [a, b, c, d, e] + rest == [a] + ([b] + ([c] + ([d] + ([e] + rest))));
    RunIf(true, a, [b] + ([c] + ([d] + ([e] + rest))), DEFAULTS);
    RunIf(true, b, [c] + ([d] + ([e] + rest)), DEFAULTS.(probe := o.probe));
    RunIf(true, c, [d] + ([e] + rest), DEFAULTS.(probe := o.probe, gpu := o.gpu));
    RunIf(true, d, [e] + rest, DEFAULTS.(probe := o.probe, gpu := o.gpu, mode := o.mode));
    RunIf(true, e, rest, DEFAULTS.(probe := o.probe, gpu := o.gpu, mode := o.mode, iterations := o.iterations));
  }

  lemma RunOptionalHelp(o: Options)
    ensures RunGroups(OptionalHelp(o), o.(help := false)) == Ok(o)
  {
    assert OptionalHelp(o) + [] == OptionalHelp(o);
    RunIf(o.help, HelpGroup("--help"), [], o.(help := false));
  }

  lemma RunOptionalBytes(o: Options)
    requires NumbersValid(o)
    ensures RunGroups(OptionalBytes(o), o.(bytes := 0, help := false)) == Ok(o)
  {
    DigitsParse(o.bytes);
    RunIf(o.bytes != 0, ValueGroup(Bytes, Digits(o.bytes)), OptionalHelp(o), o.(bytes := 0, help := false));
    RunOptionalHelp(o);
  }

  lemma RunOptionalSizes(o: Options)
    requires NumbersValid(o)
    ensures RunGroups(OptionalSizes(o), o.(memSizes := [], bytes := 0, help := false)) == Ok(o)
  {
    if o.memSizes != [] { ListTextParses(o.memSizes); }
    RunIf(o.memSizes != [], ValueGroup(MemSizes, ListText(o.memSizes)), OptionalBytes(o),
          o.(memSizes := [], bytes := 0, help := false));
    RunOptionalBytes(o);
  }

  lemma RunOptional(o: Options)
    requires NumbersValid(o)
    ensures RunGroups(Optional(o), o.(gpus := [], memSizes := [], bytes := 0, help := false)) == Ok(o)
  {
    if o.gpus != [] { ListTextParses(o.gpus); }
    RunIf(o.gpus != [], ValueGroup(Gpus, ListText(o.gpus)), OptionalSizes(o),
          o.(gpus := [], memSizes := [], bytes := 0, help := false));
    RunOptionalSizes(o);
  }

  lemma RenderingRuns(o: Options)
    requires NumbersValid(o)
    ensures RunGroups(Rendering(o), DEFAULTS) == Ok(o)
  {
    RunFixed(o, Optional(o));
    RunOptional(o);
  }

  lemma JoinWellFormed(a: seq<Group>, b: seq<Group>)
    requires WellFormed(a) && WellFormed(b)
    ensures WellFormed(a + b)
  {
  }

  lemma FixedWellFormed(o: Options)
    requires NumbersValid(o)
    ensures WellFormed([ValueGroup(Probe, o.probe), ValueGroup(Gpu, Digits(o.gpu)), ValueGroup(Mode, o.mode),
                        ValueGroup(Iterations, Digits(o.iterations)), ValueGroup(Output, o.output)])
  {
  }

  lemma OptionalWellFormed(o: Options)
    requires NumbersValid(o)
    ensures WellFormed(Optional(o))
  {
    JoinWellFormed(If(o.bytes != 0, ValueGroup(Bytes, Digits(o.bytes))), OptionalHelp(o));
    JoinWellFormed(If(o.memSizes != [], ValueGroup(MemSizes, ListText(o.memSizes))), OptionalBytes(o));
    JoinWellFormed(If(o.gpus != [], ValueGroup(Gpus, ListText(o.gpus))), OptionalSizes(o));
  }

  lemma RenderingWellFormed(o: Options)
    requires NumbersValid(o)
    ensures WellFormed(Rendering(o))
  {
    FixedWellFormed(o);
    OptionalWellFormed(o);
    JoinWellFormed([ValueGroup(Probe, o.probe), ValueGroup(Gpu, Digits(o.gpu)), ValueGroup(Mode, o.mode),
                    ValueGroup(Iterations, Digits(o.iterations)), ValueGroup(Output, o.output)], Optional(o));
  }

  /** Rendering a valid options value as arguments and parsing them gives it back. */
  lemma OptionsRoundTrip(o: Options)
    requires Valid(o)
    ensures Parsed(Flatten(Rendering(o))) == Ok(o)
  {
    RenderingWellFormed(o);
    RunFlattened(Rendering(o), DEFAULTS);
    RenderingRuns(o);
  }
}
