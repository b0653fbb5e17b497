/** The parsers of the verbs that have value flags, over the tokens the lift kept, and their agreement with
    the lift about which tokens are values. `exec` is in `Grammar`. */
module Verbs {
  import opened Grammar
  import opened Utf8
  import opened Wrappers
  import Decimal
  import Durations

  const FORMS := ["config", "start", "stop", "generations", "memory"]

  /** One form of a verb, with what has been read of it so far. */
  datatype Form =
    | Config(manifest: Option<Token>, json: bool)
    | ConfigEval(json: bool)
    | ConfigSources(json: bool)
    | Start(rebuild: bool, noRebuild: bool, generation: Option<nat>, attach: bool, json: bool)
    | Stop(force: bool, all: bool, timeout: Option<int>, json: bool)
    | GenerationsList(json: bool)
    | GenerationsActivate(number: Option<nat>, json: bool)
    | GenerationsRollback(json: bool)
    | GenerationsPrune(keep: Option<nat>, olderThan: Option<nat>, json: bool)
    | MemoryTrim(to: Option<nat>, json: bool)

  /** A whole command, `start --spec` having no flags of its own. */
  datatype Command = Flags(form: Form) | StartSpec(path: Token)

  datatype Refusal =
    | Unknown(token: Token)
    | NeedsSubcommand
    | NotASubcommand(token: Token)
    | NeedsValue(flag: Token)
    | NotUtf8(flag: Token)
    | Malformed(flag: Token, raw: Token)
    | OutsideDomain(flag: Token, raw: Token)
    | SpecNeedsPath
    | SpecTakesOnePath
    | Contradiction(one: Token, other: Token)
    | NeedsNumber
    | NeedsRetention

  // Numbers, as the standard library parses them: a sign is allowed, and the width is checked.

  function Unsigned(digits: string, most: nat): Option<nat> {
    if digits != [] && Decimal.AllDigits(digits) && Decimal.Value(digits) <= most then Some(Decimal.Value(digits))
    else None
  }

  function U64Of(raw: Token): Option<nat> {
    Unsigned(if raw != [] && raw[0] == '+' then raw[1..] else raw, Durations.U64_MAX)
  }

  const I64_MAX: nat := 0x7fff_ffff_ffff_ffff

  function I64Of(raw: Token): Option<int> {
    if raw != [] && raw[0] == '-' then
      var n := Unsigned(raw[1..], I64_MAX + 1);
      if n.Some? then Some(0 - n.value as int) else None
    else Unsigned(if raw != [] && raw[0] == '+' then raw[1..] else raw, I64_MAX)
  }

  // One turn of a parser's loop.

  /** A token is taken as it stands, or is a flag that reads the next token as its value. */
  datatype Turn = Took(form: Form) | Wants(flag: Token)

  function WithJson(f: Form, json: bool): Form {
    f.(json := json)
  }

  function OnlyJson(f: Form, t: Token): Result<Turn, Refusal> {
    if t == "--json" then Ok(Took(WithJson(f, true))) else Err(Unknown(t))
  }

  /** The flags that read a value, by the names refusals give them. */
  predicate HasValueFlag(f: Form, flag: Token) {
    match f
    case Config(_, _) => flag == "--manifest"
    case Start(_, _, _, _, _) => flag == "--generation"
    case Stop(_, _, _, _) => flag == "--timeout"
    case GenerationsPrune(_, _, _) => flag in ["--keep", "--older-than"]
    case MemoryTrim(_, _) => flag == "--to"
    case _ => false
  }

  function Feed(f: Form, t: Token): (r: Result<Turn, Refusal>)
    ensures r.Ok? && r.value.Wants? ==> HasValueFlag(f, r.value.flag)
  {
    match f
    case Config(_, _) => if t == "--manifest" then Ok(Wants(t)) else OnlyJson(f, t)
    case Start(_, _, _, _, _) =>
      if t == "--rebuild" then Ok(Took(f.(rebuild := true)))
      else if t == "--no-rebuild" then Ok(Took(f.(noRebuild := true)))
      else if t == "--generation" then Ok(Wants(t))
      else if t == "--attach" then Ok(Took(f.(attach := true)))
      else OnlyJson(f, t)
    case Stop(_, _, _, _) =>
      if t == "--force" then Ok(Took(f.(force := true)))
      else if t == "--all" then Ok(Took(f.(all := true)))
      else if t in ["-t", "--timeout"] then Ok(Wants("--timeout"))
      else OnlyJson(f, t)
    case GenerationsActivate(number, _) =>
      if t == "--json" || number.Some? || !IsUtf8(t) || (t != [] && t[0] == '-') then OnlyJson(f, t)
      else if U64Of(t).None? then Err(Malformed("activate", t))
      else Ok(Took(f.(number := U64Of(t))))
    case GenerationsPrune(_, _, _) => if t in ["--keep", "--older-than"] then Ok(Wants(t)) else OnlyJson(f, t)
    case MemoryTrim(_, _) => if t == "--to" then Ok(Wants(t)) else OnlyJson(f, t)
    case _ => OnlyJson(f, t)
  }

  /** What a flag makes of its value. */
  function Supply(f: Form, flag: Token, raw: Token): Result<Form, Refusal>
    requires HasValueFlag(f, flag)
  {
    if !IsUtf8(raw) then Err(NotUtf8(flag))
    else if f.Config? then Ok(f.(manifest := Some(raw)))
    else if f.Stop? then
      match I64Of(raw)
      case Some(n) => if n < -1 then Err(OutsideDomain(flag, raw)) else Ok(f.(timeout := Some(n)))
      case None => Err(Malformed(flag, raw))
    else
      match if flag == "--older-than" then Durations.Seconds(raw) else U64Of(raw)
      case Some(n) =>
        if f.Start? then Ok(f.(generation := Some(n)))
        else if f.MemoryTrim? then (if n == 0 then Err(OutsideDomain(flag, raw)) else Ok(f.(to := Some(n))))
        else if flag == "--keep" then Ok(f.(keep := Some(n)))
        else Ok(f.(olderThan := Some(n)))
      case None => Err(Malformed(flag, raw))
  }

  /** A parser's loop. */
  function Walk(f: Form, rest: seq<Token>): Result<Form, Refusal>
    decreases |rest|
  {
    if rest == [] then Ok(f)
    else
      match Feed(f, rest[0])
      case Err(e) => Err(e)
      case Ok(Took(next)) => Walk(next, rest[1..])
      case Ok(Wants(flag)) =>
        if |rest| < 2 then Err(NeedsValue(flag))
        else
          match Supply(f, flag, rest[1])
          case Err(e) => Err(e)
          case Ok(next) => Walk(next, rest[2..])
  }

  /** The checks behind the loop, in the order they are made. */
  function Concluded(f: Form): Result<Command, Refusal> {
    match f
    case Start(rebuild, noRebuild, generation, attach, json) =>
      if rebuild && noRebuild then Err(Contradiction("--rebuild", "--no-rebuild"))
      else if generation.Some? && (rebuild || noRebuild) then Err(Contradiction("--generation", "--rebuild"))
      else if attach && json then Err(Contradiction("--attach", "--json"))
      else Ok(Flags(f))
    case Stop(force, _, timeout, _) =>
      if force && timeout.Some? && timeout.value != 0 then Err(Contradiction("--force", "--timeout"))
      else Ok(Flags(f))
    case GenerationsActivate(number, _) => if number.None? then Err(NeedsNumber) else Ok(Flags(f))
    case GenerationsPrune(keep, olderThan, _) =>
      if keep.Some? && olderThan.Some? then Err(Contradiction("--keep", "--older-than"))
      else if keep.None? && olderThan.None? then Err(NeedsRetention)
      else Ok(Flags(f))
    case _ => Ok(Flags(f))
  }

  function Finished(walked: Result<Form, Refusal>): Result<Command, Refusal> {
    match walked
    case Ok(f) => Concluded(f)
    case Err(e) => Err(e)
  }

  /** The form the first token chooses, and whether it chooses by being a subcommand; or a refusal. */
  function Choose(verb: Token, first: Option<Token>): Result<(Form, bool), Refusal>
    requires verb in FORMS
  {
    if verb == "config" then
      if first == Some("eval") then Ok((ConfigEval(false), true))
      else if first == Some("sources") then Ok((ConfigSources(false), true))
      else Ok((Config(None, false), false))
    else if verb == "start" then Ok((Start(false, false, None, false, false), false))
    else if verb == "stop" then Ok((Stop(false, false, None, false), false))
    else if first.None? then Err(NeedsSubcommand)
    else if verb == "memory" then
      if first.value == "trim" then Ok((MemoryTrim(None, false), true)) else Err(NotASubcommand(first.value))
    else
      if first.value == "list" then Ok((GenerationsList(false), true))
      else if first.value == "activate" then Ok((GenerationsActivate(None, false), true))
      else if first.value == "rollback" then Ok((GenerationsRollback(false), true))
      else if first.value == "prune" then Ok((GenerationsPrune(None, None, false), true))
      else Err(NotASubcommand(first.value))
  }

  function First(rest: seq<Token>): Option<Token> {
    if rest == [] then None else Some(rest[0])
  }

  /** `start --spec`. */
  function SpecOf(rest: seq<Token>): Result<Command, Refusal>
    requires First(rest) == Some("--spec")
  {
    if |rest| < 2 then Err(SpecNeedsPath)
    else if |rest| != 2 || rest[1] == [] || rest[1][0] != '/' then Err(SpecTakesOnePath)
    else Ok(StartSpec(rest[1]))
  }

  /** `config`, `start`, `stop`, `generations` and `memory`. */
  function CommandOf(verb: Token, rest: seq<Token>): Result<Command, Refusal>
    requires verb in FORMS
  {
    if verb == "start" && First(rest) == Some("--spec") then SpecOf(rest)
    else
      match Choose(verb, First(rest))
      case Err(e) => Err(e)
      case Ok((form, sub)) => Finished(Walk(form, if sub then rest[1..] else rest))
  }

  /** The loop of every one of them: the tokens, each with what it says of this form. */
  method ReadFlags(form: Form, rest: seq<Token>) returns (r: Result<Form, Refusal>)
    ensures r == Walk(form, rest)
  {
    hide Feed, Supply;
    var f, i := form, 0;
    while i < |rest|
      invariant 0 <= i <= |rest| && Walk(f, rest[i..]) == Walk(form, rest)
    {
      match Feed(f, rest[i]) {
        case Err(e) => return Err(e);
        case Ok(Took(next)) => f := next;
        case Ok(Wants(flag)) =>
          i := i + 1;
          if i == |rest| { return Err(NeedsValue(flag)); }
          match Supply(f, flag, rest[i]) {
            case Err(e) => return Err(e);
            case Ok(next) => f := next;
          }
      }
      i := i + 1;
    }
    r := Ok(f);
  }

  // Every command has a line that says it.

  /** The verb whose form it is. */
  function VerbOf(f: Form): (verb: Token)
    ensures verb in FORMS
  {
    match f
    case Config(_, _) | ConfigEval(_) | ConfigSources(_) => "config"
    case Start(_, _, _, _, _) => "start"
    case Stop(_, _, _, _) => "stop"
    case MemoryTrim(_, _) => "memory"
    case _ => "generations"
  }

  function If(given: bool, flag: Token): seq<Token> {
    if given then [flag] else []
  }

  function Valued(flag: Token, raw: Option<Token>): seq<Token> {
    if raw.Some? then [flag, raw.value] else []
  }

  function Numeral(n: Option<nat>): Option<Token> {
    if n.Some? then Some(Decimal.Print(n.value)) else None
  }

  /** A whole number of seconds; `-1` waits indefinitely. */
  function SignedNumeral(n: Option<int>): Option<Token> {
    if n.None? then None else if n.value < 0 then Some("-1") else Some(Decimal.Print(n.value))
  }

  function Age(n: Option<nat>): Option<Token> {
    if n.Some? then Some(Decimal.Print(n.value) + ['s']) else None
  }

  /** A form's flags, each spelled once. */
  function FlagsOf(f: Form): seq<Token> {
    match f
    case Config(manifest, json) => Valued("--manifest", manifest) + If(json, "--json")
    case Start(rebuild, noRebuild, generation, attach, json) =>
      If(rebuild, "--rebuild") + (If(noRebuild, "--no-rebuild") + (Valued("--generation", Numeral(generation))
      + (If(attach, "--attach") + If(json, "--json"))))
    case Stop(force, all, timeout, json) =>
      If(force, "--force") + (If(all, "--all") + (Valued("--timeout", SignedNumeral(timeout)) + If(json, "--json")))
    case GenerationsActivate(number, json) =>
      (if number.Some? then [Decimal.Print(number.value)] else []) + If(json, "--json")
    case GenerationsPrune(keep, olderThan, json) =>
      Valued("--keep", Numeral(keep)) + (Valued("--older-than", Age(olderThan)) + If(json, "--json"))
    case MemoryTrim(to, json) => Valued("--to", Numeral(to)) + If(json, "--json")
    case _ => If(f.json, "--json")
  }

  function SubcommandOf(f: Form): Option<Token> {
    match f
    case ConfigEval(_) => Some("eval")
    case ConfigSources(_) => Some("sources")
    case GenerationsList(_) => Some("list")
    case GenerationsActivate(_, _) => Some("activate")
    case GenerationsRollback(_) => Some("rollback")
    case GenerationsPrune(_, _, _) => Some("prune")
    case MemoryTrim(_, _) => Some("trim")
    case _ => None
  }

  function Spelled(c: Command): seq<Token> {
    match c
    case Flags(f) => (if SubcommandOf(f).Some? then [SubcommandOf(f).value] else []) + FlagsOf(f)
    case StartSpec(path) => ["--spec", path]
  }

  predicate Holds(n: Option<nat>) {
    n.Some? ==> n.value <= Durations.U64_MAX
  }

  /** The values a form's flags can have. */
  predicate InDomain(f: Form) {
    match f
    case Config(manifest, _) => manifest.Some? ==> IsUtf8(manifest.value)
    case Start(_, _, generation, _, _) => Holds(generation)
    case Stop(_, _, timeout, _) => timeout.Some? ==> -1 <= timeout.value <= I64_MAX
    case GenerationsActivate(number, _) => Holds(number)
    case GenerationsPrune(keep, olderThan, _) => Holds(keep) && Holds(olderThan)
    case MemoryTrim(to, _) => Holds(to) && (to.Some? ==> to.value > 0)
    case _ => true
  }

  /** What may be asked together: not both ways of building, nor either beside a named generation, nor the
      console as JSON; no grace beside force but none; a number to activate; and one retention argument. */
  predicate Coherent(f: Form) {
    match f
    case Start(rebuild, noRebuild, generation, attach, json) =>
      !(rebuild && noRebuild) && (generation.Some? ==> !rebuild && !noRebuild) && !(attach && json)
    case Stop(force, _, timeout, _) => force ==> timeout in {None, Some(0)}
    case GenerationsActivate(number, _) => number.Some?
    case GenerationsPrune(keep, olderThan, _) => keep.Some? <==> olderThan.None?
    case _ => true
  }

  /** Exactly that is accepted, and a refusal names the two flags or what is missing. */
  lemma CoherenceIsChecked(f: Form)
    ensures Concluded(f) == Ok(Flags(f)) <==> Coherent(f)
    ensures !Coherent(f) ==>
              Concluded(f) == Err(match f
                case Start(rebuild, noRebuild, generation, _, _) =>
                  if rebuild && noRebuild then Contradiction("--rebuild", "--no-rebuild")
                  else if generation.Some? && (rebuild || noRebuild) then Contradiction("--generation", "--rebuild")
                  else Contradiction("--attach", "--json")
                case Stop(_, _, _, _) => Contradiction("--force", "--timeout")
                case GenerationsPrune(keep, _, _) =>
                  if keep.Some? then Contradiction("--keep", "--older-than") else NeedsRetention
                case _ => NeedsNumber)
  {
  }

  /** A refused value is named with its flag: not UTF-8, outside what the flag allows, or no number. */
  lemma RefusedValuesAreNamed(f: Form, flag: Token, raw: Token)
    requires HasValueFlag(f, flag) && Supply(f, flag, raw).Err?
    ensures Supply(f, flag, raw).error
         == if !IsUtf8(raw) then NotUtf8(flag)
            else if (f.Stop? && I64Of(raw).Some?) || (f.MemoryTrim? && U64Of(raw).Some?) then OutsideDomain(flag, raw)
            else Malformed(flag, raw)
  {
    hide IsUtf8, U64Of, I64Of, Durations.Seconds;
  }

  /** A refused token is unknown, but for what stands where the number of `activate` is read. */
  lemma RefusedTokensAreNamed(f: Form, t: Token)
    requires Feed(f, t).Err?
    ensures Feed(f, t).error
         == if f == GenerationsActivate(None, f.json) && IsUtf8(t) && !(t != [] && t[0] == '-')
            then Malformed("activate", t) else Unknown(t)
  {
    hide IsUtf8, U64Of;
  }

  /** `generations` and `memory` need one of their subcommands first, and name what they got instead. */
  lemma SubcommandsExactly(verb: Token, first: Option<Token>)
    requires verb in FORMS
    ensures var given := if verb == "generations" then ["list", "activate", "rollback", "prune"] else ["trim"];
            var needed := verb in ["generations", "memory"] && !(first.Some? && first.value in given);
            if !needed then Choose(verb, first).Ok?
            else Choose(verb, first) == Err(if first.Some? then NotASubcommand(first.value) else NeedsSubcommand)
  {
  }

  predicate Sound(c: Command) {
    match c
    case Flags(f) => InDomain(f) && Coherent(f)
    case StartSpec(path) => path != [] && path[0] == '/'
  }

  lemma PrintedDigits(n: nat)
    ensures var raw := Decimal.Print(n);
            && Decimal.AllDigits(raw) && Decimal.Value(raw) == n
            && IsUtf8(raw) && IsUtf8(raw + ['s']) && raw != [] && Decimal.IsDigit(raw[0])
  {
    hide IsUtf8;
    Decimal.ValueOfPrint(n);
    AsciiIsUtf8(Decimal.Print(n));
    AsciiIsUtf8(Decimal.Print(n) + ['s']);
  }

  /** A number is read with or without a plus sign, and a signed one with a minus, exactly as far as its
      width goes. */
  lemma NumbersExactly(n: nat)
    ensures var raw := Decimal.Print(n);
            && U64Of(raw) == U64Of(['+'] + raw) == (if n <= 0xffff_ffff_ffff_ffff then Some(n) else None)
            && U64Of(['-'] + raw) == None
            && I64Of(raw) == I64Of(['+'] + raw) == (if n <= 0x7fff_ffff_ffff_ffff then Some(n) else None)
            && I64Of(['-'] + raw) == (if n <= 0x8000_0000_0000_0000 then Some(0 - n as int) else None)
  {
    PrintedDigits(n);
    var raw := Decimal.Print(n);
    hide IsUtf8, Decimal.Print, Decimal.Value;
    assert (['+'] + raw)[1..] == raw && (['-'] + raw)[1..] == raw;
    assert (['-'] + raw)[0] == '-' && !Decimal.IsDigit('-');
  }

  lemma NumeralsAreRead(n: nat)
    ensures var raw := Decimal.Print(n);
            && IsUtf8(raw) && raw != [] && raw[0] != '-' && raw != "--json"
            && (n <= Durations.U64_MAX ==> U64Of(raw) == Some(n))
            && (n <= I64_MAX ==> I64Of(raw) == Some(n))
  {
    PrintedDigits(n);
    hide IsUtf8, Decimal.Print, Decimal.Value;
  }

  lemma AgesAreRead(n: nat)
    ensures var raw := Decimal.Print(n) + ['s'];
            IsUtf8(raw) && (n <= Durations.U64_MAX ==> Durations.Seconds(raw) == Some(n))
  {
    PrintedDigits(n);
    Durations.SecondsOfPrint(n, 's');
    hide IsUtf8, Decimal.Print, Decimal.Value, Durations.Seconds;
  }

  lemma MinusOneIsRead()
    ensures IsUtf8("-1") && I64Of("-1") == Some(-1)
  {
    assert "-1"[1..] == "1" && "1"[..0] == "";
  }

  lemma WalkIf(f: Form, given: bool, flag: Token, rest: seq<Token>, on: Form)
    requires given ==> Feed(f, flag) == Ok(Took(on))
    requires !given ==> on == f
    ensures Walk(f, If(given, flag) + rest) == Walk(on, rest)
  {
    hide Feed, Supply;
    assert If(given, flag) + rest == if given then [flag] + rest else rest;
  }

  lemma WalkValued(f: Form, flag: Token, raw: Option<Token>, rest: seq<Token>, on: Form)
    requires HasValueFlag(f, flag)
    requires raw.Some? ==> Feed(f, flag) == Ok(Wants(flag)) && Supply(f, flag, raw.value) == Ok(on)
    requires raw.None? ==> on == f
    ensures Walk(f, Valued(flag, raw) + rest) == Walk(on, rest)
  {
    hide Feed, Supply, HasValueFlag;
    assert raw.None? ==> Valued(flag, raw) + rest == rest;
    assert raw.Some? ==> (Valued(flag, raw) + rest)[2..] == rest;
  }

  lemma WalkJson(f: Form, json: bool)
    requires !f.json
    ensures Walk(f, If(json, "--json")) == Ok(WithJson(f, json))
  {
    var on := WithJson(f, json);
    WalkIf(f, json, "--json", [], on);
    assert If(json, "--json") + [] == If(json, "--json");
  }

  lemma StartTurns(f: Form)
    requires f.Start?
    ensures Feed(f, "--rebuild") == Ok(Took(f.(rebuild := true)))
    ensures Feed(f, "--no-rebuild") == Ok(Took(f.(noRebuild := true)))
    ensures Feed(f, "--generation") == Ok(Wants("--generation"))
    ensures Feed(f, "--attach") == Ok(Took(f.(attach := true)))
  {
    hide OnlyJson;
  }

  lemma GenerationIsSupplied(f: Form, n: nat)
    requires f.Start? && n <= Durations.U64_MAX
    ensures Supply(f, "--generation", Decimal.Print(n)) == Ok(f.(generation := Some(n)))
  {
    NumeralsAreRead(n);
    hide IsUtf8, U64Of, I64Of, Decimal.Print, Durations.Seconds;
  }

  lemma StartIsReadBack(f: Form)
    requires f.Start? && InDomain(f)
    ensures Walk(Start(false, false, None, false, false), FlagsOf(f)) == Ok(f)
  {
    var f0 := Start(false, false, None, false, false);
    var f1 := f0.(rebuild := f.rebuild);
    var f2 := f1.(noRebuild := f.noRebuild);
    var f3 := f2.(generation := f.generation);
    var f4 := f3.(attach := f.attach);
    StartTurns(f0);
    StartTurns(f1);
    StartTurns(f2);
    StartTurns(f3);
    if f.generation.Some? { GenerationIsSupplied(f2, f.generation.value); }
    hide Walk, Feed, Supply, Decimal.Print;
    var json := If(f.json, "--json");
    var attach := If(f.attach, "--attach") + json;
    var generation := Valued("--generation", Numeral(f.generation)) + attach;
    WalkIf(f0, f.rebuild, "--rebuild", If(f.noRebuild, "--no-rebuild") + generation, f1);
    WalkIf(f1, f.noRebuild, "--no-rebuild", generation, f2);
    WalkValued(f2, "--generation", Numeral(f.generation), attach, f3);
    WalkIf(f3, f.attach, "--attach", json, f4);
    WalkJson(f4, f.json);
  }

  lemma StopTurns(f: Form)
    requires f.Stop?
    ensures Feed(f, "--force") == Ok(Took(f.(force := true)))
    ensures Feed(f, "--all") == Ok(Took(f.(all := true)))
    ensures Feed(f, "--timeout") == Ok(Wants("--timeout"))
  {
    hide OnlyJson;
  }

  lemma TimeoutIsSupplied(f: Form, n: int)
    requires f.Stop? && -1 <= n <= I64_MAX
    ensures Supply(f, "--timeout", SignedNumeral(Some(n)).value) == Ok(f.(timeout := Some(n)))
  {
    if n < 0 { MinusOneIsRead(); } else { NumeralsAreRead(n); }
    hide IsUtf8, U64Of, I64Of, Decimal.Print, Durations.Seconds;
  }

  lemma StopIsReadBack(f: Form)
    requires f.Stop? && InDomain(f)
    ensures Walk(Stop(false, false, None, false), FlagsOf(f)) == Ok(f)
  {
    var f0 := Stop(false, false, None, false);
    var f1 := f0.(force := f.force);
    var f2 := f1.(all := f.all);
    var f3 := f2.(timeout := f.timeout);
    StopTurns(f0);
    StopTurns(f1);
    StopTurns(f2);
    if f.timeout.Some? { TimeoutIsSupplied(f2, f.timeout.value); }
    hide Walk, Feed, Supply, Decimal.Print;
    var json := If(f.json, "--json");
    var timeout := Valued("--timeout", SignedNumeral(f.timeout)) + json;
    WalkIf(f0, f.force, "--force", If(f.all, "--all") + timeout, f1);
    WalkIf(f1, f.all, "--all", timeout, f2);
    WalkValued(f2, "--timeout", SignedNumeral(f.timeout), json, f3);
    WalkJson(f3, f.json);
  }

  lemma PruneTurns(f: Form)
    requires f.GenerationsPrune?
    ensures Feed(f, "--keep") == Ok(Wants("--keep")) && Feed(f, "--older-than") == Ok(Wants("--older-than"))
  {
  }

  lemma KeepIsSupplied(f: Form, n: nat)
    requires f.GenerationsPrune? && n <= Durations.U64_MAX
    ensures Supply(f, "--keep", Decimal.Print(n)) == Ok(f.(keep := Some(n)))
  {
    NumeralsAreRead(n);
    hide IsUtf8, U64Of, I64Of, Decimal.Print, Durations.Seconds;
  }

  lemma AgeIsSupplied(f: Form, n: nat)
    requires f.GenerationsPrune? && n <= Durations.U64_MAX
    ensures Supply(f, "--older-than", Decimal.Print(n) + ['s']) == Ok(f.(olderThan := Some(n)))
  {
    AgesAreRead(n);
    hide IsUtf8, U64Of, I64Of, Decimal.Print, Durations.Seconds;
  }

  lemma PruneIsReadBack(f: Form)
    requires f.GenerationsPrune? && InDomain(f)
    ensures Walk(GenerationsPrune(None, None, false), FlagsOf(f)) == Ok(f)
  {
    var f0 := GenerationsPrune(None, None, false);
    var f1 := f0.(keep := f.keep);
    var f2 := f1.(olderThan := f.olderThan);
    PruneTurns(f0);
    PruneTurns(f1);
    if f.keep.Some? { KeepIsSupplied(f0, f.keep.value); }
    if f.olderThan.Some? { AgeIsSupplied(f1, f.olderThan.value); }
    hide Walk, Feed, Supply, Decimal.Print;
    var json := If(f.json, "--json");
    WalkValued(f0, "--keep", Numeral(f.keep), Valued("--older-than", Age(f.olderThan)) + json, f1);
    WalkValued(f1, "--older-than", Age(f.olderThan), json, f2);
    WalkJson(f2, f.json);
  }

  lemma ActivateIsReadBack(f: Form)
    requires f.GenerationsActivate? && InDomain(f)
    ensures Walk(GenerationsActivate(None, false), FlagsOf(f)) == Ok(f)
  {
    var f0 := GenerationsActivate(None, false);
    var f1 := f0.(number := f.number);
    var json := If(f.json, "--json");
    var raw := Decimal.Print(if f.number.Some? then f.number.value else 0);
    if f.number.Some? { NumeralsAreRead(f.number.value); }
    hide Walk, IsUtf8, U64Of, Decimal.Print;
    WalkIf(f0, f.number.Some?, raw, json, f1);
    WalkJson(f1, f.json);
  }

  lemma OneValueIsReadBack(f: Form)
    requires (f.Config? || f.MemoryTrim?) && InDomain(f)
    ensures Walk(if f.Config? then Config(None, false) else MemoryTrim(None, false), FlagsOf(f)) == Ok(f)
  {
    var json := If(f.json, "--json");
    if f.MemoryTrim? && f.to.Some? { NumeralsAreRead(f.to.value); }
    hide Walk, IsUtf8, U64Of, Decimal.Print;
    if f.Config? {
      WalkValued(Config(None, false), "--manifest", f.manifest, json, Config(f.manifest, false));
    } else {
      WalkValued(MemoryTrim(None, false), "--to", Numeral(f.to), json, MemoryTrim(f.to, false));
    }
    WalkJson(WithJson(f, false), f.json);
  }

  /** A form with nothing given yet. */
  function Blank(f: Form): Form {
    match f
    case Config(_, _) => Config(None, false)
    case Start(_, _, _, _, _) => Start(false, false, None, false, false)
    case Stop(_, _, _, _) => Stop(false, false, None, false)
    case GenerationsActivate(_, _) => GenerationsActivate(None, false)
    case GenerationsPrune(_, _, _) => GenerationsPrune(None, None, false)
    case MemoryTrim(_, _) => MemoryTrim(None, false)
    case _ => WithJson(f, false)
  }

  lemma FlagsAreReadBack(f: Form)
    requires InDomain(f)
    ensures Walk(Blank(f), FlagsOf(f)) == Ok(f)
  {
    hide Walk, InDomain;
    if f.Start? { StartIsReadBack(f); }
    else if f.Stop? { StopIsReadBack(f); }
    else if f.GenerationsPrune? { PruneIsReadBack(f); }
    else if f.GenerationsActivate? { ActivateIsReadBack(f); }
    else if f.Config? || f.MemoryTrim? { OneValueIsReadBack(f); }
    else { WalkJson(WithJson(f, false), f.json); }
  }

  /** Every command these verbs can mean is read back from its line. */
  lemma CommandIsReadBack(c: Command)
    requires Sound(c)
    ensures CommandOf(if c.StartSpec? then "start" else VerbOf(c.form), Spelled(c)) == Ok(c)
  {
    if c.Flags? {
      var f := c.form;
      FlagsAreReadBack(f);
      ChosenBack(f);
      CoherenceIsChecked(f);
      hide Walk, Concluded, Coherent, InDomain, FlagsOf, Choose, VerbOf, SubcommandOf;
      assert SubcommandOf(f).Some? ==> Spelled(c)[1..] == FlagsOf(f);
      assert SubcommandOf(f).None? ==> Spelled(c) == FlagsOf(f);
    }
  }

  /** The line's first token chooses its form again. */
  lemma ChosenBack(f: Form)
    ensures First(Spelled(Flags(f))) != Some("--spec")
    ensures Choose(VerbOf(f), First(Spelled(Flags(f)))) == Ok((Blank(f), SubcommandOf(f).Some?))
  {
    hide Decimal.Print;
  }

  lemma TurnsStayInDomain(f: Form, t: Token)
    requires InDomain(f) && Feed(f, t).Ok?
    ensures Feed(f, t).value.Took? ==> InDomain(Feed(f, t).value.form)
  {
    hide IsUtf8;
  }

  lemma SuppliesStayInDomain(f: Form, flag: Token, raw: Token)
    requires InDomain(f) && HasValueFlag(f, flag) && Supply(f, flag, raw).Ok?
    ensures InDomain(Supply(f, flag, raw).value)
  {
    hide IsUtf8;
  }

  lemma {:induction false} WalksStayInDomain(f: Form, rest: seq<Token>)
    requires InDomain(f) && Walk(f, rest).Ok?
    ensures InDomain(Walk(f, rest).value)
    decreases |rest|
  {
    hide Feed, Supply, InDomain;
    if rest != [] {
      TurnsStayInDomain(f, rest[0]);
      if Feed(f, rest[0]).value.Took? {
        WalksStayInDomain(Feed(f, rest[0]).value.form, rest[1..]);
      } else {
        var flag := Feed(f, rest[0]).value.flag;
        SuppliesStayInDomain(f, flag, rest[1]);
        WalksStayInDomain(Supply(f, flag, rest[1]).value, rest[2..]);
      }
    }
  }

  /** And nothing else is ever accepted: every value is in its flag's domain, and no two flags contradict. */
  lemma AcceptedIsSound(verb: Token, rest: seq<Token>)
    requires verb in FORMS && CommandOf(verb, rest).Ok?
    ensures Sound(CommandOf(verb, rest).value)
  {
    if !(verb == "start" && First(rest) == Some("--spec")) {
      var (form, sub) := Choose(verb, First(rest)).value;
      BlanksAreInDomain(verb, First(rest));
      hide Walk, Choose, InDomain;
      WalksStayInDomain(form, if sub then rest[1..] else rest);
      CoherenceIsChecked(Walk(form, if sub then rest[1..] else rest).value);
    }
  }

  lemma BlanksAreInDomain(verb: Token, first: Option<Token>)
    requires verb in FORMS && Choose(verb, first).Ok?
    ensures InDomain(Choose(verb, first).value.0)
  {
    hide IsUtf8;
  }

  // The same parsers in one pass over the raw tokens, stepping over global flags.

  function RawWalk(f: Form, argv: seq<Token>): Result<Form, Refusal>
    decreases |argv|
  {
    if argv == [] then Ok(f)
    else if IsGlobal(argv[0]) then RawWalk(f, argv[1..])
    else
      match Feed(f, argv[0])
      case Err(e) => Err(e)
      case Ok(Took(next)) => RawWalk(next, argv[1..])
      case Ok(Wants(flag)) =>
        if |argv| < 2 then Err(NeedsValue(flag))
        else
          match Supply(f, flag, argv[1])
          case Err(e) => Err(e)
          case Ok(next) => RawWalk(next, argv[2..])
  }

  function SkipGlobals(argv: seq<Token>): (r: seq<Token>)
    ensures r != [] ==> !IsGlobal(r[0])
  {
    if argv != [] && IsGlobal(argv[0]) then SkipGlobals(argv[1..]) else argv
  }

  function RawCommand(verb: Token, argv: seq<Token>): Result<Command, Refusal>
    requires verb in FORMS
  {
    var rest := SkipGlobals(argv);
    if verb == "start" && First(rest) == Some("--spec") then
      SpecOf(if |rest| < 2 then rest else rest[..2] + SkipGlobals(rest[2..]))
    else
      match Choose(verb, First(rest))
      case Err(e) => Err(e)
      case Ok((form, sub)) => Finished(RawWalk(form, if sub then rest[1..] else rest))
  }

  /** Where parser and lift meet. A token that takes a value by the lift's table is a flag that wants one or
      is refused, and nothing else wants one; no form takes the boundary. */
  lemma TurnsAgree(f: Form, t: Token)
    ensures TakesValue(Some(VerbOf(f)), t) ==> Feed(f, t).Err? || Feed(f, t).value.Wants?
    ensures Feed(f, t).Ok? && Feed(f, t).value.Wants? ==> TakesValue(Some(VerbOf(f)), t)
    ensures Feed(f, t).Ok? && Feed(f, t).value.Took? ==> VerbOf(Feed(f, t).value.form) == VerbOf(f)
    ensures Feed(f, "--").Err?
  {
    hide IsUtf8, U64Of;
  }

  lemma SupplyKeepsTheVerb(f: Form, flag: Token, raw: Token)
    requires HasValueFlag(f, flag) && Supply(f, flag, raw).Ok?
    ensures VerbOf(Supply(f, flag, raw).value) == VerbOf(f)
  {
    hide IsUtf8, U64Of, I64Of, Durations.Seconds;
  }

  lemma KeptOne(verb: Token, argv: seq<Token>)
    requires argv != [] && !IsGlobal(argv[0]) && !TakesValue(Some(verb), argv[0]) && argv[0] != "--"
    ensures Kept(verb, argv) == [argv[0]] + Kept(verb, argv[1..])
    ensures Kept(verb, argv)[1..] == Kept(verb, argv[1..])
  {
    hide IsGlobal, TakesValue;
  }

  lemma KeptTwo(verb: Token, argv: seq<Token>)
    requires |argv| >= 2 && !IsGlobal(argv[0]) && TakesValue(Some(verb), argv[0]) && argv[0] != "--"
    ensures Kept(verb, argv) == argv[..2] + Kept(verb, argv[2..])
    ensures Kept(verb, argv)[1] == argv[1] && Kept(verb, argv)[2..] == Kept(verb, argv[2..])
  {
    hide IsGlobal, TakesValue;
  }

  /** Lifting first and parsing after is the one pass, results and refusals alike. */
  lemma {:induction false} WalksAreOne(f: Form, argv: seq<Token>)
    ensures Walk(f, Kept(VerbOf(f), argv)) == RawWalk(f, argv)
    decreases |argv|
  {
    hide Feed, Supply, TakesValue, IsGlobal, VerbOf;
    if argv == [] {
    } else if IsGlobal(argv[0]) && argv[0] != "--" {
      WalksAreOne(f, argv[1..]);
    } else {
      NoGlobalBoundary();
      TurnsAgree(f, argv[0]);
      if argv[0] == "--" || Feed(f, argv[0]).Err? {
        KeptKeepsFirst(VerbOf(f), argv);
      } else if Feed(f, argv[0]).value.Took? {
        KeptOne(VerbOf(f), argv);
        WalksAreOne(Feed(f, argv[0]).value.form, argv[1..]);
      } else if |argv| >= 2 {
        var flag := Feed(f, argv[0]).value.flag;
        KeptTwo(VerbOf(f), argv);
        if Supply(f, flag, argv[1]).Ok? {
          SupplyKeepsTheVerb(f, flag, argv[1]);
          WalksAreOne(Supply(f, flag, argv[1]).value, argv[2..]);
        }
      }
    }
  }

  lemma NoGlobalBoundary()
    ensures !IsGlobal("--")
  {
  }

  lemma KeptKeepsFirst(verb: Token, argv: seq<Token>)
    requires argv != [] && !IsGlobal(argv[0])
    ensures Kept(verb, argv) != [] && Kept(verb, argv)[0] == argv[0]
  {
    hide IsGlobal, TakesValue;
  }

  /** Leading global flags leave nothing behind. */
  lemma {:induction false} KeptSkips(verb: Token, argv: seq<Token>)
    ensures Kept(verb, argv) == Kept(verb, SkipGlobals(argv))
    ensures First(Kept(verb, argv)) == First(SkipGlobals(argv))
  {
    hide IsGlobal, TakesValue;
    NoGlobalBoundary();
    if argv != [] && IsGlobal(argv[0]) {
      KeptSkips(verb, argv[1..]);
    } else if argv != [] {
      KeptKeepsFirst(verb, argv);
    }
  }

  /** The first token is a flag of the form it chooses, or a subcommand, which takes no value. */
  lemma ChoiceIsOfTheVerb(verb: Token, first: Option<Token>)
    requires verb in FORMS && Choose(verb, first).Ok?
    ensures VerbOf(Choose(verb, first).value.0) == verb
    ensures Choose(verb, first).value.1 ==>
              first.Some? && !TakesValue(Some(verb), first.value) && first.value != "--"
  {
  }

  /** Each of the five verbs, as one pass over the raw tokens behind it. */
  lemma TwoPassesAreOneCommand(verb: Token, argv: seq<Token>)
    requires verb in FORMS
    ensures CommandOf(verb, Kept(verb, argv)) == RawCommand(verb, argv)
  {
    hide Walk, RawWalk, Choose, TakesValue, IsGlobal, Finished;
    var rest := SkipGlobals(argv);
    KeptSkips(verb, argv);
    if verb == "start" && First(rest) == Some("--spec") {
      SpecTakesItsPath();
      if |rest| >= 2 {
        KeptTwo(verb, rest);
        KeptSkips(verb, rest[2..]);
        assert SpecOf(Kept(verb, rest)) == SpecOf(rest[..2] + SkipGlobals(rest[2..]));
      }
    } else if Choose(verb, First(rest)).Ok? {
      var (form, sub) := Choose(verb, First(rest)).value;
      ChoiceIsOfTheVerb(verb, First(rest));
      if sub {
        KeptOne(verb, rest);
        WalksAreOne(form, rest[1..]);
      } else {
        WalksAreOne(form, rest);
      }
    }
  }

  lemma SpecTakesItsPath()
    ensures TakesValue(Some("start"), "--spec")
  {
  }

  // Which tokens are values.

  function Plain(n: nat): seq<bool> {
    seq(n, _ => false)
  }

  /** The tokens a parser's loop reads as values, while it goes on. */
  function Values(f: Form, argv: seq<Token>): (r: seq<bool>)
    ensures |r| == |argv|
    decreases |argv|
  {
    if argv == [] then []
    else if IsGlobal(argv[0]) then [false] + Values(f, argv[1..])
    else
      match Feed(f, argv[0])
      case Err(_) => Plain(|argv|)
      case Ok(Took(next)) => [false] + Values(next, argv[1..])
      case Ok(Wants(flag)) =>
        if |argv| < 2 || Supply(f, flag, argv[1]).Err? then Plain(|argv|)
        else [false, true] + Values(Supply(f, flag, argv[1]).value, argv[2..])
  }

  /** The tokens a command reads as values. */
  function CommandValues(verb: Token, argv: seq<Token>): (r: seq<bool>)
    requires verb in FORMS
    ensures |r| == |argv|
  {
    if argv != [] && IsGlobal(argv[0]) then [false] + CommandValues(verb, argv[1..])
    else if verb == "start" && First(argv) == Some("--spec") then
      if |argv| < 2 then Plain(|argv|) else [false, true] + Plain(|argv| - 2)
    else
      match Choose(verb, First(argv))
      case Err(_) => Plain(|argv|)
      case Ok((form, sub)) =>
        if sub && argv != [] then [false] + Values(form, argv[1..]) else Values(form, argv)
  }

  /** The lift keeps this token unread, as a value. */
  predicate InSlot(s: Lift, argv: seq<Token>, i: nat)
    requires i <= |argv|
  {
    LiftAll(s, argv[..i]).mode == ValueSlot
  }

  /** One token on. */
  lemma InSlotAfter(s: Lift, argv: seq<Token>)
    requires argv != []
    ensures InSlot(s, argv, 0) <==> s.mode == ValueSlot
    ensures forall i: nat | 0 < i <= |argv| :: InSlot(s, argv, i) <==> InSlot(LiftStep(s, argv[0]), argv[1..], i - 1)
  {
    hide LiftStep;
    forall i: nat | 0 < i <= |argv| ensures InSlot(s, argv, i) <==> InSlot(LiftStep(s, argv[0]), argv[1..], i - 1) {
      assert argv[..i][1..] == argv[1..][..i - 1];
    }
  }

  /** The marks say of each token whether the lift keeps it as a value. */
  ghost predicate AreSlots(s: Lift, argv: seq<Token>, marks: seq<bool>) {
    |marks| == |argv| && forall i: nat | i < |argv| :: marks[i] <==> InSlot(s, argv, i)
  }

  lemma SlotsOn(s: Lift, argv: seq<Token>, marks: seq<bool>)
    requires argv != [] && s.mode != ValueSlot && AreSlots(LiftStep(s, argv[0]), argv[1..], marks)
    ensures AreSlots(s, argv, [false] + marks)
  {
    hide LiftStep, InSlot;
    InSlotAfter(s, argv);
  }

  lemma SlotsOnTwo(s: Lift, argv: seq<Token>, marks: seq<bool>)
    requires |argv| >= 2 && s.mode == Open && LiftStep(s, argv[0]).mode == ValueSlot
    requires AreSlots(LiftStep(LiftStep(s, argv[0]), argv[1]), argv[2..], marks)
    ensures AreSlots(s, argv, [false, true] + marks)
  {
    hide LiftStep, InSlot;
    var s' := LiftStep(s, argv[0]);
    InSlotAfter(s', argv[1..]);
    assert argv[1..][1..] == argv[2..];
    assert AreSlots(s', argv[1..], [true] + marks);
    InSlotAfter(s, argv);
    assert [false] + ([true] + marks) == [false, true] + marks;
  }

  lemma NoSlots(s: Lift)
    requires s.mode == Open
    ensures AreSlots(s, [], [])
  {
  }

  /** What an accepted line's loop reads as values is exactly what the lift kept as values. */
  lemma {:induction false} ValuesAreTheSlots(f: Form, s: Lift, argv: seq<Token>)
    requires RawWalk(f, argv).Ok? && s.mode == Open && s.verb == Some(VerbOf(f))
    ensures AreSlots(s, argv, Values(f, argv))
    decreases |argv|
  {
    hide Feed, Supply, TakesValue, IsGlobal, VerbOf, LiftStep, AreSlots;
    NoGlobalBoundary();
    if argv == [] {
      NoSlots(s);
    } else if IsGlobal(argv[0]) {
      GlobalStep(s, argv[0]);
      ValuesAreTheSlots(f, LiftStep(s, argv[0]), argv[1..]);
      SlotsOn(s, argv, Values(f, argv[1..]));
    } else {
      TurnsAgree(f, argv[0]);
      LocalStep(s, argv[0]);
      var s' := LiftStep(s, argv[0]);
      if Feed(f, argv[0]).value.Took? {
        var next := Feed(f, argv[0]).value.form;
        ValuesAreTheSlots(next, s', argv[1..]);
        SlotsOn(s, argv, Values(next, argv[1..]));
      } else {
        var flag := Feed(f, argv[0]).value.flag;
        SupplyKeepsTheVerb(f, flag, argv[1]);
        SlotStep(s', argv[1]);
        var next := Supply(f, flag, argv[1]).value;
        ValuesAreTheSlots(next, LiftStep(s', argv[1]), argv[2..]);
        SlotsOnTwo(s, argv, Values(next, argv[2..]));
      }
    }
  }

  lemma {:induction false} OnlyGlobalsHoldNoSlot(s: Lift, argv: seq<Token>)
    requires s.mode == Open && SkipGlobals(argv) == []
    ensures AreSlots(s, argv, Plain(|argv|))
    decreases |argv|
  {
    hide IsGlobal, LiftStep, AreSlots;
    NoGlobalBoundary();
    if argv == [] {
      NoSlots(s);
      assert Plain(0) == [];
    } else {
      GlobalStep(s, argv[0]);
      OnlyGlobalsHoldNoSlot(LiftStep(s, argv[0]), argv[1..]);
      SlotsOn(s, argv, Plain(|argv| - 1));
      assert [false] + Plain(|argv| - 1) == Plain(|argv|);
    }
  }

  lemma {:induction false} CommandValuesAreTheSlots(verb: Token, s: Lift, argv: seq<Token>)
    requires verb in FORMS && RawCommand(verb, argv).Ok? && s.mode == Open && s.verb == Some(verb)
    ensures AreSlots(s, argv, CommandValues(verb, argv))
    decreases |argv|
  {
    hide RawWalk, Values, Choose, TakesValue, IsGlobal, LiftStep, AreSlots, Concluded;
    NoGlobalBoundary();
    if argv != [] && IsGlobal(argv[0]) {
      GlobalStep(s, argv[0]);
      CommandValuesAreTheSlots(verb, LiftStep(s, argv[0]), argv[1..]);
      SlotsOn(s, argv, CommandValues(verb, argv[1..]));
    } else if verb == "start" && First(argv) == Some("--spec") {
      SpecTakesItsPath();
      LocalStep(s, argv[0]);
      var s' := LiftStep(s, argv[0]);
      SlotStep(s', argv[1]);
      OnlyGlobalsHoldNoSlot(LiftStep(s', argv[1]), argv[2..]);
      SlotsOnTwo(s, argv, Plain(|argv| - 2));
    } else {
      var (form, sub) := Choose(verb, First(argv)).value;
      ChoiceIsOfTheVerb(verb, First(argv));
      if sub {
        LocalStep(s, argv[0]);
        ValuesAreTheSlots(form, LiftStep(s, argv[0]), argv[1..]);
        SlotsOn(s, argv, Values(form, argv[1..]));
      } else {
        ValuesAreTheSlots(form, s, argv);
      }
    }
  }

  lemma FormsAreUtf8(verb: Token)
    requires verb in FORMS
    ensures IsUtf8(verb) && verb != "--"
  {
    hide IsUtf8;
    if verb == "config" { AsciiIsUtf8("config"); }
    if verb == "start" { AsciiIsUtf8("start"); }
    if verb == "stop" { AsciiIsUtf8("stop"); }
    if verb == "generations" { AsciiIsUtf8("generations"); }
    if verb == "memory" { AsciiIsUtf8("memory"); }
  }

  /** A whole line of one of these verbs: one pass over the raw tokens behind the verb decides it, and when
      it is accepted, exactly the tokens the lift kept as values are read as values. */
  lemma VerbsReadTheRawLine(argv: seq<Token>, stdinIsTty: bool) returns (k: nat)
    requires ParseOf(argv, stdinIsTty).Ok? && ParseOf(argv, stdinIsTty).value.invocation.Other?
    requires ParseOf(argv, stdinIsTty).value.invocation.name in FORMS
    ensures var verb, rest := ParseOf(argv, stdinIsTty).value.invocation.name,
                              ParseOf(argv, stdinIsTty).value.invocation.rest;
            && k < |argv| && argv[k] == verb && (forall i | 0 <= i < k :: IsGlobal(argv[i]))
            && CommandOf(verb, rest) == RawCommand(verb, argv[k + 1..])
            && (CommandOf(verb, rest).Ok? ==>
                  AreSlots(LiftAll(START, argv[..k + 1]), argv[k + 1..], CommandValues(verb, argv[k + 1..])))
  {
    hide LiftStep, LiftAll, CommandOf, RawCommand, AreSlots, IsUtf8, IsGlobal;
    var verb := ParseOf(argv, stdinIsTty).value.invocation.name;
    FormsAreUtf8(verb);
    k := VerbComesFirst(START, argv, verb);
    var s, rest := LiftAll(START, argv[..k + 1]), argv[k + 1..];
    LiftKeepsTheRest(s, rest);
    assert LiftAll(START, argv).tokens[1..] == Kept(verb, rest);
    TwoPassesAreOneCommand(verb, rest);
    if RawCommand(verb, rest).Ok? {
      CommandValuesAreTheSlots(verb, s, rest);
    }
  }

  /** On a refused line the lift can keep more: behind a flag of another form of the verb, even a request for
      help, which is to win wherever it stands. */
  lemma HelpBehindAForeignFlagIsNotHeard()
    ensures var argv := ["config", "eval", "--manifest", "--help"];
            && !LiftAll(START, argv).help
            && CommandOf("config", LiftAll(START, argv).tokens[1..]) == Err(Unknown("--manifest"))
  {
    hide LiftStep, IsUtf8;
    var argv := ["config", "eval", "--manifest", "--help"];
    FormsAreUtf8("config");
    FirstIsTheVerb(START, "config");
    HelpStep(START, "config");
    var config := LiftStep(START, "config");
    LocalStep(config, "eval");
    var eval := LiftStep(config, "eval");
    LocalStep(eval, "--manifest");
    var flag := LiftStep(eval, "--manifest");
    SlotStep(flag, "--help");
    TakeTwo(START, argv);
    TakeTwo(eval, argv[2..]);
    assert argv[2..][2..] == [];
    assert LiftAll(START, argv) == LiftStep(flag, "--help");
    assert LiftAll(START, argv).tokens == ["config", "eval", "--manifest", "--help"];
  }
}
