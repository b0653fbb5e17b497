/** The argv grammar: the lift of the global flags, and the `exec` parser that reads what it kept.

    A token is an `OsString`, given as its bytes, one `char` a byte. */
module Grammar {
  import opened Utf8
  import opened Wrappers

  type Token = string

  // ---- The lift ----

  /** Which flags of a verb take the next token as their value, whatever it spells. */
  predicate TakesValue(verb: Option<Token>, flag: Token) {
    match verb
    case Some(v) =>
      (v == "config" && flag == "--manifest")
      || (v == "start" && flag in ["--spec", "--generation"])
      || (v == "exec" && flag == "--env")
      || (v == "stop" && flag in ["-t", "--timeout"])
      || (v == "generations" && flag in ["--keep", "--older-than"])
      || (v == "memory" && flag == "--to")
    case None => false
  }

  const QUIET := ["-q", "--quiet"]
  const HELP := ["-h", "--help"]

  predicate IsVerbose(t: Token) {
    t in ["-v", "--verbose", "-vv", "-vvv"]
  }

  predicate IsGlobal(t: Token) {
    t in QUIET || IsVerbose(t) || t in HELP || t == "--version"
  }

  /** `-q` sets the level below zero, each `v` adds one from zero up, and three is the top. */
  function Bump(level: int, added: int): int {
    if level < 0 then added else if level + added > 3 then 3 else level + added
  }

  function VerboseSteps(t: Token): int {
    if t == "-vv" then 2 else if t == "-vvv" then 3 else 1
  }

  datatype Mode = Open | ValueSlot | Guest

  /** The pre-pass over a prefix of argv: what it kept, what it lifted, and how it reads the next token. */
  datatype Lift = Lift(
    tokens: seq<Token>, level: int, help: bool, version: bool, verb: Option<Token>, mode: Mode)

  const START := Lift([], 0, false, false, None, Open)

  function LiftGlobal(s: Lift, t: Token): Lift {
    if t in QUIET then s.(level := -1)
    else if IsVerbose(t) then s.(level := Bump(s.level, VerboseSteps(t)))
    else if t in HELP then s.(help := true)
    else s.(version := true)
  }

  function Keep(s: Lift, t: Token): Lift {
    var verb := if s.verb == None && IsUtf8(t) then Some(t) else s.verb;
    s.(tokens := s.tokens + [t], verb := verb, mode := if TakesValue(verb, t) then ValueSlot else Open)
  }

  function LiftStep(s: Lift, t: Token): Lift {
    if s.mode == Guest then s.(tokens := s.tokens + [t])
    else if s.mode == ValueSlot then s.(tokens := s.tokens + [t], mode := Open)
    else if t == "--" then s.(tokens := s.tokens + [t], mode := Guest)
    else if IsGlobal(t) then LiftGlobal(s, t)
    else Keep(s, t)
  }

  function LiftAll(s: Lift, argv: seq<Token>): Lift
    decreases argv
  {
    if argv == [] then s else LiftAll(LiftStep(s, argv[0]), argv[1..])
  }

  lemma {:induction false} LiftAllConcat(s: Lift, a: seq<Token>, b: seq<Token>)
    ensures LiftAll(s, a + b) == LiftAll(LiftAll(s, a), b)
    decreases a
  {
    hide LiftStep;
    if a == [] {
      assert a + b == b;
    } else {
      assert (a + b)[0] == a[0] && (a + b)[1..] == a[1..] + b;
      LiftAllConcat(LiftStep(s, a[0]), a[1..], b);
    }
  }

  lemma {:induction false} GuestTokensAreKept(s: Lift, argv: seq<Token>)
    requires s.mode == Guest
    ensures LiftAll(s, argv) == s.(tokens := s.tokens + argv)
    decreases argv
  {
    if argv == [] {
      assert s.tokens + argv == s.tokens;
    } else {
      var s' := LiftStep(s, argv[0]);
      GuestTokensAreKept(s', argv[1..]);
      assert s'.tokens + argv[1..] == s.tokens + argv;
    }
  }

  /** `lift_globals`: the loop over argv that takes a flag's value in the same turn. */
  method LiftGlobals(argv: seq<Token>) returns (globals: Lift)
    ensures globals == LiftAll(START, argv).(mode := globals.mode)
  {
    hide IsUtf8, TakesValue;
    globals := START;
    var i := 0;
    while i < |argv|
      invariant 0 <= i <= |argv|
      invariant globals.mode == Open
      invariant LiftAll(globals, argv[i..]) == LiftAll(START, argv)
    {
      var token := argv[i];
      i := i + 1;
      if token == "--" {
        globals := globals.(tokens := globals.tokens + [token], mode := Guest);
        GuestTokensAreKept(globals, argv[i..]);
        globals := globals.(tokens := globals.tokens + argv[i..]);
        return;
      } else if IsGlobal(token) {
        globals := LiftGlobal(globals, token);
      } else {
        globals := Keep(globals, token);
        if globals.mode == ValueSlot && i < |argv| {
          globals := globals.(tokens := globals.tokens + [argv[i]], mode := Open);
          i := i + 1;
        } else if globals.mode == ValueSlot {
          return;
        }
      }
    }
  }

  // ---- exec ----

  datatype Session = Session(argv: seq<Token>, pty: bool, env: seq<(Token, Option<Token>)>)

  datatype UsageError =
    | NoCommand
    | UnknownCommand(verb: Token)
    | UnknownOption(token: Token)
    | EnvNeedsValue
    | EnvNeedsName
    | TtyContradiction
    | NotATerminal
    | NeedsSeparator
    | NeedsGuestCommand

  function IndexOf(t: Token, c: char): Option<nat> {
    if t == [] then None
    else if t[0] == c then Some(0)
    else match IndexOf(t[1..], c)
      case Some(i) => Some(i + 1)
      case None => None
  }

  lemma {:induction false} IndexOfIsFirst(t: Token, c: char)
    ensures match IndexOf(t, c)
            case Some(i) => i < |t| && t[i] == c && c !in t[..i]
            case None => c !in t
  {
    if t != [] && t[0] != c {
      IndexOfIsFirst(t[1..], c);
      if IndexOf(t[1..], c).Some? {
        var i := IndexOf(t[1..], c).value;
        assert t[..i + 1] == [t[0]] + t[1..][..i];
      } else {
        assert t == [t[0]] + t[1..];
      }
    }
  }

  /** `KEY` or `KEY=VAL`, split at the first `=` of the raw bytes. */
  function EnvAssignment(t: Token): Result<(Token, Option<Token>), UsageError> {
    IndexOfIsFirst(t, '=');
    match IndexOf(t, '=')
    case Some(split) =>
      if split == 0 then Err(EnvNeedsName) else Ok((t[..split], Some(t[split + 1..])))
    case None => if t == [] then Err(EnvNeedsName) else Ok((t, None))
  }

  function Operand(name: Token, value: Option<Token>): Token {
    match value
    case Some(v) => name + "=" + v
    case None => name
  }

  /** An operand is read as the one assignment that spells it, with a non-empty name that holds no `=`. */
  lemma EnvAssignmentIsExact(t: Token, name: Token, value: Option<Token>)
    ensures EnvAssignment(t) == Ok((name, value)) <==>
      (name != [] && '=' !in name && t == Operand(name, value))
  {
    IndexOfIsFirst(t, '=');
    if name != [] && '=' !in name && t == Operand(name, value) && value.Some? {
      assert t[|name|] == '=';
      var i := IndexOf(t, '=').value;
      assert forall j | 0 <= j < |name| :: t[j] == name[j];
      assert forall j | 0 <= j < i :: t[j] == t[..i][j];
      assert t[..i] == name && t[i + 1..] == value.value;
    }
    if IndexOf(t, '=').Some? {
      var i := IndexOf(t, '=').value;
      assert t == t[..i] + "=" + t[i + 1..];
    }
  }

  datatype Scan = Scan(tty: bool, noTty: bool, env: seq<(Token, Option<Token>)>)

  /** The walk up to the first `--` that is not an operand: what was asked, and the guest's argv if it came. */
  function ScanTokens(rest: seq<Token>, acc: Scan): Result<(Scan, Option<seq<Token>>), UsageError> {
    if rest == [] then Ok((acc, None))
    else if rest[0] == "--" then Ok((acc, Some(rest[1..])))
    else if rest[0] in ["-t", "--tty"] then ScanTokens(rest[1..], acc.(tty := true))
    else if rest[0] in ["-T", "--no-tty"] then ScanTokens(rest[1..], acc.(noTty := true))
    else if rest[0] == "--env" then
      if |rest| < 2 then Err(EnvNeedsValue)
      else match EnvAssignment(rest[1])
        case Ok(assignment) => ScanTokens(rest[2..], acc.(env := acc.env + [assignment]))
        case Err(e) => Err(e)
    else Err(UnknownOption(rest[0]))
  }

  /** The checks after the walk, in the order they are made. */
  function Conclude(scan: Scan, argv: Option<seq<Token>>, stdinIsTty: bool): Result<Session, UsageError> {
    if scan.tty && scan.noTty then Err(TtyContradiction)
    else if scan.tty && !stdinIsTty then Err(NotATerminal)
    else match argv
      case None => Err(NeedsSeparator)
      case Some(guest) => if guest == [] then Err(NeedsGuestCommand) else Ok(Session(guest, scan.tty, scan.env))
  }

  /** When each check refuses: the contradiction first, then the terminal, the boundary and the command. */
  lemma ConclusionsExactly(scan: Scan, argv: Option<seq<Token>>, stdinIsTty: bool)
    ensures var r := Conclude(scan, argv, stdinIsTty);
            var terminal := scan.tty ==> !scan.noTty && stdinIsTty;
            && (r == Err(TtyContradiction) <==> scan.tty && scan.noTty)
            && (r == Err(NotATerminal) <==> scan.tty && !scan.noTty && !stdinIsTty)
            && (r == Err(NeedsSeparator) <==> terminal && argv == None)
            && (r == Err(NeedsGuestCommand) <==> terminal && argv == Some([]))
            && (r.Ok? <==> terminal && argv.Some? && argv.value != [])
  {
  }

  /** And when an operand does: there is none, or it has no name. */
  lemma OperandRefusalsExactly(rest: seq<Token>, acc: Scan)
    requires rest != [] && rest[0] == "--env"
    ensures |rest| == 1 ==> ScanTokens(rest, acc) == Err(EnvNeedsValue)
    ensures |rest| > 1 && (rest[1] == [] || rest[1][0] == '=') ==> ScanTokens(rest, acc) == Err(EnvNeedsName)
    ensures |rest| > 1 && rest[1] != [] && rest[1][0] != '=' ==> EnvAssignment(rest[1]).Ok?
  {
    if |rest| > 1 { IndexOfIsFirst(rest[1], '='); }
  }

  function ExecOf(rest: seq<Token>, stdinIsTty: bool): Result<Session, UsageError> {
    match ScanTokens(rest, Scan(false, false, []))
    case Err(e) => Err(e)
    case Ok((scan, argv)) => Conclude(scan, argv, stdinIsTty)
  }

  method Exec(rest: seq<Token>, stdinIsTty: bool) returns (r: Result<Session, UsageError>)
    ensures r == ExecOf(rest, stdinIsTty)
  {
    hide EnvAssignment;
    var tty, noTty := false, false;
    var env: seq<(Token, Option<Token>)> := [];
    var separator: Option<nat> := None;
    var index := 0;
    while index < |rest| && separator == None
      invariant 0 <= index <= |rest|
      invariant separator.Some? ==> separator.value == index < |rest| && rest[index] == "--"
      invariant ScanTokens(rest[index..], Scan(tty, noTty, env)) == ScanTokens(rest, Scan(false, false, []))
      decreases |rest| - index, if separator == None then 1 else 0
    {
      var token := rest[index];
      if token == "--" {
        separator := Some(index);
      } else {
        if token in ["-t", "--tty"] {
          tty := true;
        } else if token in ["-T", "--no-tty"] {
          noTty := true;
        } else if token == "--env" {
          if index + 1 >= |rest| {
            return Err(EnvNeedsValue);
          }
          assert rest[index..][1] == rest[index + 1] && rest[index..][2..] == rest[index + 2..];
          match EnvAssignment(rest[index + 1]) {
            case Ok(assignment) => env := env + [assignment];
            case Err(e) => return Err(e);
          }
          index := index + 1;
        } else {
          return Err(UnknownOption(token));
        }
        index := index + 1;
      }
    }
    if tty && noTty {
      return Err(TtyContradiction);
    }
    if tty && !stdinIsTty {
      return Err(NotATerminal);
    }
    if separator == None {
      return Err(NeedsSeparator);
    }
    var argv := rest[separator.value + 1..];
    if argv == [] {
      return Err(NeedsGuestCommand);
    }
    r := Ok(Session(argv, tty, env));
  }

  // ---- The whole invocation ----

  const VERBS := ["config", "manifest", "start", "status", "shell", "exec", "stop", "trim", "memory", "volume",
                  "generations", "destroy", "gc", "update", "doctor"]

  datatype Verbosity = Quiet | Normal | Verbose | Debug | Trace

  function VerbosityOf(level: int): Verbosity {
    if level < 0 then Quiet else if level == 0 then Normal else if level == 1 then Verbose
    else if level == 2 then Debug else Trace
  }

  /** The parsers of the other verbs stand as the tokens they are handed. */
  datatype Invocation =
    | Help(verb: Option<Token>)
    | Version
    | Execute(session: Session)
    | Other(name: Token, rest: seq<Token>)

  datatype Parsed = Parsed(invocation: Invocation, verbosity: Verbosity)

  function Dispatch(globals: Lift, stdinIsTty: bool): Result<Parsed, UsageError> {
    var verbosity := VerbosityOf(globals.level);
    if globals.help then Ok(Parsed(Help(globals.verb), verbosity))
    else if globals.version then Ok(Parsed(Version, verbosity))
    else if globals.tokens == [] then Err(NoCommand)
    else
      var verb, rest := globals.tokens[0], globals.tokens[1..];
      if verb == "exec" then
        match ExecOf(rest, stdinIsTty)
        case Ok(session) => Ok(Parsed(Execute(session), verbosity))
        case Err(e) => Err(e)
      else if verb in VERBS then Ok(Parsed(Other(verb, rest), verbosity))
      else Err(UnknownCommand(verb))
  }

  /** `parse`, from the arguments after the program name. */
  function ParseOf(argv: seq<Token>, stdinIsTty: bool): Result<Parsed, UsageError> {
    Dispatch(LiftAll(START, argv), stdinIsTty)
  }

  method Parse(argv: seq<Token>, stdinIsTty: bool) returns (r: Result<Parsed, UsageError>)
    ensures r == ParseOf(argv, stdinIsTty)
  {
    hide ExecOf, LiftAll;
    var globals := LiftGlobals(argv);
    var verbosity := VerbosityOf(globals.level);
    if globals.help {
      return Ok(Parsed(Help(globals.verb), verbosity));
    }
    if globals.version {
      return Ok(Parsed(Version, verbosity));
    }
    if globals.tokens == [] {
      return Err(NoCommand);
    }
    var verb, rest := globals.tokens[0], globals.tokens[1..];
    if verb == "exec" {
      var session := Exec(rest, stdinIsTty);
      match session {
        case Ok(s) => return Ok(Parsed(Execute(s), verbosity));
        case Err(e) => return Err(e);
      }
    } else if verb in VERBS {
      return Ok(Parsed(Other(verb, rest), verbosity));
    }
    r := Err(UnknownCommand(verb));
  }

  // ---- The two passes agree ----

  /** The tokens after the first `--` that is not an `--env` operand. */
  function AfterBoundary(argv: seq<Token>): Option<seq<Token>> {
    if argv == [] then None
    else if argv[0] == "--" then Some(argv[1..])
    else if argv[0] == "--env" then (if |argv| < 2 then None else AfterBoundary(argv[2..]))
    else AfterBoundary(argv[1..])
  }

  /** `exec` in one pass over the raw tokens: the same walk, stepping over global flags. */
  function ScanRaw(argv: seq<Token>, acc: Scan): Result<(Scan, Option<seq<Token>>), UsageError> {
    if argv == [] then Ok((acc, None))
    else if argv[0] == "--" then Ok((acc, Some(argv[1..])))
    else if IsGlobal(argv[0]) then ScanRaw(argv[1..], acc)
    else if argv[0] in ["-t", "--tty"] then ScanRaw(argv[1..], acc.(tty := true))
    else if argv[0] in ["-T", "--no-tty"] then ScanRaw(argv[1..], acc.(noTty := true))
    else if argv[0] == "--env" then
      if |argv| < 2 then Err(EnvNeedsValue)
      else match EnvAssignment(argv[1])
        case Ok(assignment) => ScanRaw(argv[2..], acc.(env := acc.env + [assignment]))
        case Err(e) => Err(e)
    else Err(UnknownOption(argv[0]))
  }

  /** What the lift keeps of a line after its verb. */
  function Kept(verb: Token, argv: seq<Token>): seq<Token> {
    if argv == [] then []
    else if argv[0] == "--" then argv
    else if IsGlobal(argv[0]) then Kept(verb, argv[1..])
    else if TakesValue(Some(verb), argv[0]) then
      if |argv| < 2 then argv else argv[..2] + Kept(verb, argv[2..])
    else [argv[0]] + Kept(verb, argv[1..])
  }

  lemma LocalStep(s: Lift, t: Token)
    requires s.mode == Open && s.verb.Some? && t != "--" && !IsGlobal(t)
    ensures LiftStep(s, t)
         == s.(tokens := s.tokens + [t], mode := if TakesValue(s.verb, t) then ValueSlot else Open)
  {
  }

  lemma ExecTakesEnv(t: Token)
    ensures TakesValue(Some("exec"), t) <==> t == "--env"
  {
  }

  lemma GlobalStep(s: Lift, t: Token)
    requires s.mode == Open && t != "--" && IsGlobal(t)
    ensures LiftStep(s, t).tokens == s.tokens && LiftStep(s, t).verb == s.verb && LiftStep(s, t).mode == Open
  {
  }

  lemma TakeTwo(s: Lift, argv: seq<Token>)
    requires |argv| >= 2
    ensures LiftAll(s, argv) == LiftAll(LiftStep(LiftStep(s, argv[0]), argv[1]), argv[2..])
  {
    hide LiftStep;
    assert argv[1..][1..] == argv[2..];
  }

  lemma {:induction false} LiftKeepsTheRest(s: Lift, argv: seq<Token>)
    requires s.mode == Open && s.verb.Some?
    ensures LiftAll(s, argv).tokens == s.tokens + Kept(s.verb.value, argv)
    ensures LiftAll(s, argv).verb == s.verb
    decreases |argv|
  {
    hide LiftStep, IsGlobal, TakesValue;
    if argv == [] {
      assert s.tokens + [] == s.tokens;
    } else {
      var verb, t := s.verb.value, argv[0];
      var s' := LiftStep(s, t);
      if t == "--" {
        BoundaryStep(s);
        GuestTokensAreKept(s', argv[1..]);
        assert s'.tokens + argv[1..] == s.tokens + argv;
      } else if IsGlobal(t) {
        GlobalStep(s, t);
        LiftKeepsTheRest(s', argv[1..]);
      } else {
        LocalStep(s, t);
        if !TakesValue(s.verb, t) {
          LiftKeepsTheRest(s', argv[1..]);
          assert s'.tokens + Kept(verb, argv[1..]) == s.tokens + ([t] + Kept(verb, argv[1..]));
        } else if |argv| >= 2 {
          var s'' := LiftStep(s', argv[1]);
          SlotStep(s', argv[1]);
          TakeTwo(s, argv);
          LiftKeepsTheRest(s'', argv[2..]);
          assert s''.tokens + Kept(verb, argv[2..]) == s.tokens + (argv[..2] + Kept(verb, argv[2..]));
        } else {
          assert argv[1..] == [] && argv == [t];
        }
      }
    }
  }

  lemma BoundaryStep(s: Lift)
    requires s.mode == Open
    ensures LiftStep(s, "--") == s.(tokens := s.tokens + ["--"], mode := Guest)
  {
  }

  /** Only a flag of a known verb opens a value slot: before the verb, or without one, nothing does. */
  lemma OnlyFlagsOpenSlots(s: Lift, t: Token)
    requires s.mode == Open && LiftStep(s, t).mode == ValueSlot
    ensures s.verb.Some? && s.verb.value in {"config", "start", "exec", "stop", "generations", "memory"}
  {
    hide IsUtf8;
  }

  lemma SlotStep(s: Lift, t: Token)
    requires s.mode == ValueSlot
    ensures LiftStep(s, t) == s.(tokens := s.tokens + [t], mode := Open)
  {
  }

  /** Lifting first and scanning after is the one-pass scan: results, operands and errors alike. */
  lemma {:induction false} TwoPassesAreOne(argv: seq<Token>, acc: Scan)
    ensures ScanTokens(Kept("exec", argv), acc) == ScanRaw(argv, acc)
    decreases |argv|
  {
    hide EnvAssignment, TakesValue;
    forall t: Token ensures TakesValue(Some("exec"), t) <==> t == "--env" { ExecTakesEnv(t); }
    if argv != [] && argv[0] != "--" {
      if IsGlobal(argv[0]) {
        TwoPassesAreOne(argv[1..], acc);
      } else if argv[0] == "--env" {
        if |argv| >= 2 {
          var kept := Kept("exec", argv[2..]);
          assert Kept("exec", argv) == argv[..2] + kept;
          assert Kept("exec", argv)[0] == "--env" && Kept("exec", argv)[1] == argv[1];
          assert Kept("exec", argv)[2..] == kept;
          match EnvAssignment(argv[1]) {
            case Ok(a) => TwoPassesAreOne(argv[2..], acc.(env := acc.env + [a]));
            case Err(_) =>
          }
        }
      } else {
        assert Kept("exec", argv)[0] == argv[0] && Kept("exec", argv)[1..] == Kept("exec", argv[1..]);
        TwoPassesAreOne(argv[1..], acc.(tty := true));
        TwoPassesAreOne(argv[1..], acc.(noTty := true));
      }
    }
  }

  lemma {:induction false} ScanStopsAtTheBoundary(argv: seq<Token>, acc: Scan)
    requires ScanRaw(argv, acc).Ok?
    ensures ScanRaw(argv, acc).value.1 == AfterBoundary(argv)
    decreases |argv|
  {
    hide EnvAssignment;
    if argv != [] && argv[0] != "--" {
      if IsGlobal(argv[0]) {
        ScanStopsAtTheBoundary(argv[1..], acc);
      } else if argv[0] in ["-t", "--tty"] {
        ScanStopsAtTheBoundary(argv[1..], acc.(tty := true));
      } else if argv[0] in ["-T", "--no-tty"] {
        ScanStopsAtTheBoundary(argv[1..], acc.(noTty := true));
      } else {
        ScanStopsAtTheBoundary(argv[2..], acc.(env := acc.env + [EnvAssignment(argv[1]).value]));
      }
    }
  }

  lemma FirstIsTheVerb(s: Lift, t: Token)
    requires s.mode == Open && s.tokens == [] && s.verb == None && t != "--" && !IsGlobal(t)
    ensures var s' := LiftStep(s, t); s'.tokens == [t] && (IsUtf8(t) ==> s'.mode == Open && s'.verb == Some(t))
  {
    hide IsUtf8;
  }

  /** Until the verb, a line holds only global flags. */
  lemma {:induction false} VerbComesFirst(s: Lift, argv: seq<Token>, verb: Token) returns (k: nat)
    requires s.mode == Open && s.tokens == [] && s.verb == None && IsUtf8(verb) && verb != "--"
    requires LiftAll(s, argv).tokens != [] && LiftAll(s, argv).tokens[0] == verb
    ensures k < |argv| && argv[k] == verb && forall i | 0 <= i < k :: IsGlobal(argv[i])
    ensures LiftAll(s, argv) == LiftAll(LiftAll(s, argv[..k + 1]), argv[k + 1..])
    ensures var s' := LiftAll(s, argv[..k + 1]); s'.mode == Open && s'.verb == Some(verb) && s'.tokens == [verb]
    decreases |argv|
  {
    hide IsUtf8, TakesValue, LiftGlobal, IsGlobal, Keep;
    var t := argv[0];
    var s' := LiftStep(s, t);
    if t == "--" {
      GuestTokensAreKept(s', argv[1..]);
      assert false;
    } else if IsGlobal(t) {
      GlobalStep(s, t);
      k := VerbComesFirst(s', argv[1..], verb);
      assert argv[..k + 2] == [t] + argv[1..][..k + 1];
      assert argv[1..][k + 1..] == argv[k + 2..];
      k := k + 1;
    } else {
      k := 0;
      FirstIsTheVerb(s, t);
      LiftGrows(s', argv[1..]);
      assert argv[..1] == [t] && argv[..1][1..] == [];
      assert LiftAll(s, argv[..1]) == s';
    }
  }

  lemma {:induction false} LiftGrows(s: Lift, argv: seq<Token>)
    ensures s.tokens <= LiftAll(s, argv).tokens
    decreases argv
  {
    hide IsUtf8, TakesValue;
    if argv != [] { LiftGrows(LiftStep(s, argv[0]), argv[1..]); }
  }

  /** Global flags hold no boundary, so the boundary of the line is the boundary after the verb. */
  lemma {:induction false} BoundaryAfterVerb(argv: seq<Token>, k: nat)
    requires k < |argv| && argv[k] == "exec" && forall i | 0 <= i < k :: IsGlobal(argv[i])
    ensures AfterBoundary(argv) == AfterBoundary(argv[k + 1..])
  {
    if k > 0 {
      assert IsGlobal(argv[0]);
      BoundaryAfterVerb(argv[1..], k - 1);
      assert argv[1..][k..] == argv[k + 1..];
    }
  }

  /** `exec` on the raw line: one pass from the token after the verb decides session and error. */
  lemma ExecReadsTheRawLine(argv: seq<Token>, stdinIsTty: bool) returns (k: nat)
    requires LiftAll(START, argv).tokens != [] && LiftAll(START, argv).tokens[0] == "exec"
    ensures k < |argv| && argv[k] == "exec" && forall i | 0 <= i < k :: IsGlobal(argv[i])
    ensures ExecOf(LiftAll(START, argv).tokens[1..], stdinIsTty) ==
            match ScanRaw(argv[k + 1..], Scan(false, false, []))
            case Err(e) => Err(e)
            case Ok((scan, guest)) => Conclude(scan, guest, stdinIsTty)
  {
    hide LiftStep;
    assert IsUtf8("exec");
    k := VerbComesFirst(START, argv, "exec");
    var rest := argv[k + 1..];
    LiftKeepsTheRest(LiftAll(START, argv[..k + 1]), rest);
    assert LiftAll(START, argv).tokens[1..] == Kept("exec", rest);
    TwoPassesAreOne(rest, Scan(false, false, []));
  }

  /** A parsed `exec` runs, byte for byte, the raw tokens after the first `--` that is no `--env` operand. */
  lemma GuestArgvIsVerbatim(argv: seq<Token>, stdinIsTty: bool)
    requires ParseOf(argv, stdinIsTty).Ok? && ParseOf(argv, stdinIsTty).value.invocation.Execute?
    ensures AfterBoundary(argv) == Some(ParseOf(argv, stdinIsTty).value.invocation.session.argv)
    ensures ParseOf(argv, stdinIsTty).value.invocation.session.argv != []
  {
    hide LiftAll, ScanRaw, AfterBoundary;
    var k := ExecReadsTheRawLine(argv, stdinIsTty);
    var rest := argv[k + 1..];
    ScanStopsAtTheBoundary(rest, Scan(false, false, []));
    BoundaryAfterVerb(argv, k);
  }

  // ---- What a session is read from ----

  /** The `--env` operands before the boundary, in order. */
  function Operands(argv: seq<Token>): seq<Token> {
    if argv == [] || argv[0] == "--" then []
    else if argv[0] == "--env" then (if |argv| < 2 then [] else [argv[1]] + Operands(argv[2..]))
    else Operands(argv[1..])
  }

  /** The tokens before the boundary that are not operands. */
  function Outside(argv: seq<Token>): seq<Token> {
    if argv == [] || argv[0] == "--" then []
    else if argv[0] == "--env" then (if |argv| < 2 then [] else Outside(argv[2..]))
    else [argv[0]] + Outside(argv[1..])
  }

  /** These operands spell this environment, each a valid name with or without a value. */
  ghost predicate Spells(operands: seq<Token>, env: seq<(Token, Option<Token>)>) {
    |operands| == |env|
    && forall i | 0 <= i < |env| ::
         env[i].0 != [] && '=' !in env[i].0 && operands[i] == Operand(env[i].0, env[i].1)
  }

  lemma {:induction false} ScanReadsTheLine(argv: seq<Token>, acc: Scan, read: seq<Token>)
    requires ScanRaw(argv, acc).Ok? && Spells(read, acc.env)
    ensures var scan := ScanRaw(argv, acc).value.0;
            && Spells(read + Operands(argv), scan.env)
            && (scan.tty <==> acc.tty || "-t" in Outside(argv) || "--tty" in Outside(argv))
            && (scan.noTty <==> acc.noTty || "-T" in Outside(argv) || "--no-tty" in Outside(argv))
    decreases |argv|
  {
    hide EnvAssignment;
    if argv == [] || argv[0] == "--" {
      assert read + Operands(argv) == read;
    } else if IsGlobal(argv[0]) {
      ScanReadsTheLine(argv[1..], acc, read);
    } else if argv[0] in ["-t", "--tty"] {
      ScanReadsTheLine(argv[1..], acc.(tty := true), read);
    } else if argv[0] in ["-T", "--no-tty"] {
      ScanReadsTheLine(argv[1..], acc.(noTty := true), read);
    } else {
      var a := EnvAssignment(argv[1]).value;
      EnvAssignmentIsExact(argv[1], a.0, a.1);
      ScanReadsTheLine(argv[2..], acc.(env := acc.env + [a]), read + [argv[1]]);
      assert read + [argv[1]] + Operands(argv[2..]) == read + Operands(argv);
    }
  }

  /** Ahead of the verb there are only global flags, which are neither operands nor flags of `exec`. */
  lemma {:induction false} LineAfterVerb(argv: seq<Token>, k: nat)
    requires k < |argv| && argv[k] == "exec" && forall i | 0 <= i < k :: IsGlobal(argv[i])
    ensures Operands(argv) == Operands(argv[k + 1..])
    ensures forall t | t in ["-t", "--tty", "-T", "--no-tty"] :: t in Outside(argv) <==> t in Outside(argv[k + 1..])
  {
    if k > 0 {
      assert IsGlobal(argv[0]);
      LineAfterVerb(argv[1..], k - 1);
      assert argv[1..][k..] == argv[k + 1..];
    }
  }

  /** A parsed session sets, in order, what the operands before the boundary spell, and allocates a terminal
      exactly when a `-t` or `--tty` stands outside them; then stdin is one and no `-T` contradicts it. */
  lemma SessionIsWhatTheLineSays(argv: seq<Token>, stdinIsTty: bool)
    requires ParseOf(argv, stdinIsTty).Ok? && ParseOf(argv, stdinIsTty).value.invocation.Execute?
    ensures var session := ParseOf(argv, stdinIsTty).value.invocation.session;
            && Spells(Operands(argv), session.env)
            && (session.pty <==> "-t" in Outside(argv) || "--tty" in Outside(argv))
            && (session.pty ==> stdinIsTty && "-T" !in Outside(argv) && "--no-tty" !in Outside(argv))
  {
    hide LiftAll, ScanRaw, Operands, Outside;
    var k := ExecReadsTheRawLine(argv, stdinIsTty);
    ScanReadsTheLine(argv[k + 1..], Scan(false, false, []), []);
    LineAfterVerb(argv, k);
    assert [] + Operands(argv) == Operands(argv);
  }

  /** The line that asks for a session: `-t` for a terminal, one `--env` an assignment, and the guest's argv
      behind the boundary. */
  function ExecLine(s: Session): seq<Token> {
    (if s.pty then ["-t"] else []) + (EnvLine(s.env) + (["--"] + s.argv))
  }

  function EnvLine(env: seq<(Token, Option<Token>)>): seq<Token> {
    if env == [] then [] else ["--env", Operand(env[0].0, env[0].1)] + EnvLine(env[1..])
  }

  ghost predicate ValidNames(env: seq<(Token, Option<Token>)>) {
    forall i | 0 <= i < |env| :: env[i].0 != [] && '=' !in env[i].0
  }

  lemma ScanOfOne(name: Token, value: Option<Token>, acc: Scan, rest: seq<Token>)
    requires name != [] && '=' !in name
    ensures ScanTokens(["--env", Operand(name, value)] + rest, acc)
         == ScanTokens(rest, acc.(env := acc.env + [(name, value)]))
  {
    var operand := Operand(name, value);
    EnvAssignmentIsExact(operand, name, value);
    hide EnvAssignment, Operand;
    assert (["--env", operand] + rest)[2..] == rest;
  }

  lemma {:induction false} ScanOfEnvLine(env: seq<(Token, Option<Token>)>, acc: Scan, rest: seq<Token>)
    requires ValidNames(env)
    ensures ScanTokens(EnvLine(env) + rest, acc) == ScanTokens(rest, acc.(env := acc.env + env))
    decreases env
  {
    hide ScanTokens, Operand;
    if env == [] {
      assert EnvLine(env) + rest == rest && acc.env + env == acc.env;
    } else {
      var later := EnvLine(env[1..]) + rest;
      assert EnvLine(env) + rest == ["--env", Operand(env[0].0, env[0].1)] + later;
      ScanOfOne(env[0].0, env[0].1, acc, later);
      ScanOfEnvLine(env[1..], acc.(env := acc.env + [env[0]]), rest);
      assert acc.env + [env[0]] + env[1..] == acc.env + env;
    }
  }

  lemma {:induction false} LiftOfEnvLine(env: seq<(Token, Option<Token>)>, s: Lift, rest: seq<Token>)
    requires s.mode == Open && s.verb == Some("exec")
    ensures LiftAll(s, EnvLine(env) + rest) == LiftAll(s.(tokens := s.tokens + EnvLine(env)), rest)
    decreases env
  {
    hide LiftStep, TakesValue;
    if env == [] {
      assert EnvLine(env) + rest == rest && s.tokens + EnvLine(env) == s.tokens;
    } else {
      var line := EnvLine(env) + rest;
      assert line[2..] == EnvLine(env[1..]) + rest;
      ExecTakesEnv("--env");
      LocalStep(s, "--env");
      var s' := LiftStep(s, "--env");
      SlotStep(s', line[1]);
      TakeTwo(s, line);
      LiftOfEnvLine(env[1..], LiftStep(s', line[1]), rest);
      assert LiftStep(s', line[1]).tokens + EnvLine(env[1..]) == s.tokens + EnvLine(env);
    }
  }

  lemma ExecOfItsLine(s: Session, stdinIsTty: bool)
    requires s.argv != [] && ValidNames(s.env) && (s.pty ==> stdinIsTty)
    ensures ExecOf(ExecLine(s), stdinIsTty) == Ok(s)
  {
    var tail := EnvLine(s.env) + (["--"] + s.argv);
    assert s.pty ==> ExecLine(s)[0] == "-t" && ExecLine(s)[1..] == tail;
    assert !s.pty ==> ExecLine(s) == tail;
    ScanOfEnvLine(s.env, Scan(s.pty, false, []), ["--"] + s.argv);
    assert [] + s.env == s.env && (["--"] + s.argv)[1..] == s.argv;
  }

  /** The lift behind the verb of an `exec` line. */
  function Behind(tokens: seq<Token>, mode: Mode): Lift {
    Lift(tokens, 0, false, false, Some("exec"), mode)
  }

  lemma LiftOfVerb(line: seq<Token>)
    ensures LiftAll(START, ["exec"] + line) == LiftAll(Behind(["exec"], Open), line)
  {
    assert IsUtf8("exec");
    assert [] + ["exec"] == ["exec"];
    assert LiftStep(START, "exec") == Behind(["exec"], Open);
    assert (["exec"] + line)[1..] == line;
  }

  lemma LiftOfTail(tokens: seq<Token>, s: Session)
    ensures LiftAll(Behind(tokens, Open), EnvLine(s.env) + (["--"] + s.argv))
         == Behind(tokens + (EnvLine(s.env) + (["--"] + s.argv)), Guest)
  {
    hide LiftStep, TakesValue;
    LiftOfEnvLine(s.env, Behind(tokens, Open), ["--"] + s.argv);
    var ready := Behind(tokens + EnvLine(s.env), Open);
    assert (["--"] + s.argv)[1..] == s.argv;
    BoundaryStep(ready);
    GuestTokensAreKept(LiftStep(ready, "--"), s.argv);
    assert tokens + EnvLine(s.env) + ["--"] + s.argv == tokens + (EnvLine(s.env) + (["--"] + s.argv));
  }

  lemma LiftOfTerminal(tail: seq<Token>)
    ensures LiftAll(Behind(["exec"], Open), ["-t"] + tail) == LiftAll(Behind(["exec", "-t"], Open), tail)
  {
    hide LiftStep, TakesValue;
    ExecTakesEnv("-t");
    LocalStep(Behind(["exec"], Open), "-t");
    assert ["exec"] + ["-t"] == ["exec", "-t"] && (["-t"] + tail)[1..] == tail;
  }

  lemma LiftOfItsLine(s: Session)
    ensures LiftAll(START, ["exec"] + ExecLine(s)) == Behind(["exec"] + ExecLine(s), Guest)
  {
    hide LiftAll, EnvLine;
    var tail := EnvLine(s.env) + (["--"] + s.argv);
    LiftOfVerb(ExecLine(s));
    if s.pty {
      LiftOfTerminal(tail);
      LiftOfTail(["exec", "-t"], s);
      assert ["exec", "-t"] + tail == ["exec"] + ExecLine(s);
    } else {
      assert ExecLine(s) == tail;
      LiftOfTail(["exec"], s);
    }
  }

  /** Every session that can be asked for has a line that is parsed as exactly it. */
  lemma SessionIsReadBack(s: Session, stdinIsTty: bool)
    requires s.argv != [] && ValidNames(s.env) && (s.pty ==> stdinIsTty)
    ensures ParseOf(["exec"] + ExecLine(s), stdinIsTty) == Ok(Parsed(Execute(s), Normal))
  {
    hide LiftAll, ExecOf, ExecLine;
    LiftOfItsLine(s);
    ExecOfItsLine(s, stdinIsTty);
    assert (["exec"] + ExecLine(s))[1..] == ExecLine(s);
  }

  /** Past the boundary nothing is lifted: the guest's tokens move no level and ask for no help. */
  lemma GuestTailIsInert(before: seq<Token>, guest: seq<Token>)
    requires LiftAll(START, before).mode == Open
    ensures LiftAll(START, before + ["--"] + guest)
         == LiftAll(START, before).(tokens := LiftAll(START, before).tokens + ["--"] + guest, mode := Guest)
  {
    var s := LiftAll(START, before);
    assert before + ["--"] + guest == before + (["--"] + guest);
    LiftAllConcat(START, before, ["--"] + guest);
    assert (["--"] + guest)[1..] == guest;
    GuestTokensAreKept(LiftStep(s, "--"), guest);
  }

  /** A request for help is heard wherever it stands outside value slots and before the boundary, and
      nowhere else. */
  lemma {:induction false} HelpIsHeardExactlyOutsideSlots(s: Lift, argv: seq<Token>)
    ensures LiftAll(s, argv).help <==>
              s.help || exists i: nat :: i < |argv| && argv[i] in HELP && LiftAll(s, argv[..i]).mode == Open
    decreases |argv|
  {
    if argv != [] {
      var s' := LiftStep(s, argv[0]);
      HelpIsHeardExactlyOutsideSlots(s', argv[1..]);
      HelpStep(s, argv[0]);
      hide LiftStep;
      assert forall i: nat | 0 < i <= |argv| :: argv[..i][0] == argv[0] && argv[..i][1..] == argv[1..][..i - 1];
      assert forall i: nat | i < |argv| - 1 ::
          argv[1..][i] == argv[i + 1] && argv[..i + 1][1..] == argv[1..][..i];
      assert argv[..0] == [];
    }
  }

  lemma HelpStep(s: Lift, t: Token)
    ensures LiftStep(s, t).help <==> s.help || (t in HELP && s.mode == Open)
  {
    hide IsUtf8, TakesValue;
  }

  /** A request for help wins over everything and one for the version over everything but that, wherever they
      stand outside value slots and before the boundary. */
  lemma AskingWins(argv: seq<Token>, stdinIsTty: bool)
    ensures var r := ParseOf(argv, stdinIsTty);
            var help := exists i: nat ::
              i < |argv| && argv[i] in {"-h", "--help"} && LiftAll(START, argv[..i]).mode == Open;
            var version := exists i: nat ::
              i < |argv| && argv[i] == "--version" && LiftAll(START, argv[..i]).mode == Open;
            && (help <==> r.Ok? && r.value.invocation.Help?)
            && (!help && version <==> r.Ok? && r.value.invocation.Version?)
  {
    hide LiftAll, ExecOf;
    HelpIsHeardExactlyOutsideSlots(START, argv);
    VersionIsHeardExactlyOutsideSlots(START, argv);
  }

  lemma {:induction false} VersionIsHeardExactlyOutsideSlots(s: Lift, argv: seq<Token>)
    ensures LiftAll(s, argv).version <==>
              s.version || exists i: nat :: i < |argv| && argv[i] == "--version" && LiftAll(s, argv[..i]).mode == Open
    decreases |argv|
  {
    if argv != [] {
      VersionIsHeardExactlyOutsideSlots(LiftStep(s, argv[0]), argv[1..]);
      VersionStep(s, argv[0]);
      hide LiftStep;
      assert forall i: nat | 0 < i <= |argv| :: argv[..i][0] == argv[0] && argv[..i][1..] == argv[1..][..i - 1];
      assert forall i: nat | i < |argv| - 1 ::
          argv[1..][i] == argv[i + 1] && argv[..i + 1][1..] == argv[1..][..i];
      assert argv[..0] == [];
    }
  }

  lemma VersionStep(s: Lift, t: Token)
    ensures LiftStep(s, t).version <==> s.version || (t == "--version" && s.mode == Open)
  {
    hide IsUtf8, TakesValue;
  }

  /** What a line without either asks for: the first kept token is one of the verbs, and its parser is handed
      the rest as it is; and every answer carries the loudness of the line. */
  lemma LinesAreDispatched(argv: seq<Token>, stdinIsTty: bool)
    ensures var r, g := ParseOf(argv, stdinIsTty), LiftAll(START, argv);
            var verbs := ["config", "manifest", "start", "status", "shell", "exec", "stop", "trim", "memory", "volume",
                          "generations", "destroy", "gc", "update", "doctor"];
            && (g.help ==> r.Ok? && r.value.invocation == Help(g.verb))
            && (r.Ok? ==> r.value.verbosity == VerbosityOf(g.level))
            && (!g.help && !g.version ==>
                  && (r == Err(NoCommand) <==> g.tokens == [])
                  && (g.tokens != [] && g.tokens[0] in verbs && g.tokens[0] != "exec" ==>
                        r.Ok? && r.value.invocation == Other(g.tokens[0], g.tokens[1..]))
                  && (g.tokens != [] && g.tokens[0] !in verbs ==> r == Err(UnknownCommand(g.tokens[0]))))
  {
    hide LiftAll, ExecOf, VerbosityOf;
    ExecIsNeverEmpty(LiftAll(START, argv), stdinIsTty);
    assert VERBS == ["config", "manifest", "start", "status", "shell", "exec", "stop", "trim", "memory", "volume",
                     "generations", "destroy", "gc", "update", "doctor"];
    assert VERBS[5] == "exec";
    hide VERBS;
  }

  lemma ExecIsNeverEmpty(g: Lift, stdinIsTty: bool)
    ensures g.tokens != [] ==> ExecOf(g.tokens[1..], stdinIsTty) != Err(NoCommand)
  {
    if g.tokens != [] { ScanIsNeverEmpty(g.tokens[1..], Scan(false, false, [])); }
  }

  lemma {:induction false} ScanIsNeverEmpty(rest: seq<Token>, acc: Scan)
    ensures ScanTokens(rest, acc) != Err(NoCommand)
    decreases |rest|
  {
    hide IndexOf;
    if rest != [] {
      ScanIsNeverEmpty(rest[1..], acc.(tty := true));
      ScanIsNeverEmpty(rest[1..], acc.(noTty := true));
      if |rest| >= 2 && EnvAssignment(rest[1]).Ok? {
        ScanIsNeverEmpty(rest[2..], acc.(env := acc.env + [EnvAssignment(rest[1]).value]));
      }
    }
  }

  /** How loud a line is, token by token: `-q` silences whatever came before it, each `v` adds one from
      there or from silence up, three is the top, and nothing else counts. */
  lemma LoudnessOf(argv: seq<Token>, t: Token)
    ensures LiftAll(START, []).level == 0
    ensures var before, after := LiftAll(START, argv), LiftAll(START, argv + [t]).level;
            var louder := (steps: int) =>
              if before.level < 0 then steps else if before.level + steps > 3 then 3 else before.level + steps;
            after == if before.mode != Open then before.level
                     else if t in {"-q", "--quiet"} then -1
                     else if t in {"-v", "--verbose"} then louder(1)
                     else if t == "-vv" then louder(2)
                     else if t == "-vvv" then louder(3)
                     else before.level
  {
    assert LiftAll(START, []) == START;
    LiftAllConcat(START, argv, [t]);
    LiftOne(LiftAll(START, argv), t);
    hide LiftAll, IsUtf8, TakesValue;
  }

  /** And what that is called. */
  lemma LoudnessIsNamed(argv: seq<Token>)
    ensures -1 <= LiftAll(START, argv).level <= 3
    ensures VerbosityOf(LiftAll(START, argv).level)
         == [Quiet, Normal, Verbose, Debug, Trace][LiftAll(START, argv).level + 1]
  {
    LevelIsInRange(START, argv);
    hide LiftAll;
  }

  lemma {:induction false} LevelIsInRange(s: Lift, argv: seq<Token>)
    requires -1 <= s.level <= 3
    ensures -1 <= LiftAll(s, argv).level <= 3
    decreases argv
  {
    hide IsUtf8, TakesValue;
    if argv != [] { LevelIsInRange(LiftStep(s, argv[0]), argv[1..]); }
  }

  /** Placement is free: a global flag and the ordinary token beside it parse alike in either order, unless
      the place is a value slot, the token takes a value, or the guest's part has begun. */
  lemma GlobalFlagsMoveFreely(before: seq<Token>, flag: Token, token: Token, after: seq<Token>, stdinIsTty: bool)
    requires IsGlobal(flag) && !IsGlobal(token) && token != "--"
    requires LiftAll(START, before).mode == Open
    requires LiftAll(START, before + [token]).mode == Open
    ensures ParseOf(before + [flag, token] + after, stdinIsTty) == ParseOf(before + [token, flag] + after, stdinIsTty)
  {
    hide LiftStep, LiftAll, IsGlobal;
    var s := LiftAll(START, before);
    LiftAllConcat(START, before, [token]);
    LiftOne(s, token);
    StepsCommute(s, flag, token);
    LiftAround(before, flag, token, after);
    LiftAround(before, token, flag, after);
  }

  lemma LiftAround(before: seq<Token>, a: Token, b: Token, after: seq<Token>)
    ensures LiftAll(START, before + [a, b] + after)
         == LiftAll(LiftStep(LiftStep(LiftAll(START, before), a), b), after)
  {
    hide LiftStep, LiftAll;
    assert before + [a, b] + after == before + ([a, b] + after);
    LiftAllConcat(START, before, [a, b] + after);
    LiftAllConcat(LiftAll(START, before), [a, b], after);
    LiftPair(LiftAll(START, before), a, b);
  }

  lemma LiftOne(s: Lift, t: Token)
    ensures LiftAll(s, [t]) == LiftStep(s, t)
  {
    hide LiftStep;
    assert [t][1..] == [];
  }

  lemma LiftPair(s: Lift, a: Token, b: Token)
    ensures LiftAll(s, [a, b]) == LiftStep(LiftStep(s, a), b)
  {
    hide LiftStep;
    assert [a, b][1..] == [b] && [b][1..] == [];
    assert LiftAll(LiftStep(s, a), [b]) == LiftAll(LiftStep(LiftStep(s, a), b), []);
  }

  lemma StepsCommute(s: Lift, flag: Token, token: Token)
    requires s.mode == Open && LiftStep(s, token).mode == Open
    requires IsGlobal(flag) && !IsGlobal(token) && token != "--"
    ensures LiftStep(LiftStep(s, flag), token) == LiftStep(LiftStep(s, token), flag)
  {
    hide IsUtf8, TakesValue;
  }
}
