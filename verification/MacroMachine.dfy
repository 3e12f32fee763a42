/** Running macros, as a function of the interpreter's state. What commands do is up to the world, a script of events:
    they may push macros, run macros, or collect arguments by reading further commands; a halt can be requested at any
    poll. When the script ends, a halt is requested. */
module MacroMachine {
  import opened Wrappers
  import opened MacroText

  const MAX_MACRO_NESTING := 32

  /** An entry of the stack, as a value. */
  datatype Frame = Frame(text: string, at: Scan, breaks: bool, variable: bool)

  datatype Command = Graphic(c: char) | Function(name: string) | MacroLike(name: string)

  /** What a command does when it is executed: things in a row. Collecting an argument includes executing the command
      that ends it. */
  datatype Effect = PushMacro(text: string, variable: bool, wrap: bool)
    | Execute(text: string) | RequestHalt | CollectArg

  /** What becomes of a command read while collecting an argument. */
  datatype ArgStep = Inline | RunAndGoOn | RunAndEnd

  /** result: what a command returns of itself; none if it passes on what collecting its argument returned. */
  datatype Event = Event(halt: bool, effects: seq<Effect>, step: ArgStep, result: Option<bool>)

  function CharAt(s: string, i: nat): char {
    if i < |s| then s[i] else '\0'
  }

  /** A run of fExecute above the frames `lower`: its break frame stands at |lower|, with no other above it; or it has
      been popped, and the run is returning. */
  ghost predicate Running(stack: seq<Frame>, lower: seq<Frame>, returning: bool) {
    && |lower| <= |stack| && stack[..|lower|] == lower
    && if returning then |stack| == |lower|
       else |stack| > |lower| && stack[|lower|].breaks && forall i :: |lower| < i < |stack| ==> !stack[i].breaks
  }

  /** The position of the topmost break frame, or -1. */
  function TopBreak(stack: seq<Frame>): (k: int)
    ensures -1 <= k < |stack| && (k >= 0 ==> stack[k].breaks) && forall i :: k < i < |stack| ==> !stack[i].breaks
  {
    if stack == [] then -1
    else if stack[|stack| - 1].breaks then |stack| - 1
    else TopBreak(stack[..|stack| - 1])
  }

  /** What a name that is no command can ask for: a label, or a branch always, if the last command succeeded, or if
      not. */
  predicate Branches(token: string) {
    CharAt(token, 0) in ":=+-" && CharAt(token, 1) == '>'
  }

  predicate Taken(token: string, funcRetVal: bool) {
    CharAt(token, 0) == '=' || (CharAt(token, 0) == '+' && funcRetVal) || (CharAt(token, 0) == '-' && !funcRetVal)
  }

  function CommandOf(commands: map<string, Command>, t: Token): Option<Command> {
    match t
    case Lit(c) => Some(Graphic(c))
    case Name(n) => if n in commands then Some(commands[n]) else None
  }

  /** From position a in the text, a label or an untaken branch is passed, or a taken branch leads to its label. */
  ghost predicate Jumps(commands: map<string, Command>, funcRetVal: bool, text: string, a: Scan, b: Scan) {
    var (got, a') := NextToken(a);
    && got.Some? && CommandOf(commands, got.value).None? && Branches(got.value.s)
    && if Taken(got.value.s, funcRetVal) then
         Settled(Scan(text, a'.quoted)) && FindLabel(Scan(text, a'.quoted), got.value.s[1..]) == Some(b)
       else b == a'
  }

  ghost predicate Leads(commands: map<string, Command>, funcRetVal: bool, text: string, trace: seq<Scan>) {
    trace != [] && forall i :: 0 <= i < |trace| - 1 ==> Jumps(commands, funcRetVal, text, trace[i], trace[i + 1])
  }

  // ---------- the steps ----------

  type Commands = map<string, Command>

  /** late: the macros that commands of the current run pushed after the run had already ended. */
  datatype State = State(stack: seq<Frame>, returning: bool, halt: bool, ret: bool, world: seq<Event>, late: seq<Frame>)

  function NewFrame(text: string, breaks: bool, variable: bool, wrap: bool): Frame {
    Frame(Loaded(text, wrap), Start(Loaded(text, wrap)), breaks, variable)
  }

  /** A macro is pushed, if there is room. */
  ghost function Pushed(s: State, f: Frame): State {
    if |s.stack| >= MAX_MACRO_NESTING then s
    else s.(stack := s.stack + [f], late := if s.returning && !f.breaks then s.late + [f] else s.late)
  }

  /** The top macro ends; with its break frame the run ends. */
  ghost function Popped(s: State): State
    requires s.stack != []
  {
    s.(stack := s.stack[..|s.stack| - 1], returning := s.stack[|s.stack| - 1].breaks)
  }

  /** CleanupPendingMacroStream. */
  ghost function CleanedUp(s: State): State {
    var k := TopBreak(s.stack);
    s.(stack := if k >= 0 then s.stack[..k] else [], returning := k >= 0)
  }

  /** A poll for halt requests; a request stays until somebody clears it. */
  ghost function Polled(s: State): (r: State)
    ensures |r.world| <= |s.world| && (!r.halt ==> |r.world| < |s.world|)
  {
    if s.world == [] then s.(halt := true) else s.(halt := s.halt || s.world[0].halt, world := s.world[1..])
  }

  ghost function At(s: State): Scan
    requires s.stack != []
  {
    s.stack[|s.stack| - 1].at
  }

  /** The top macro has moved on to a position. */
  ghost function Moved(s: State, at: Scan): State
    requires s.stack != []
  {
    var n := |s.stack| - 1;
    s.(stack := s.stack[..n] + [s.stack[n].(at := at)])
  }

  /** CmdFromCurMacro: the next command of the top macro, if any. */
  ghost function Fetched(cs: Commands, s: State): (r: (State, Option<Command>))
    requires s.stack != []
    ensures |r.0.world| <= |s.world| && (r.1.Some? ==> |r.0.world| < |s.world|)
    decreases |s.world|, 1
  {
    Dispatched(cs, NextToken(At(s)).0, Moved(s, NextToken(At(s)).1))
  }

  /** ... after reading a token. */
  ghost function Dispatched(cs: Commands, got: Option<Token>, s: State): (r: (State, Option<Command>))
    requires s.stack != []
    ensures |r.0.world| <= |s.world| && (r.1.Some? ==> |r.0.world| < |s.world|)
    decreases |s.world|, 0
  {
    if got.None? then (Popped(s), None)
    else if Polled(s).halt then (CleanedUp(Polled(s)), None)
    else if CommandOf(cs, got.value).Some? then (Polled(s), CommandOf(cs, got.value))
    else Branched(cs, got.value.s, Polled(s))
  }

  /** ... after reading a name that is no command. */
  ghost function Branched(cs: Commands, token: string, s: State): (r: (State, Option<Command>))
    requires s.stack != []
    ensures |r.0.world| <= |s.world| && (r.1.Some? ==> |r.0.world| < |s.world|)
    decreases |s.world|, 2
  {
    if !Branches(token) then (CleanedUp(s), None)
    else if !Taken(token, s.ret) then Fetched(cs, s)
    else if CharAt(token, 2) == '\0' then (Popped(s), None)
    else
      var at := FindLabel(Restart(s), token[1..]);
      if at.None? then (CleanedUp(s), None) else Fetched(cs, Moved(s, at.value))
  }

  /** Where BranchToLabel starts to search. */
  ghost function Restart(s: State): (r: Scan)
    requires s.stack != []
    ensures Settled(r)
  {
    var r := Scan(s.stack[|s.stack| - 1].text, At(s).quoted);
    if Settled(r) then r else Start("")
  }

  /** GetNextCMD: macro-like commands are executed on the way. */
  ghost function Next(cs: Commands, s: State): (r: (State, Option<Command>))
    ensures |r.0.world| <= |s.world| && (r.1.Some? ==> |r.0.world| < |s.world|)
    decreases |s.world|, 0
  {
    if s.returning || s.stack == [] then (s, None)
    else
      var (f, cmd) := Fetched(cs, s);
      var p := Polled(f);
      if p.halt then (p, None)
      else if cmd.None? then Next(cs, p)
      else if !cmd.value.MacroLike? then (p, cmd)
      else var (b, rv) := Built(cs, p); Next(cs, b.(ret := rv))
  }

  /** BuildExecute: whatever the world wants the command to do. */
  ghost function Built(cs: Commands, s: State): (r: (State, bool))
    ensures |r.0.world| <= |s.world|
    decreases |s.world|, 1
  {
    if s.world == [] then (s, false)
    else Returned(Did(cs, s.world[0].effects, s.(world := s.world[1..]), false), s.world[0].result)
  }

  ghost function Returned(d: (State, bool), result: Option<bool>): (State, bool) {
    (d.0, if result.Some? then result.value else d.1)
  }

  ghost function Did(cs: Commands, es: seq<Effect>, s: State, rv: bool): (r: (State, bool))
    ensures |r.0.world| <= |s.world|
    decreases |s.world|, 4, |es| + 1
  {
    if es == [] then (s, rv)
    else var (p, rv') := Performed(cs, es[0], s, rv); Did(cs, es[1..], p, rv')
  }

  /** One of the things a command does. */
  ghost function Performed(cs: Commands, effect: Effect, s: State, rv: bool): (r: (State, bool))
    ensures |r.0.world| <= |s.world|
    decreases |s.world|, 4, 0
  {
    match effect
    case PushMacro(text, variable, wrap) => (Pushed(s, NewFrame(text, false, variable, wrap)), rv)
    case Execute(text) => (Executed(cs, text, s), rv)
    case RequestHalt => (s.(halt := true), rv)
    case CollectArg => Collected(cs, s)
  }

  /** CollectTextOrSelectArg_Execute. */
  ghost function Collected(cs: Commands, s: State): (r: (State, bool))
    ensures |r.0.world| <= |s.world|
    decreases |s.world|, 3
  {
    var (n, cmd) := Next(cs, s);
    if cmd.None? then (n, false)
    else if n.world == [] || n.world[0].step.RunAndEnd? then Built(cs, n)
    else if n.world[0].step.Inline? then Collected(cs, n)
    else var (b, rv) := Built(cs, n); Collected(cs, b.(ret := rv))
  }

  /** FetchAndExecuteCMDs, not catching halt requests. */
  ghost function Ran(cs: Commands, s: State): (r: State)
    ensures |r.world| <= |s.world| && !r.returning
    decreases |s.world|, 2
  {
    if s.returning then s.(returning := false)
    else
      var p := Polled(s);
      if p.halt then (if p.stack == [] then p else CleanedUp(p)).(returning := false)
      else
        var (n, cmd) := Next(cs, p);
        if cmd.None? then Ran(cs, n) else var (b, rv) := Built(cs, n); Ran(cs, b.(ret := rv))
  }

  /** The state in which fExecute runs a macro, with its break frame on the stack. */
  ghost function Entered(text: string, s: State): State {
    s.(stack := s.stack + [NewFrame(text, true, false, false)], late := [])
  }

  /** fExecute. */
  ghost function Executed(cs: Commands, text: string, s: State): (r: State)
    ensures |r.world| <= |s.world|
    decreases |s.world|, 3
  {
    if |s.stack| >= MAX_MACRO_NESTING then s else Ran(cs, Entered(text, s)).(late := s.late)
  }

  // ---------- what every step of a run keeps ----------

  ghost predicate Plain(fs: seq<Frame>) {
    forall i :: 0 <= i < |fs| ==> !fs[i].breaks
  }

  /** A run above the frames `lower`, and above the macros pushed late. */
  ghost predicate InRun(s: State, lower: seq<Frame>) {
    Running(s.stack, lower + s.late, s.returning) && Plain(s.late) && |s.stack| <= MAX_MACRO_NESTING
  }

  /** Whether things done in a row never push a macro while the run may have ended: collecting an argument may end it,
      and only running a macro makes it go on. */
  predicate SafeFrom(es: seq<Effect>, ended: bool)
    decreases |es|
  {
    es == [] || match es[0]
      case PushMacro(_, _, _) => !ended && SafeFrom(es[1..], ended)
      case Execute(_) => SafeFrom(es[1..], false)
      case RequestHalt => SafeFrom(es[1..], ended)
      case CollectArg => SafeFrom(es[1..], true)
  }

  lemma {:induction false} SafeSooner(es: seq<Effect>)
    requires SafeFrom(es, true)
    ensures SafeFrom(es, false)
    decreases |es|
  {
    if es != [] && es[0].RequestHalt? {
      SafeSooner(es[1..]);
    }
  }

  predicate SafeWorld(world: seq<Event>) {
    forall i :: 0 <= i < |world| ==> SafeFrom(world[i].effects, false)
  }

  /** From s to r: the run goes on or has ended; in a safe world no macro was pushed late. */
  ghost predicate Kept(s: State, r: State, lower: seq<Frame>) {
    InRun(r, lower) && (SafeWorld(s.world) ==> SafeWorld(r.world) && r.late == s.late)
  }

  lemma TopOfRun(s: State, lower: seq<Frame>)
    requires InRun(s, lower) && !s.returning
    ensures s.stack != [] && Kept(s, Popped(s), lower) && Kept(s, CleanedUp(s), lower) && CleanedUp(s).returning
    ensures CleanedUp(s).stack == lower + s.late
  {
    assert TopBreak(s.stack) == |lower + s.late|;
  }

  lemma MovedInRun(s: State, at: Scan, lower: seq<Frame>)
    requires InRun(s, lower) && !s.returning
    ensures InRun(Moved(s, at), lower) && !Moved(s, at).returning
  {}

  lemma PolledInRun(s: State, lower: seq<Frame>)
    requires InRun(s, lower)
    ensures Kept(s, Polled(s), lower) && Polled(s).returning == s.returning && Polled(s).late == s.late
  {}

  lemma PushedInRun(s: State, f: Frame, lower: seq<Frame>)
    requires InRun(s, lower) && !f.breaks
    ensures InRun(Pushed(s, f), lower) && Pushed(s, f).returning == s.returning
    ensures !s.returning ==> Pushed(s, f).late == s.late
  {
    if s.returning && |s.stack| < MAX_MACRO_NESTING {
      assert lower + (s.late + [f]) == lower + s.late + [f];
    }
  }

  lemma {:induction false} FetchedInRun(cs: Commands, s: State, lower: seq<Frame>)
    requires InRun(s, lower) && !s.returning
    ensures s.stack != [] && Kept(s, Fetched(cs, s).0, lower)
    ensures (Fetched(cs, s).1.Some? ==> !Fetched(cs, s).0.returning)
    ensures Fetched(cs, s).0.late == s.late && Fetched(cs, s).0.ret == s.ret
    decreases |s.world|, 1
  {
    TopOfRun(s, lower);
    MovedInRun(s, NextToken(At(s)).1, lower);
    DispatchedInRun(cs, NextToken(At(s)).0, Moved(s, NextToken(At(s)).1), lower);
  }

  lemma {:induction false} DispatchedInRun(cs: Commands, got: Option<Token>, s: State, lower: seq<Frame>)
    requires InRun(s, lower) && !s.returning
    ensures s.stack != [] && Kept(s, Dispatched(cs, got, s).0, lower)
    ensures Dispatched(cs, got, s).1.Some? ==> !Dispatched(cs, got, s).0.returning
    ensures Dispatched(cs, got, s).0.late == s.late && Dispatched(cs, got, s).0.ret == s.ret
    decreases |s.world|, 0
  {
    TopOfRun(s, lower);
    PolledInRun(s, lower);
    TopOfRun(Polled(s), lower);
    if got.Some? && !Polled(s).halt && CommandOf(cs, got.value).None? {
      BranchedInRun(cs, got.value.s, Polled(s), lower);
    }
  }

  lemma {:induction false} BranchedInRun(cs: Commands, token: string, s: State, lower: seq<Frame>)
    requires InRun(s, lower) && !s.returning
    ensures s.stack != [] && Kept(s, Branched(cs, token, s).0, lower)
    ensures Branched(cs, token, s).1.Some? ==> !Branched(cs, token, s).0.returning
    ensures Branched(cs, token, s).0.late == s.late && Branched(cs, token, s).0.ret == s.ret
    decreases |s.world|, 2
  {
    TopOfRun(s, lower);
    if Branches(token) && !Taken(token, s.ret) {
      FetchedInRun(cs, s, lower);
    } else if Branches(token) && CharAt(token, 2) != '\0' {
      var at := FindLabel(Restart(s), token[1..]);
      if at.Some? {
        MovedInRun(s, at.value, lower);
        FetchedInRun(cs, Moved(s, at.value), lower);
      }
    }
  }

  lemma {:induction false} NextInRun(cs: Commands, s: State, lower: seq<Frame>)
    requires InRun(s, lower)
    ensures Kept(s, Next(cs, s).0, lower) && (Next(cs, s).1.Some? ==> !Next(cs, s).0.returning)
    decreases |s.world|, 0
  {
    if !s.returning {
      FetchedInRun(cs, s, lower);
      var (f, cmd) := Fetched(cs, s);
      PolledInRun(f, lower);
      var p := Polled(f);
      if !p.halt && cmd.None? {
        NextInRun(cs, p, lower);
      } else if !p.halt && cmd.value.MacroLike? {
        BuiltInRun(cs, p, lower);
        var (b, rv) := Built(cs, p);
        NextInRun(cs, b.(ret := rv), lower);
      }
    }
  }

  lemma {:induction false} BuiltInRun(cs: Commands, s: State, lower: seq<Frame>)
    requires InRun(s, lower) && !s.returning
    ensures Kept(s, Built(cs, s).0, lower)
    decreases |s.world|, 1
  {
    if s.world != [] {
      assert SafeWorld(s.world) ==> SafeFrom(s.world[0].effects, false) && SafeWorld(s.world[1..]);
      DidInRun(cs, s.world[0].effects, s.(world := s.world[1..]), false, lower);
    }
  }

  /** The rest of what a command does. */
  lemma {:induction false} DidInRun(cs: Commands, es: seq<Effect>, s: State, rv: bool, lower: seq<Frame>)
    requires InRun(s, lower)
    ensures InRun(Did(cs, es, s, rv).0, lower) && (SafeWorld(s.world) ==> SafeWorld(Did(cs, es, s, rv).0.world))
    ensures SafeWorld(s.world) && SafeFrom(es, s.returning) && |lower + s.late| < MAX_MACRO_NESTING ==>
      Did(cs, es, s, rv).0.late == s.late
    decreases |s.world|, 4, |es| + 1
  {
    if es != [] {
      PerformedInRun(cs, es[0], s, rv, lower);
      var (p, rv') := Performed(cs, es[0], s, rv);
      DidInRun(cs, es[1..], p, rv', lower);
      if SafeFrom(es, s.returning) && es[0].CollectArg? && !p.returning {
        SafeSooner(es[1..]);
      }
    }
  }

  lemma {:induction false} PerformedInRun(cs: Commands, effect: Effect, s: State, rv: bool, lower: seq<Frame>)
    requires InRun(s, lower)
    ensures var r := Performed(cs, effect, s, rv).0;
      && InRun(r, lower) && (SafeWorld(s.world) ==> SafeWorld(r.world))
      && (effect.Execute? && |lower + s.late| < MAX_MACRO_NESTING ==> !r.returning)
      && (!effect.Execute? && !effect.CollectArg? ==> r.returning == s.returning)
      && (SafeWorld(s.world) && (s.returning ==> !effect.PushMacro?) ==> r.late == s.late)
    decreases |s.world|, 4, 0
  {
    match effect
    case PushMacro(text, variable, wrap) => PushedInRun(s, NewFrame(text, false, variable, wrap), lower);
    case Execute(text) => ExecutedInRun(cs, text, s, lower);
    case RequestHalt =>
    case CollectArg => CollectedInRun(cs, s, lower);
  }

  lemma {:induction false} CollectedInRun(cs: Commands, s: State, lower: seq<Frame>)
    requires InRun(s, lower)
    ensures Kept(s, Collected(cs, s).0, lower)
    decreases |s.world|, 3
  {
    NextInRun(cs, s, lower);
    var (n, cmd) := Next(cs, s);
    if cmd.Some? {
      if n.world == [] || n.world[0].step.RunAndEnd? {
        BuiltInRun(cs, n, lower);
      } else if n.world[0].step.Inline? {
        CollectedInRun(cs, n, lower);
      } else {
        BuiltInRun(cs, n, lower);
        var (b, rv) := Built(cs, n);
        CollectedInRun(cs, b.(ret := rv), lower);
      }
    }
  }

  /** However a run ends - exhaustion, abort or halt - the stack is what was below it, and the macros pushed late. */
  lemma {:induction false} RanInRun(cs: Commands, s: State, lower: seq<Frame>)
    requires InRun(s, lower)
    ensures var r := Ran(cs, s);
      && r.stack == lower + r.late && Plain(r.late) && |r.stack| <= MAX_MACRO_NESTING
      && (SafeWorld(s.world) ==> SafeWorld(r.world) && r.late == s.late)
    decreases |s.world|, 2
  {
    if !s.returning {
      PolledInRun(s, lower);
      var p := Polled(s);
      TopOfRun(p, lower);
      if !p.halt {
        NextInRun(cs, p, lower);
        var (n, cmd) := Next(cs, p);
        if cmd.None? {
          RanInRun(cs, n, lower);
        } else {
          BuiltInRun(cs, n, lower);
          var (b, rv) := Built(cs, n);
          RanInRun(cs, b.(ret := rv), lower);
        }
      }
    }
  }

  /** fExecute inside a run: if the run has ended, it goes on with the new frame; if not, it keeps its frames, and
      macros pushed late in the inner run come on top of them. */
  lemma {:induction false} ExecutedInRun(cs: Commands, text: string, s: State, lower: seq<Frame>)
    requires InRun(s, lower)
    ensures Kept(s, Executed(cs, text, s), lower) && Executed(cs, text, s).late == s.late
    ensures !s.returning || |lower + s.late| < MAX_MACRO_NESTING ==> !Executed(cs, text, s).returning
    decreases |s.world|, 3
  {
    if |s.stack| < MAX_MACRO_NESTING && !s.returning {
      assert s.stack + [] == s.stack;
      RanInRun(cs, Entered(text, s), s.stack);
    }
  }
}
