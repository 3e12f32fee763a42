/** The macro interpreter of macro.cpp: the bounded stack of macro texts, the commands read from it, and fExecute with
    its break frame. Every method is proved against the step of MacroMachine that it takes. */
module MacroRun {
  import opened Wrappers
  import opened MacroText
  import opened MacroMachine
  import opened MacroBalance

  ghost predicate Holds(e: MacroRuntimeStkEntry, f: Frame)
    reads e
  {
    e.Valid() && e.macroText == f.text && e.At() == f.at && e.breakOutHere == f.breaks && e.variableMacro == f.variable
  }

  /** What a token comes to: a command, one more token, the end of the macro, or the end of the run. */
  datatype Fetch = Give(cmd: Command) | Again | End | GiveUp

  class Interpreter {
    const entries: seq<MacroRuntimeStkEntry>
    const commands: Commands
    var ixPastTOS: nat
    var rtndFromFExecutedMacro: bool
    var haltRequested: bool
    var funcRetVal: bool
    var world: seq<Event>
    ghost var stack: seq<Frame>
    ghost var late: seq<Frame>

    ghost function Entries(): set<MacroRuntimeStkEntry> {
      set e | e in entries
    }

    /** The entries below ixPastTOS hold the frames of the stack; there are never more than 32. */
    ghost predicate Valid()
      reads this, Entries()
    {
      && |entries| == MAX_MACRO_NESTING
      && (forall i {:trigger entries[i]} :: 0 <= i < |entries| ==> entries[i].slot == i)
      && |stack| == ixPastTOS <= MAX_MACRO_NESTING
      && forall i {:trigger stack[i]} :: 0 <= i < |stack| ==> Holds(entries[i], stack[i])
    }

    ghost function Now(): State
      reads this
    {
      State(stack, rtndFromFExecutedMacro, haltRequested, funcRetVal, world, late)
    }

    constructor (commands: Commands, world: seq<Event>)
      ensures Valid() && fresh(Entries()) && Now() == State([], false, false, false, world, [])
      ensures this.commands == commands
    {
      var es: seq<MacroRuntimeStkEntry> := [];
      while |es| < MAX_MACRO_NESTING
        invariant |es| <= MAX_MACRO_NESTING && forall i :: 0 <= i < |es| ==> es[i].slot == i && fresh(es[i])
        decreases MAX_MACRO_NESTING - |es|
      {
        var e := new MacroRuntimeStkEntry(|es|);
        es := es + [e];
      }
      entries := es;
      this.commands, this.world := commands, world;
      ixPastTOS, rtndFromFExecutedMacro, haltRequested, funcRetVal := 0, false, false, false;
      stack, late := [], [];
    }

    // ---------- the stack ----------

    /** PushMacroStringOk. */
    method PushMacroStringOk(macroStr: string, breaks: bool, variable: bool, wrap: bool) returns (ok: bool)
      requires Valid()
      modifies this`ixPastTOS, this`stack, this`late, Entries()
      ensures Valid() && ok == (|old(stack)| < MAX_MACRO_NESTING)
      ensures stack == if ok then old(stack) + [NewFrame(macroStr, breaks, variable, wrap)] else old(stack)
      ensures Now() == Pushed(old(Now()), NewFrame(macroStr, breaks, variable, wrap))
    {
      if ixPastTOS == MAX_MACRO_NESTING {
        return false;
      }
      var e := entries[ixPastTOS];
      ghost var f := NewFrame(macroStr, breaks, variable, wrap);
      e.Ctor(macroStr, breaks, variable, wrap);
      Raise(f);
      return true;
    }

    /** The entry above the stack holds a frame: it is the new top. */
    method Raise(ghost f: Frame)
      requires |entries| == MAX_MACRO_NESTING
      requires (forall i {:trigger entries[i]} :: 0 <= i < |entries| ==> entries[i].slot == i)
      requires |stack| == ixPastTOS < MAX_MACRO_NESTING && Holds(entries[ixPastTOS], f)
      requires forall i {:trigger stack[i]} :: 0 <= i < |stack| ==> Holds(entries[i], stack[i])
      modifies this`ixPastTOS, this`stack, this`late
      ensures Valid() && stack == old(stack) + [f] && Now() == Pushed(old(Now()), f)
    {
      ixPastTOS := ixPastTOS + 1;
      stack := stack + [f];
      late := if rtndFromFExecutedMacro && !f.breaks then late + [f] else late;
    }

    method PopIsBreak() returns (rv: bool)
      requires Valid() && stack != []
      modifies this`ixPastTOS, this`stack, Entries()
      ensures Valid() && stack == old(stack)[..|old(stack)| - 1] && rv == old(stack)[|old(stack)| - 1].breaks
    {
      var e := entries[ixPastTOS - 1];
      assert Holds(e, stack[ixPastTOS - 1]);
      rv := e.ClearIsBreak();
      ixPastTOS := ixPastTOS - 1;
      stack := stack[..|stack| - 1];
    }

    /** PopUntilBreak: the topmost break frame goes, with everything above it; without one, everything goes. */
    method PopUntilBreak() returns (rv: bool)
      requires Valid()
      modifies this`ixPastTOS, this`stack, Entries()
      ensures Valid()
      ensures var k := TopBreak(old(stack)); rv == (k >= 0) && stack == if k >= 0 then old(stack)[..k] else []
    {
      ghost var k := TopBreak(stack);
      while ixPastTOS > 0
        invariant Valid() && k < |stack| <= |old(stack)| && stack == old(stack)[..|stack|]
        decreases |stack|
      {
        var isBreak := PopIsBreak();
        if isBreak {
          return true;
        }
      }
      return false;
    }

    /** The entry on top has moved on. */
    ghost method Retop(e: MacroRuntimeStkEntry, f: Frame)
      requires |entries| == MAX_MACRO_NESTING
      requires (forall i {:trigger entries[i]} :: 0 <= i < |entries| ==> entries[i].slot == i)
      requires 0 < |stack| == ixPastTOS <= MAX_MACRO_NESTING
      requires e == entries[ixPastTOS - 1] && Holds(e, f) && f == stack[ixPastTOS - 1].(at := f.at)
      requires forall i {:trigger stack[i]} :: 0 <= i < |stack| - 1 ==> Holds(entries[i], stack[i])
      modifies this`stack
      ensures Valid() && stack != [] && Now() == Moved(old(Now()), f.at)
    {
      stack := stack[..|stack| - 1] + [f];
    }

    /** GetNextToken on the top of the stack. */
    method NextOfTOS() returns (got: Option<Token>, ghost at: Scan)
      requires Valid() && stack != []
      modifies this`stack, Entries()
      ensures Valid() && stack != [] && Now() == Moved(old(Now()), at) && (got, at) == NextToken(At(old(Now())))
    {
      var e := entries[ixPastTOS - 1];
      ghost var f := stack[ixPastTOS - 1];
      assert Holds(e, f) && f.at == At(Now());
      got := e.GetNextToken();
      at := e.At();
      f := f.(at := at);
      Retop(e, f);
    }

    /** BranchToLabel on the top of the stack. */
    method BranchTOS(token: string) returns (found: bool, ghost at: Scan, ghost start: Scan)
      requires Valid() && stack != [] && token != ""
      modifies this`stack, Entries()
      ensures Valid() && stack != [] && Now() == Moved(old(Now()), at)
      ensures start == Scan(old(stack)[|old(stack)| - 1].text, At(old(Now())).quoted) && Settled(start)
      ensures FindLabel(start, token[1..]) == if found then Some(at) else None
    {
      var e := entries[ixPastTOS - 1];
      ghost var f := stack[ixPastTOS - 1];
      assert Holds(e, f);
      start := Scan(e.macroText, e.insideQuot2dString);
      found := e.BranchToLabel(token);
      at := e.At();
      f := f.(at := at);
      Retop(e, f);
    }

    // ---------- halting ----------

    /** ExecutionHaltRequested; a request stays until somebody clears it. */
    method Poll() returns (halted: bool)
      modifies this`haltRequested, this`world
      ensures halted == haltRequested && Now() == Polled(old(Now()))
    {
      if world == [] {
        haltRequested := true;
      } else {
        haltRequested := haltRequested || world[0].halt;
        world := world[1..];
      }
      halted := haltRequested;
    }

    method CleanUp()
      requires Valid()
      modifies this`ixPastTOS, this`stack, this`rtndFromFExecutedMacro, Entries()
      ensures Valid() && Now() == CleanedUp(old(Now()))
    {
      rtndFromFExecutedMacro := PopUntilBreak();
    }

    /** CleanupPendingMacroStream, in a run: exactly the run's own frames go. */
    method CleanupPendingMacroStream(ghost lower: seq<Frame>)
      requires Valid() && InRun(Now(), lower) && !rtndFromFExecutedMacro
      modifies this`ixPastTOS, this`stack, this`rtndFromFExecutedMacro, Entries()
      ensures Valid() && InRun(Now(), lower) && rtndFromFExecutedMacro && stack == lower + late
      ensures Now() == CleanedUp(old(Now()))
    {
      TopOfRun(Now(), lower);
      CleanUp();
    }

    // ---------- commands ----------

    /** A name that is no command: over the label or the untaken branch, to the label of a taken branch, or out. */
    method Branch(token: string) returns (r: Fetch)
      requires Valid() && stack != []
      modifies this`ixPastTOS, this`stack, this`rtndFromFExecutedMacro, Entries()
      ensures Valid() && !r.Give? && (r.Again? || r.End? ==> stack != [])
      ensures Branched(commands, token, old(Now())) == match r
        case Again => Fetched(commands, Now())
        case End => (Popped(Now()), None)
        case _ => (Now(), None)
    {
      if !Branches(token) {
        CleanUp();
        r := GiveUp;
      } else if !Taken(token, funcRetVal) {
        r := Again;
      } else if CharAt(token, 2) == '\0' {
        r := End;
      } else {
        r := TakeBranch(token);
      }
    }

    /** A taken branch: to its label, or the run ends. */
    method TakeBranch(token: string) returns (r: Fetch)
      requires Valid() && stack != [] && Branches(token) && Taken(token, funcRetVal) && CharAt(token, 2) != '\0'
      modifies this`ixPastTOS, this`stack, this`rtndFromFExecutedMacro, Entries()
      ensures Valid() && (if r.Again? then stack != [] else r.GiveUp?)
      ensures Branched(commands, token, old(Now())) == if r.Again? then Fetched(commands, Now()) else (Now(), None)
    {
      ghost var s := Now();
      ghost var at, start;
      var found;
      found, at, start := BranchTOS(token);
      RestartsThere(s);
      if found {
        r := Again;
      } else {
        r := GiveUp;
        MovedCleanedUp(s, at);
        CleanUp();
      }
    }

    lemma RestartsThere(s: State)
      requires s.stack != [] && Settled(Scan(s.stack[|s.stack| - 1].text, At(s).quoted))
      ensures Restart(s) == Scan(s.stack[|s.stack| - 1].text, At(s).quoted)
    {}

    lemma MovedCleanedUp(s: State, at: Scan)
      requires s.stack != []
      ensures CleanedUp(Moved(s, at)) == CleanedUp(s)
    {
      var a, b := s.stack, Moved(s, at).stack;
      assert b[..|b| - 1] == a[..|a| - 1];
    }

    /** What CmdFromCurMacro does with one token. */
    method Dispatch(token: Token) returns (r: Fetch)
      requires Valid() && stack != []
      modifies this, Entries()
      ensures Valid() && (r.Again? || r.End? ==> stack != []) && (r.Again? ==> |world| < |old(world)|)
      ensures Dispatched(commands, Some(token), old(Now())) == match r
        case Give(cmd) => (Now(), Some(cmd))
        case Again => Fetched(commands, Now())
        case End => (Popped(Now()), None)
        case GiveUp => (Now(), None)
    {
      var halted := Poll();
      if halted {
        CleanUp();
        return GiveUp;
      }
      match token {
        case Lit(c) => r := Give(Graphic(c));
        case Name(n) =>
          if n in commands {
            r := Give(commands[n]);
          } else {
            r := Branch(n);
          }
      }
    }

    method ReadToken() returns (got: Option<Token>)
      requires Valid() && stack != []
      modifies this`stack, Entries()
      ensures Valid() && stack != [] && Dispatched(commands, got, Now()) == Fetched(commands, old(Now()))
    {
      ghost var at;
      got, at := NextOfTOS();
    }

    /** The top macro ends. */
    method EndMacro()
      requires Valid() && stack != []
      modifies this`ixPastTOS, this`stack, this`rtndFromFExecutedMacro, Entries()
      ensures Valid() && Now() == Popped(old(Now()))
    {
      rtndFromFExecutedMacro := PopIsBreak();
    }

    /** One round of the loop of CmdFromCurMacro: done, or one more token read. */
    method FetchOne(token: Token) returns (done: bool, cmd: Option<Command>, got: Option<Token>)
      requires Valid() && stack != []
      modifies this, Entries()
      ensures Valid() && (!done ==> stack != [] && |world| < |old(world)|)
      ensures Dispatched(commands, Some(token), old(Now())) ==
        if done then (Now(), cmd) else Dispatched(commands, got, Now())
    {
      var r := Dispatch(token);
      done, cmd, got := true, None, None;
      match r {
        case Give(c) => cmd := Some(c);
        case GiveUp =>
        case End => EndMacro();
        case Again =>
          done := false;
          got := ReadToken();
      }
    }

    method FetchCommand() returns (cmd: Option<Command>)
      requires Valid() && stack != []
      modifies this, Entries()
      ensures Valid() && Fetched(commands, old(Now())) == (Now(), cmd)
    {
      ghost var goal := Fetched(commands, Now());
      var got := ReadToken();
      while got.Some?
        invariant Valid() && stack != [] && Dispatched(commands, got, Now()) == goal
        decreases |world|
      {
        var done;
        done, cmd, got := FetchOne(got.value);
        if done {
          return;
        }
      }
      EndMacro();
      cmd := None;
    }

    /** CmdFromCurMacro: the next command of the top macro, as the labels and branches of its text lead to it; none if
        the macro ends, a halt is requested or the text is wrong. In all cases a run's invariant is kept. */
    method CmdFromCurMacro(ghost lower: seq<Frame>)
      returns (cmd: Option<Command>, ghost trace: seq<Scan>, ghost token: Token)
      requires Valid() && InRun(Now(), lower) && !rtndFromFExecutedMacro
      modifies this, Entries()
      ensures Valid() && InRun(Now(), lower) && Fetched(commands, old(Now())) == (Now(), cmd)
      ensures cmd.Some? ==> !rtndFromFExecutedMacro && Led(commands, old(Now()), trace, token)
    {
      FetchedInRun(commands, Now(), lower);
      trace, token := Trace();
      cmd := FetchCommand();
    }

    lemma Trace() returns (trace: seq<Scan>, token: Token)
      requires Valid() && stack != []
      ensures Fetched(commands, Now()).1.Some? ==> Led(commands, Now(), trace, token)
    {
      trace, token := [], Lit(' ');
      if Fetched(commands, Now()).1.Some? {
        assert Holds(entries[ixPastTOS - 1], stack[ixPastTOS - 1]);
        trace, token := FetchedLeads(commands, Now());
      }
    }

    /** The first part of the loop of GetNextCMD. */
    method FetchUnlessHalted(ghost lower: seq<Frame>) returns (cmd: Option<Command>, halted: bool)
      requires Valid() && InRun(Now(), lower) && !rtndFromFExecutedMacro
      modifies this, Entries()
      ensures Valid() && InRun(Now(), lower) && halted == haltRequested && (cmd.Some? ==> !rtndFromFExecutedMacro)
      ensures old(stack) != []
      ensures (Now(), cmd) == (Polled(Fetched(commands, old(Now())).0), Fetched(commands, old(Now())).1)
    {
      TopOfRun(Now(), lower);
      ghost var trace, token;
      cmd, trace, token := CmdFromCurMacro(lower);
      halted := Poll();
    }

    /** One round of the loop of GetNextCMD. */
    method NextOne(ghost lower: seq<Frame>) returns (more: bool, cmd: Option<Command>)
      requires Valid() && InRun(Now(), lower) && !rtndFromFExecutedMacro
      modifies this, Entries()
      ensures Valid() && InRun(Now(), lower)
      ensures more ==> |world| < |old(world)| && Next(commands, Now()) == Next(commands, old(Now()))
      ensures !more ==> Next(commands, old(Now())) == (Now(), cmd)
      decreases |world|, 0, 0
    {
      var halted;
      cmd, halted := FetchUnlessHalted(lower);
      if halted {
        more, cmd := false, None;
      } else if cmd.None? {
        more := true;
      } else {
        more := cmd.value.MacroLike?;
        if more {
          Execute(lower);
        }
      }
    }

    /** GetNextCMD, in a run: macro-like commands are executed on the way; the keyboard is never read. */
    method GetNextCMD(ghost lower: seq<Frame>) returns (cmd: Option<Command>)
      requires Valid() && InRun(Now(), lower)
      modifies this, Entries()
      ensures Valid() && InRun(Now(), lower) && (cmd.Some? ==> !rtndFromFExecutedMacro)
      ensures Next(commands, old(Now())) == (Now(), cmd)
      decreases |world|, 0, 1
    {
      NextInRun(commands, Now(), lower);
      ghost var goal := Next(commands, Now());
      while !rtndFromFExecutedMacro
        invariant Valid() && InRun(Now(), lower) && |world| <= |old(world)| && Next(commands, Now()) == goal
        decreases |world|
      {
        var more;
        more, cmd := NextOne(lower);
        if !more {
          return;
        }
      }
      cmd := None;
    }

    /** CMD::BuildExecute: whatever the world wants the command to do. */
    method BuildExecute(ghost lower: seq<Frame>) returns (rv: bool)
      requires Valid() && InRun(Now(), lower) && !rtndFromFExecutedMacro
      modifies this, Entries()
      ensures Valid() && InRun(Now(), lower) && Built(commands, old(Now())) == (Now(), rv)
      decreases |world|, 1, 0
    {
      if world == [] {
        return false;
      }
      var event := world[0];
      world := world[1..];
      rv := false;
      var es := event.effects;
      ghost var goal := Did(commands, es, Now(), rv);
      while es != []
        invariant Valid() && InRun(Now(), lower) && |world| < |old(world)| && Did(commands, es, Now(), rv) == goal
        decreases |es|
      {
        rv := Perform(es[0], rv, lower);
        es := es[1..];
      }
      if event.result.Some? {
        rv := event.result.value;
      }
    }

    /** One of the things a command does. */
    method Perform(effect: Effect, rv0: bool, ghost lower: seq<Frame>) returns (rv: bool)
      requires Valid() && InRun(Now(), lower)
      modifies this, Entries()
      ensures Valid() && InRun(Now(), lower) && Performed(commands, effect, old(Now()), rv0) == (Now(), rv)
      decreases |world|, 4
    {
      rv := rv0;
      PerformedInRun(commands, effect, Now(), rv, lower);
      match effect {
        case PushMacro(text, variable, wrap) =>
          var ok := PushMacroStringOk(text, false, variable, wrap);
        case Execute(text) =>
          var r := FExecute(text);
        case RequestHalt =>
          haltRequested := true;
        case CollectArg =>
          rv := CollectArgExecute(lower);
      }
    }

    /** One round of the loop of CollectTextOrSelectArg_Execute. */
    method CollectOne(ghost lower: seq<Frame>) returns (more: bool, rv: bool)
      requires Valid() && InRun(Now(), lower)
      modifies this, Entries()
      ensures Valid() && InRun(Now(), lower)
      ensures more ==> |world| < |old(world)| && Collected(commands, Now()) == Collected(commands, old(Now()))
      ensures !more ==> Collected(commands, old(Now())) == (Now(), rv)
      decreases |world|, 3, 0
    {
      var cmd := GetNextCMD(lower);
      more, rv := false, false;
      if cmd.Some? {
        var step := if world == [] then RunAndEnd else world[0].step;
        more := !step.RunAndEnd?;
        if step.RunAndEnd? {
          rv := BuildExecute(lower);
        } else if step.RunAndGoOn? {
          Execute(lower);
        }
      }
    }

    /** CollectTextOrSelectArg_Execute: commands are read until one ends the argument or there are no more. */
    method CollectArgExecute(ghost lower: seq<Frame>) returns (rv: bool)
      requires Valid() && InRun(Now(), lower)
      modifies this, Entries()
      ensures Valid() && InRun(Now(), lower) && Collected(commands, old(Now())) == (Now(), rv)
      decreases |world|, 3, 1
    {
      ghost var goal := Collected(commands, Now());
      var more := true;
      rv := false;
      while more
        invariant Valid() && InRun(Now(), lower) && |world| <= |old(world)|
        invariant goal == if more then Collected(commands, Now()) else (Now(), rv)
        decreases |world|, more
      {
        more, rv := CollectOne(lower);
      }
    }

    /** One round of the loop of FetchAndExecuteCMDs. */
    method RunOne(ghost lower: seq<Frame>) returns (halted: bool)
      requires Valid() && InRun(Now(), lower) && !rtndFromFExecutedMacro
      modifies this, Entries()
      ensures Valid() && InRun(Now(), lower)
      ensures halted ==> Ran(commands, old(Now())) == Now().(returning := false)
      ensures !halted ==> |world| < |old(world)| && Ran(commands, Now()) == Ran(commands, old(Now()))
      decreases |world|, 2, 0
    {
      PolledInRun(Now(), lower);
      halted := Poll();
      if halted {
        if ixPastTOS > 0 {
          CleanupPendingMacroStream(lower);
        }
        return;
      }
      ExecuteNext(lower);
    }

    method ExecuteNext(ghost lower: seq<Frame>)
      requires Valid() && InRun(Now(), lower)
      modifies this, Entries()
      ensures Valid() && InRun(Now(), lower) && |world| <= |old(world)|
      ensures var (n, cmd) := Next(commands, old(Now()));
        Now() == if cmd.None? then n else Built(commands, n).0.(ret := Built(commands, n).1)
      decreases |world|, 1, 2
    {
      var cmd := GetNextCMD(lower);
      if cmd.Some? {
        Execute(lower);
      }
    }

    /** A command is executed, and its result kept for branches. */
    method Execute(ghost lower: seq<Frame>)
      requires Valid() && InRun(Now(), lower) && !rtndFromFExecutedMacro
      modifies this, Entries()
      ensures Valid() && InRun(Now(), lower) && |world| <= |old(world)|
      ensures Now() == Built(commands, old(Now())).0.(ret := Built(commands, old(Now())).1)
      decreases |world|, 1, 1
    {
      funcRetVal := BuildExecute(lower);
    }

    /** FetchAndExecuteCMDs, not catching halt requests: however the run ends, its frames are gone, and no others; only
        macros pushed after it had ended are left, and there are none if every command is safe. */
    method FetchAndExecuteCMDs(ghost lower: seq<Frame>)
      requires Valid() && (rtndFromFExecutedMacro || InRun(Now(), lower))
      modifies this, Entries()
      ensures Valid() && !rtndFromFExecutedMacro && Now() == Ran(commands, old(Now()))
      ensures old(rtndFromFExecutedMacro) ==> stack == old(stack)
      ensures !old(rtndFromFExecutedMacro) ==> stack == lower + late
      ensures !old(rtndFromFExecutedMacro) && SafeWorld(old(world)) ==> late == old(late)
      decreases |world|, 2, 2
    {
      if !rtndFromFExecutedMacro {
        RanInRun(commands, Now(), lower);
        RunLoop(lower);
      }
      rtndFromFExecutedMacro := false;
    }

    method RunLoop(ghost lower: seq<Frame>)
      requires Valid() && InRun(Now(), lower)
      modifies this, Entries()
      ensures Valid() && Ran(commands, old(Now())) == Now().(returning := false)
      decreases |world|, 2, 1
    {
      ghost var goal := Ran(commands, Now());
      var halted := false;
      while !rtndFromFExecutedMacro && !halted
        invariant Valid() && InRun(Now(), lower) && |world| <= |old(world)|
        invariant goal == if halted then Now().(returning := false) else Ran(commands, Now())
        decreases |world|, !halted
      {
        halted := RunOne(lower);
      }
    }

    /** fExecute: for every macro and nesting the stack is as it was, if everything the commands do is safe by itself;
        by BalancedExactly, no weaker condition on the commands will do. Whatever they do, the frames below stay as they
        were, and above them is left what was pushed after the run had ended. A call from a command whose own run has
        ended returns at once; the run then goes on with the new frame. */
    method FExecute(strToExecute: string) returns (rv: bool)
      requires Valid()
      modifies this, Entries()
      ensures Valid() && rv == funcRetVal && Now() == Executed(commands, strToExecute, old(Now()))
      ensures !old(rtndFromFExecutedMacro) && SafeWorld(old(world)) ==> stack == old(stack)
      ensures !old(rtndFromFExecutedMacro) ==>
        !rtndFromFExecutedMacro && stack == old(stack) + Left(commands, strToExecute, old(Now()))
      ensures old(rtndFromFExecutedMacro) && |old(stack)| < MAX_MACRO_NESTING ==>
        !rtndFromFExecutedMacro && stack == old(stack) + [NewFrame(strToExecute, true, false, false)]
      ensures old(rtndFromFExecutedMacro) && |old(stack)| == MAX_MACRO_NESTING ==>
        rtndFromFExecutedMacro && stack == old(stack)
      decreases |world|, 3
    {
      if !rtndFromFExecutedMacro {
        Balance(commands, strToExecute, Now());
      }
      ghost var lower := stack;
      var ok := PushMacroStringOk(strToExecute, true, false, false);
      if ok {
        RunOnTop(|lower|);
      }
      rv := funcRetVal;
    }

    /** The macro on top is run with a break frame of its own. */
    method RunOnTop(ghost n: nat)
      requires Valid() && n == |stack| - 1 && stack[n].breaks
      modifies this, Entries()
      ensures Valid() && Now() == Ran(commands, old(Now()).(late := [])).(late := old(late))
      decreases |world|, 2, 3
    {
      ghost var lower, outer := stack[..n], late;
      late := [];
      assert lower + [] == lower;
      FetchAndExecuteCMDs(lower);
      late := outer;
    }
  }
}
