/** What fExecute leaves on the stack: nothing, exactly if no command can push a macro where its run may have ended. */
module MacroBalance {
  import opened Wrappers
  import opened MacroText
  import opened MacroBranch
  import opened MacroMachine

  // ---------- the commands that are read ----------

  /** The labels and branches of the top macro lead to a token, and the fetched command is that token's; only the
      position in the top macro changes. */
  ghost predicate Led(cs: Commands, s: State, trace: seq<Scan>, token: Token) {
    && s.stack != [] && Leads(cs, s.ret, s.stack[|s.stack| - 1].text, trace) && trace[0] == At(s)
    && NextToken(trace[|trace| - 1]).0 == Some(token) && Fetched(cs, s).1 == CommandOf(cs, token)
    && Fetched(cs, s).0.stack == Moved(s, NextToken(trace[|trace| - 1]).1).stack
  }

  /** Every command that is read is one to which its macro leads. */
  lemma {:induction false} FetchedLeads(cs: Commands, s: State) returns (trace: seq<Scan>, token: Token)
    requires s.stack != [] && Fetched(cs, s).1.Some?
    requires var text := s.stack[|s.stack| - 1].text; text == "" || !IsBlank(text[0])
    ensures Led(cs, s, trace, token)
    decreases |s.world|
  {
    var u: State, to: Scan;
    token, u, to := FetchedStep(cs, s);
    trace := [At(s)];
    if CommandOf(cs, token).Some? {
      return;
    }
    var more;
    more, token := FetchedLeads(cs, u);
    LeadsOn(cs, s.ret, s.stack[|s.stack| - 1].text, At(s), more);
    trace := trace + more;
  }

  lemma LeadsOn(cs: Commands, ret: bool, text: string, a: Scan, more: seq<Scan>)
    requires Leads(cs, ret, text, more) && Jumps(cs, ret, text, a, more[0])
    ensures Leads(cs, ret, text, [a] + more) && ([a] + more)[|more|] == more[|more| - 1]
  {}

  /** The first token: it is the command, or it leads on to the position `to` of the state u. */
  lemma FetchedStep(cs: Commands, s: State) returns (token: Token, u: State, to: Scan)
    requires s.stack != [] && Fetched(cs, s).1.Some?
    requires var text := s.stack[|s.stack| - 1].text; text == "" || !IsBlank(text[0])
    ensures NextToken(At(s)).0 == Some(token)
    ensures CommandOf(cs, token).Some? ==>
      Fetched(cs, s).1 == CommandOf(cs, token) && Fetched(cs, s).0.stack == Moved(s, NextToken(At(s)).1).stack
    ensures CommandOf(cs, token).None? ==>
      && Jumps(cs, s.ret, s.stack[|s.stack| - 1].text, At(s), to) && u.stack == Moved(s, to).stack && At(u) == to
      && Fetched(cs, s) == Fetched(cs, u) && |u.world| < |s.world| && u.ret == s.ret
      && (forall at :: Moved(u, at).stack == Moved(s, at).stack)
      && u.stack[|u.stack| - 1].text == s.stack[|s.stack| - 1].text
  {
    var (got, at) := NextToken(At(s));
    token := got.value;
    var p := Polled(Moved(s, at));
    u, to := p, at;
    if CommandOf(cs, token).None? {
      assert Fetched(cs, s) == Branched(cs, token.s, p);
      to := BranchLeads(cs, token.s, p);
      u := Moved(p, to);
    }
  }

  lemma BranchLeads(cs: Commands, token: string, s: State) returns (to: Scan)
    requires s.stack != [] && Branched(cs, token, s).1.Some?
    requires var text := s.stack[|s.stack| - 1].text; text == "" || !IsBlank(text[0])
    ensures Branches(token) && Branched(cs, token, s) == Fetched(cs, Moved(s, to))
    ensures Settled(Scan(s.stack[|s.stack| - 1].text, At(s).quoted))
    ensures if Taken(token, s.ret)
      then FindLabel(Scan(s.stack[|s.stack| - 1].text, At(s).quoted), token[1..]) == Some(to)
      else to == At(s)
  {
    to := At(s);
    assert Moved(s, to) == s;
    if Taken(token, s.ret) {
      to := FindLabel(Restart(s), token[1..]).value;
    }
  }

  // ---------- the balance of the stack ----------

  /** The macros that the commands of a run pushed after the run had ended. */
  ghost function Left(cs: Commands, text: string, s: State): seq<Frame> {
    if |s.stack| >= MAX_MACRO_NESTING then [] else Ran(cs, Entered(text, s)).late
  }

  /** For every macro, nesting and behaviour of commands: the stack after fExecute is the one before it, with the macros
      pushed late on top - none, if every command is safe. */
  lemma Balance(cs: Commands, text: string, s: State)
    requires !s.returning && |s.stack| <= MAX_MACRO_NESTING
    ensures var r, left := Executed(cs, text, s), Left(cs, text, s);
      && !r.returning && r.late == s.late && r.stack == s.stack + left && |r.stack| <= MAX_MACRO_NESTING && Plain(left)
      && (SafeWorld(s.world) ==> r.stack == s.stack)
  {
    if |s.stack| < MAX_MACRO_NESTING {
      assert s.stack + [] == s.stack;
      RanInRun(cs, Entered(text, s), s.stack);
    }
  }

  /** Every command does one of the things for which `can` holds. */
  ghost predicate Only(world: seq<Event>, can: seq<Effect> -> bool) {
    forall i :: 0 <= i < |world| ==> can(world[i].effects)
  }

  /** fExecute keeps the stack, whatever the commands, the macro, the state before and the course of events. */
  ghost predicate AlwaysBalanced(can: seq<Effect> -> bool) {
    forall cs: Commands, text: string, s: State ::
      !s.returning && |s.stack| <= MAX_MACRO_NESTING && Only(s.world, can) ==> Executed(cs, text, s).stack == s.stack
  }

  /** fExecute keeps the stack in all runs if and only if everything a command can do is safe by itself. */
  lemma BalancedExactly(can: seq<Effect> -> bool)
    ensures AlwaysBalanced(can) <==> forall es :: can(es) ==> SafeFrom(es, false)
  {
    if forall es :: can(es) ==> SafeFrom(es, false) {
      forall cs: Commands, text: string, s: State | !s.returning && |s.stack| <= MAX_MACRO_NESTING && Only(s.world, can)
        ensures Executed(cs, text, s).stack == s.stack
      {
        Balance(cs, text, s);
      }
    } else {
      var es :| can(es) && !SafeFrom(es, false);
      var cs, text, s := Unbalanced(es);
      assert Only(s.world, can);
    }
  }

  /** A command that collects an argument, if it does, as the last thing. */
  predicate CollectsLast(es: seq<Effect>) {
    forall i :: 0 <= i < |es| - 1 ==> !es[i].CollectArg?
  }

  lemma {:induction false} CollectsLastIsSafe(es: seq<Effect>)
    requires CollectsLast(es)
    ensures SafeFrom(es, false)
    decreases |es|
  {
    if |es| > 1 {
      assert forall i :: 0 <= i < |es[1..]| ==> es[1..][i] == es[i + 1];
      CollectsLastIsSafe(es[1..]);
    }
  }

  /** The commands of the editor that collect an argument - arg, argselkeymap and lastselect - do nothing afterwards:
      fExecute always keeps the stack. */
  lemma EditorIsBalanced()
    ensures AlwaysBalanced(es => CollectsLast(es))
  {
    forall es | CollectsLast(es)
      ensures SafeFrom(es, false)
    {
      CollectsLastIsSafe(es);
    }
    BalancedExactly(es => CollectsLast(es));
  }

  // ---------- a run that is not balanced, for everything that is not safe ----------

  /** No halt is requested at the next n polls. */
  predicate Quiet(s: State, n: nat) {
    !s.halt && |s.world| >= n && forall i :: 0 <= i < n ==> !s.world[i].halt
  }

  /** A macro of one command. */
  predicate OneCommand(cs: Commands, text: string, name: string) {
    var (got, at) := NextToken(Start(Loaded(text, false)));
    got == Some(Name(name)) && name in cs && cs[name].Function? && NextToken(at).0.None?
  }

  /** The run of a macro of one command, when the command has been read and the world has decided what it does. */
  ghost function AtCommand(text: string, s: State): State
    requires |s.world| >= 4
  {
    Moved(Entered(text, s), NextToken(Start(Loaded(text, false))).1).(world := s.world[4..])
  }

  lemma OneCommandRuns(cs: Commands, text: string, name: string, s: State)
    requires !s.returning && |s.stack| < MAX_MACRO_NESTING && Quiet(s, 4) && OneCommand(cs, text, name)
    ensures var (d, rv) := Returned(Did(cs, s.world[3].effects, AtCommand(text, s), false), s.world[3].result);
      Executed(cs, text, s) == Ran(cs, d.(ret := rv)).(late := s.late)
  {
    RanReads(cs, Entered(text, s), name);
  }

  lemma RanReads(cs: Commands, s: State, name: string)
    requires !s.returning && s.stack != [] && Quiet(s, 4)
    requires NextToken(At(s)).0 == Some(Name(name)) && name in cs && !cs[name].MacroLike?
    ensures var c := Moved(s, NextToken(At(s)).1).(world := s.world[4..]);
      var (d, rv) := Returned(Did(cs, s.world[3].effects, c, false), s.world[3].result);
      Ran(cs, s) == Ran(cs, d.(ret := rv))
  {
    var p := Polled(s);
    NextReads(cs, p, name);
    Slices(s.world);
    var n := Next(cs, p).0;
    var c := n.(world := s.world[4..]);
    assert Built(cs, n) == Returned(Did(cs, s.world[3].effects, c, false), s.world[3].result);
  }

  lemma Slices<T>(w: seq<T>)
    requires |w| >= 4
    ensures w[1..][2..] == w[3..] && w[3..][1..] == w[4..] && w[3..][0] == w[3]
  {}

  lemma NextReads(cs: Commands, s: State, name: string)
    requires !s.returning && s.stack != [] && Quiet(s, 2)
    requires NextToken(At(s)).0 == Some(Name(name)) && name in cs && !cs[name].MacroLike?
    ensures Next(cs, s) == (Moved(s, NextToken(At(s)).1).(world := s.world[2..]), Some(cs[name]))
  {
    var m := Moved(s, NextToken(At(s)).1);
    assert Fetched(cs, s) == Dispatched(cs, Some(Name(name)), m);
    assert s.world[1..][1..] == s.world[2..];
  }

  /** Collecting an argument at the end of its own macro ends the run. */
  lemma ArgumentEndsRun(cs: Commands, s: State)
    requires !s.returning && s.stack != [] && s.stack[|s.stack| - 1].breaks && NextToken(At(s)).0.None? && Quiet(s, 1)
    ensures Collected(cs, s) ==
      (s.(stack := s.stack[..|s.stack| - 1], returning := true, world := s.world[1..]), false)
  {
    var m := Moved(s, NextToken(At(s)).1);
    assert Fetched(cs, s) == (Popped(m), None);
    assert m.stack[..|m.stack| - 1] == s.stack[..|s.stack| - 1];
    var p := Polled(Popped(m));
    assert Next(cs, p) == (p, None);
  }

  /** A run with 31 frames below and no more events, by what has become of its own frame: it is still there and fills
      the stack; the run has ended; or the run has ended and another macro has taken its place. */
  ghost predicate Live(s: State, lower: seq<Frame>) {
    && !s.returning && |s.stack| == |lower| + 1 == MAX_MACRO_NESTING && s.stack[..|lower|] == lower
    && s.stack[|lower|].breaks && s.world == []
  }

  ghost predicate Ended(s: State, lower: seq<Frame>) {
    s.returning && s.stack == lower && |lower| + 1 == MAX_MACRO_NESTING && s.world == []
  }

  ghost predicate Replaced(s: State, lower: seq<Frame>) {
    s.returning && |s.stack| == |lower| + 1 == MAX_MACRO_NESTING && s.world == []
  }

  /** Collecting an argument then ends the run, by the end of its macro or by the halt that the end of the script
      means. */
  lemma CollectedEnds(cs: Commands, s: State, lower: seq<Frame>)
    requires Live(s, lower)
    ensures Ended(Collected(cs, s).0, lower)
  {
    var (got, at) := NextToken(At(s));
    var m := Moved(s, at);
    assert TopBreak(m.stack) == |lower|;
    assert Fetched(cs, s) == Dispatched(cs, got, m);
    var f := Fetched(cs, s).0;
    assert f.returning && f.stack == lower && f.world == [];
    assert Next(cs, s) == (Polled(f), None);
  }

  lemma PerformedStays(cs: Commands, effect: Effect, s: State, rv: bool, lower: seq<Frame>)
    requires Live(s, lower) || Ended(s, lower) || Replaced(s, lower)
    ensures var p := Performed(cs, effect, s, rv).0;
      && (Live(s, lower) ==> if effect.CollectArg? then Ended(p, lower) else Live(p, lower))
      && (Ended(s, lower) ==>
        if effect.PushMacro? then Replaced(p, lower) else if effect.Execute? then Live(p, lower) else Ended(p, lower))
      && (Replaced(s, lower) ==> Replaced(p, lower))
  {
    if Live(s, lower) && effect.CollectArg? {
      CollectedEnds(cs, s, lower);
    }
    if s.returning {
      assert Next(cs, s) == (s, None) && Collected(cs, s).0 == s;
      if effect.Execute? {
        var e := Entered(effect.text, s);
        assert Ran(cs, e) == e.(returning := false) && e.stack[..|s.stack|] == s.stack;
      }
    }
  }

  /** What is not safe has another macro take the place of the run's own frame, for good. */
  lemma {:induction false} DidTakes(cs: Commands, es: seq<Effect>, s: State, rv: bool, lower: seq<Frame>)
    requires ((Live(s, lower) || Ended(s, lower)) && !SafeFrom(es, s.returning)) || Replaced(s, lower)
    ensures Replaced(Did(cs, es, s, rv).0, lower)
    decreases |es|
  {
    if es != [] {
      PerformedStays(cs, es[0], s, rv, lower);
      var (p, rv') := Performed(cs, es[0], s, rv);
      DidTakes(cs, es[1..], p, rv', lower);
    }
  }

  /** Whatever is not safe, some run of a command that does it leaves fExecute with another macro on the stack: 31
      macros below, a macro of one command, and no event after the command's own. */
  lemma Unbalanced(es: seq<Effect>) returns (cs: Commands, text: string, s: State)
    requires !SafeFrom(es, false)
    ensures !s.returning && |s.stack| <= MAX_MACRO_NESTING && |s.world| == 4
    ensures forall i :: 0 <= i < |s.world| ==> s.world[i].effects == es
    ensures Executed(cs, text, s).stack != s.stack
  {
    text := SomeName();
    cs := map[text := Function(text)];
    BareIsCommand(cs, text);
    s := FourEvents(es);
    FrameReplaced(cs, text, s);
  }

  lemma SomeName() returns (name: string)
    ensures Bare(name)
  {
    name := ['c'];
  }

  lemma FourEvents(es: seq<Effect>) returns (s: State)
    ensures !s.returning && |s.stack| + 1 == MAX_MACRO_NESTING && |s.world| == 4 && Quiet(s, 4)
    ensures forall i :: 0 <= i < |s.world| ==> s.world[i].effects == es
  {
    var f := Frame("", Scan("", false), false, false);
    var event := Event(false, es, Inline, None);
    s := State(seq(MAX_MACRO_NESTING - 1, _ => f), false, false, false, [event, event, event, event], []);
  }

  lemma FrameReplaced(cs: Commands, name: string, s: State)
    requires !s.returning && |s.stack| + 1 == MAX_MACRO_NESTING && |s.world| == 4 && Quiet(s, 4)
    requires OneCommand(cs, name, name) && !SafeFrom(s.world[3].effects, false)
    ensures |Executed(cs, name, s).stack| == MAX_MACRO_NESTING && Executed(cs, name, s).stack != s.stack
  {
    OneCommandRuns(cs, name, name, s);
    var c := AtCommand(name, s);
    AtCommandIsLive(name, s);
    DidTakes(cs, s.world[3].effects, c, false, s.stack);
  }

  lemma AtCommandIsLive(text: string, s: State)
    requires !s.returning && |s.stack| + 1 == MAX_MACRO_NESTING && |s.world| == 4
    ensures Live(AtCommand(text, s), s.stack)
  {
    TopIsLive(s, NewFrame(text, true, false, false), NextToken(Start(Loaded(text, false))).1);
  }

  lemma TopIsLive(s: State, f: Frame, at: Scan)
    requires !s.returning && |s.stack| + 1 == MAX_MACRO_NESTING && |s.world| == 4 && f.breaks
    ensures Live(Moved(s.(stack := s.stack + [f], late := []), at).(world := s.world[4..]), s.stack)
  {}

  /** A name that is all of a macro's text. */
  predicate Bare(name: string) {
    name != "" && name[0] != '<' && name[0] != QUOTE && forall i :: 0 <= i < |name| ==> !IsBlank(name[i])
  }

  lemma BareIsCommand(cs: Commands, name: string)
    requires Bare(name) && name in cs && cs[name].Function?
    ensures OneCommand(cs, name, name)
  {
    BlanksEnd(name, 0);
    assert SkipBlanks(name) == name && RTrim(name) == name;
    ReadLastName(name);
  }
}
