/** What each token of a macro does when it is read: characters and commands are given, labels passed, branches taken or
    not; the end, a halt and an unknown name end the macro or the run. */
module MacroSteps {
  import opened Wrappers
  import opened MacroText
  import opened MacroRecord
  import opened MacroLabels
  import opened MacroMachine
  import opened MacroBalance

  // ---------- reading one token ----------

  /** In a run above the frames `lower`, the next token is t and no halt is requested at the next n polls. */
  ghost predicate Reads(s: State, t: Token, n: nat, lower: seq<Frame>) {
    InRun(s, lower) && !s.returning && Quiet(s, n) && NextToken(At(s)).0 == Some(t)
  }

  /** The top macro stands at another position, and n events have passed. */
  ghost function Top(s: State, at: Scan, n: nat): State
    requires s.stack != [] && n <= |s.world|
  {
    var k := |s.stack| - 1;
    s.(stack := s.stack[..k] + [s.stack[k].(at := at)], world := s.world[n..])
  }

  /** ... right behind the next token. */
  ghost function Behind(s: State, n: nat): State
    requires s.stack != [] && n <= |s.world|
  {
    Top(s, NextToken(At(s)).1, n)
  }

  /** No command, and the run has ended: its frames are gone. */
  ghost predicate Stops(r: (State, Option<Command>), s: State, lower: seq<Frame>) {
    r.1 == None && r.0.returning && r.0.stack == lower + s.late
  }

  /** No command, and the top macro has ended; with its break frame the run. */
  ghost predicate Pops(r: (State, Option<Command>), s: State) {
    && r.1 == None && s.stack != [] && r.0.stack == s.stack[..|s.stack| - 1]
    && r.0.returning == s.stack[|s.stack| - 1].breaks
  }

  lemma FetchedIs(cs: Commands, s: State, t: Token, lower: seq<Frame>)
    requires Reads(s, t, 1, lower)
    ensures Behind(s, 1) == Polled(Moved(s, NextToken(At(s)).1)) && InRun(Behind(s, 1), lower)
    ensures Fetched(cs, s) ==
      if CommandOf(cs, t).Some? then (Behind(s, 1), CommandOf(cs, t)) else Branched(cs, t.s, Behind(s, 1))
  {
    var m := Moved(s, NextToken(At(s)).1);
    assert Fetched(cs, s) == Dispatched(cs, Some(t), m);
    assert Polled(m) == Behind(s, 1);
    MovedInRun(s, NextToken(At(s)).1, lower);
    PolledInRun(m, lower);
  }

  /** A character of a literal is given as the command that types it. */
  lemma CharacterIsGiven(cs: Commands, s: State, c: char, lower: seq<Frame>)
    requires Reads(s, Lit(c), 1, lower)
    ensures Fetched(cs, s) == (Behind(s, 1), Some(Graphic(c)))
  {
    FetchedIs(cs, s, Lit(c), lower);
  }

  lemma CommandIsGiven(cs: Commands, s: State, n: string, lower: seq<Frame>)
    requires Reads(s, Name(n), 1, lower) && n in cs
    ensures Fetched(cs, s) == (Behind(s, 1), Some(cs[n]))
  {
    FetchedIs(cs, s, Name(n), lower);
  }

  lemma EndPops(cs: Commands, s: State)
    requires s.stack != [] && NextToken(At(s)).0.None?
    ensures Pops(Fetched(cs, s), s)
  {}

  /** A requested halt ends the run, whatever is read. */
  lemma HaltStops(cs: Commands, s: State, lower: seq<Frame>)
    requires InRun(s, lower) && !s.returning && NextToken(At(s)).0.Some?
    requires s.halt || s.world == [] || s.world[0].halt
    ensures Stops(Fetched(cs, s), s, lower) && Fetched(cs, s).0.halt
  {
    var at := NextToken(At(s)).1;
    MovedInRun(s, at, lower);
    PolledInRun(Moved(s, at), lower);
    TopOfRun(Polled(Moved(s, at)), lower);
  }

  /** So does a name that is neither a command nor a label nor a branch. */
  lemma UnknownStops(cs: Commands, s: State, n: string, lower: seq<Frame>)
    requires Reads(s, Name(n), 1, lower) && n !in cs
    requires |n| < 2 || n[1] != '>' || (n[0] != ':' && n[0] != '=' && n[0] != '+' && n[0] != '-')
    ensures Stops(Fetched(cs, s), s, lower)
  {
    FetchedIs(cs, s, Name(n), lower);
    TopOfRun(Behind(s, 1), lower);
  }

  // ---------- labels and branches ----------

  /** The sign of a label or branch, and what it is for. */
  function Sign(c: char, l: string): string {
    [c, '>'] + l
  }

  lemma SignShape(c: char, l: string)
    ensures CharAt(Sign(c, l), 0) == c && CharAt(Sign(c, l), 1) == '>' && CharAt(Sign(c, l), 2) == CharAt(l, 0)
    ensures Sign(c, l)[1..] == ['>'] + l
  {}

  /** A macro's text never starts with a blank. */
  ghost predicate Trimmed(s: State) {
    s.stack != [] && var text := s.stack[|s.stack| - 1].text; text == "" || !IsBlank(text[0])
  }

  /** A taken branch ends the macro if it has no label; otherwise the next command comes from behind the label, or the
      run ends if there is none. */
  ghost predicate Goes(cs: Commands, s: State, l: string, lower: seq<Frame>)
    requires Trimmed(s) && s.world != []
  {
    var text, quoted := s.stack[|s.stack| - 1].text, NextToken(At(s)).1.quoted;
    if l == "" || l[0] == '\0' then Pops(Fetched(cs, s), s)
    else match FindLabel(Scan(text, quoted), ['>'] + l)
      case None => Stops(Fetched(cs, s), s, lower)
      case Some(at) => Fetched(cs, s) == Fetched(cs, Top(s, at, 1))
  }

  lemma Jumped(cs: Commands, s: State, c: char, l: string, lower: seq<Frame>)
    requires Reads(s, Name(Sign(c, l)), 1, lower) && Sign(c, l) !in cs && c in ":=+-" && Taken(Sign(c, l), s.ret)
    requires Trimmed(s)
    ensures Goes(cs, s, l, lower)
  {
    FetchedIs(cs, s, Name(Sign(c, l)), lower);
    SignShape(c, l);
    BranchedGoes(cs, s, c, l, lower);
  }

  lemma BranchedGoes(cs: Commands, s: State, c: char, l: string, lower: seq<Frame>)
    requires Trimmed(s) && s.world != [] && !s.returning && InRun(Behind(s, 1), lower)
    requires Branches(Sign(c, l)) && Taken(Sign(c, l), s.ret)
    requires Fetched(cs, s) == Branched(cs, Sign(c, l), Behind(s, 1))
    ensures Goes(cs, s, l, lower)
  {
    var m := Behind(s, 1);
    SignShape(c, l);
    TopOfRun(m, lower);
    SameBelow(s, NextToken(At(s)).1);
    var text, quoted := s.stack[|s.stack| - 1].text, NextToken(At(s)).1.quoted;
    if CharAt(l, 0) != '\0' {
      var to := FindLabel(Scan(text, quoted), ['>'] + l);
      if to.Some? {
        MovedAgain(s, NextToken(At(s)).1, to.value);
      }
    }
  }

  lemma SameBelow(s: State, at: Scan)
    requires s.stack != [] && s.world != []
    ensures var m := Top(s, at, 1);
      && At(m) == at && m.stack[..|m.stack| - 1] == s.stack[..|s.stack| - 1]
      && m.stack[|m.stack| - 1].text == s.stack[|s.stack| - 1].text
      && m.stack[|m.stack| - 1].breaks == s.stack[|s.stack| - 1].breaks
  {}

  lemma MovedAgain(s: State, at: Scan, to: Scan)
    requires s.stack != [] && s.world != []
    ensures Moved(Top(s, at, 1), to) == Top(s, to, 1)
  {}

  lemma Passed(cs: Commands, s: State, c: char, l: string, lower: seq<Frame>)
    requires Reads(s, Name(Sign(c, l)), 1, lower) && Sign(c, l) !in cs && c in ":=+-" && !Taken(Sign(c, l), s.ret)
    ensures Fetched(cs, s) == Fetched(cs, Behind(s, 1))
  {
    FetchedIs(cs, s, Name(Sign(c, l)), lower);
    SignShape(c, l);
  }

  /** A label is passed over; "=>" always branches. */
  lemma LabelIsPassed(cs: Commands, s: State, l: string, lower: seq<Frame>)
    requires Reads(s, Name(Sign(':', l)), 1, lower) && Sign(':', l) !in cs
    ensures Fetched(cs, s) == Fetched(cs, Behind(s, 1))
  {
    SignShape(':', l);
    Passed(cs, s, ':', l, lower);
  }

  lemma BranchAlways(cs: Commands, s: State, l: string, lower: seq<Frame>)
    requires Reads(s, Name(Sign('=', l)), 1, lower) && Sign('=', l) !in cs && Trimmed(s)
    ensures Goes(cs, s, l, lower)
  {
    SignShape('=', l);
    Jumped(cs, s, '=', l, lower);
  }

  /** "+>" branches if the last command succeeded, and is passed over otherwise. */
  lemma BranchIfTrue(cs: Commands, s: State, l: string, lower: seq<Frame>)
    requires Reads(s, Name(Sign('+', l)), 1, lower) && Sign('+', l) !in cs && Trimmed(s)
    ensures if s.ret then Goes(cs, s, l, lower) else Fetched(cs, s) == Fetched(cs, Behind(s, 1))
  {
    SignShape('+', l);
    if s.ret {
      Jumped(cs, s, '+', l, lower);
    } else {
      Passed(cs, s, '+', l, lower);
    }
  }

  /** "->" the other way round. */
  lemma BranchIfFalse(cs: Commands, s: State, l: string, lower: seq<Frame>)
    requires Reads(s, Name(Sign('-', l)), 1, lower) && Sign('-', l) !in cs && Trimmed(s)
    ensures if !s.ret then Goes(cs, s, l, lower) else Fetched(cs, s) == Fetched(cs, Behind(s, 1))
  {
    SignShape('-', l);
    if !s.ret {
      Jumped(cs, s, '-', l, lower);
    } else {
      Passed(cs, s, '-', l, lower);
    }
  }

  // ---------- a branch in a recorded macro ----------

  /** The top macro is a recorded one that starts with a name; its first label l stands at k, a command behind it. */
  ghost predicate HasLabel(cs: Commands, s: State, ts: seq<Token>, l: string, k: nat) {
    && s.stack != [] && s.stack[|s.stack| - 1].text == Loaded(Text(false, ts), false)
    && AllSpellable(ts) && k + 1 < |ts| && ts[0].Name? && ts[k + 1].Name? && ts[k + 1].s in cs
    && IsLabel(ts[k], ['>'] + l) && (forall i :: 0 <= i < k ==> !IsLabel(ts[i], ['>'] + l))
  }

  lemma TopReads(s: State, at: Scan, t: Token, lower: seq<Frame>)
    requires InRun(s, lower) && !s.returning && Quiet(s, 2) && NextToken(at).0 == Some(t)
    ensures Reads(Top(s, at, 1), t, 1, lower)
  {
    assert Top(s, at, 1) == Moved(s, at).(world := s.world[1..]);
    MovedInRun(s, at, lower);
  }

  lemma LabelFound(ts: seq<Token>, dest: string, k: nat) returns (at: Scan)
    requires AllSpellable(ts) && k + 1 < |ts| && ts[0].Name? && IsLabel(ts[k], dest)
    requires forall i :: 0 <= i < k ==> !IsLabel(ts[i], dest)
    ensures FindLabel(Scan(Loaded(Text(false, ts), false), false), dest) == Some(at)
    ensures NextToken(at).0 == Some(ts[k + 1])
  {
    BranchInRecorded(ts, dest);
    at := FindLabel(Scan(Loaded(Text(false, ts), false), false), dest).value;
    var rest := ts[k + 1..];
    assert Tokens(at) == rest && rest != [];
    assert NextToken(at).0 == Some(rest[0]);
  }

  lemma Arrives(cs: Commands, s: State, ts: seq<Token>, l: string, k: nat, t: Token, lower: seq<Frame>)
    requires Reads(s, t, 2, lower) && !NextToken(At(s)).1.quoted && HasLabel(cs, s, ts, l, k)
    requires l != "" && l[0] != '\0' && Trimmed(s) && Goes(cs, s, l, lower)
    ensures Fetched(cs, s).1 == Some(cs[ts[k + 1].s])
  {
    var at := LabelFound(ts, ['>'] + l, k);
    TopReads(s, at, ts[k + 1], lower);
    CommandIsGiven(cs, Top(s, at, 1), ts[k + 1].s, lower);
  }

  lemma GoesOn(cs: Commands, s: State, t: Token, no: string, lower: seq<Frame>)
    requires Reads(s, t, 2, lower) && NextToken(NextToken(At(s)).1).0 == Some(Name(no)) && no in cs
    ensures Fetched(cs, Behind(s, 1)).1 == Some(cs[no])
  {
    TopReads(s, NextToken(At(s)).1, Name(no), lower);
    CommandIsGiven(cs, Behind(s, 1), no, lower);
  }

  /** In a recorded macro a branch with a command behind it gives the command behind the label or the one behind the
      branch: as the last command succeeded or not. */
  lemma BranchChooses(
      cs: Commands, s: State, ts: seq<Token>, c: char, l: string, k: nat, no: string, lower: seq<Frame>)
    requires Reads(s, Name(Sign(c, l)), 2, lower) && Sign(c, l) !in cs && HasLabel(cs, s, ts, l, k)
    requires l != "" && l[0] != '\0' && NextToken(NextToken(At(s)).1).0 == Some(Name(no)) && no in cs
    ensures c == '=' ==> Fetched(cs, s).1 == Some(cs[ts[k + 1].s])
    ensures c == '+' ==> Fetched(cs, s).1 == Some(cs[if s.ret then ts[k + 1].s else no])
    ensures c == '-' ==> Fetched(cs, s).1 == Some(cs[if s.ret then no else ts[k + 1].s])
    ensures c == ':' ==> Fetched(cs, s).1 == Some(cs[no])
  {
    var t := Name(Sign(c, l));
    GoesOn(cs, s, t, no, lower);
    SignShape(c, l);
    if c in ":=+-" {
      if Taken(Sign(c, l), s.ret) {
        Jumped(cs, s, c, l, lower);
        Arrives(cs, s, ts, l, k, t, lower);
      } else {
        Passed(cs, s, c, l, lower);
      }
    }
  }

  // ---------- runs ----------

  /** A halt ends a run before it reads or executes anything: only its frames go. */
  lemma HaltEndsRun(cs: Commands, s: State, lower: seq<Frame>)
    requires InRun(s, lower) && !s.returning && (s.halt || s.world == [] || s.world[0].halt)
    ensures Ran(cs, s) == s.(stack := lower + s.late, halt := true, world := if s.world == [] then [] else s.world[1..])
  {
    PolledInRun(s, lower);
    TopOfRun(Polled(s), lower);
  }

  /** So does one that comes while a command is sought: no command is given. */
  lemma HaltEndsReading(cs: Commands, s: State, lower: seq<Frame>)
    requires InRun(s, lower) && !s.returning && (s.halt || s.world == [] || s.world[0].halt)
    ensures Next(cs, s).1 == None && Next(cs, s).0.halt
  {
    TopOfRun(s, lower);
    var (got, at) := NextToken(At(s));
    var m := Moved(s, at);
    assert Fetched(cs, s) == if got.None? then (Popped(m), None) else (CleanedUp(Polled(m)), None);
    assert Polled(Fetched(cs, s).0).halt;
  }

  /** A command read while an argument is collected: it joins the argument, or is executed and reading goes on, or it
      ends the argument. In the last two cases what it returns is what the branches behind it, or the caller, get. */
  lemma CollectsOne(cs: Commands, s: State, n: string, result: bool, lower: seq<Frame>)
    requires Reads(s, Name(n), 2, lower) && n in cs && !cs[n].MacroLike? && |s.world| > 2
    requires s.world[2].effects == [] && s.world[2].result == Some(result)
    ensures s.world[2].step.Inline? ==> Collected(cs, s) == Collected(cs, Behind(s, 2))
    ensures s.world[2].step.RunAndGoOn? ==> Collected(cs, s) == Collected(cs, Behind(s, 3).(ret := result))
    ensures s.world[2].step.RunAndEnd? ==> Collected(cs, s) == (Behind(s, 3), result)
  {
    NextReads(cs, s, n);
    var b := Behind(s, 2);
    assert s.world[2..][1..] == s.world[3..];
    assert Built(cs, b) == (Behind(s, 3), result);
  }

  /** What a command does, it does in order. */
  lemma {:induction false} DoneInRow(cs: Commands, a: seq<Effect>, b: seq<Effect>, s: State, rv: bool)
    ensures Did(cs, a + b, s, rv) == Did(cs, b, Did(cs, a, s, rv).0, Did(cs, a, s, rv).1)
    decreases |a|
  {
    if a == [] {
      assert a + b == b;
    } else {
      var (p, rv') := Performed(cs, a[0], s, rv);
      assert (a + b)[1..] == a[1..] + b;
      DoneInRow(cs, a[1..], b, p, rv');
    }
  }

  /** A command that collects an argument passes on what collecting it returned, if it returns nothing of itself; one
      that runs a macro or requests a halt does just that. */
  lemma DoneAlone(cs: Commands, s: State, effect: Effect)
    requires s.world != [] && s.world[0].effects == [effect]
    ensures var q := s.(world := s.world[1..]);
      && (effect.CollectArg? && s.world[0].result == None ==> Built(cs, s) == Collected(cs, q))
      && (effect.CollectArg? && s.world[0].result != None ==>
        Built(cs, s) == (Collected(cs, q).0, s.world[0].result.value))
      && (effect.Execute? ==> Built(cs, s).0 == Executed(cs, effect.text, q))
      && (effect.RequestHalt? ==> Built(cs, s).0 == q.(halt := true))
  {
    var q := s.(world := s.world[1..]);
    var es := s.world[0].effects;
    var (p, rv) := Performed(cs, effect, q, false);
    assert es[1..] == [] && es[0] == effect;
    assert Did(cs, es, q, false) == Did(cs, es[1..], p, rv) == (p, rv);
  }

  /** fExecute of a function: it is executed once, what it returns is left as the result, and nothing else changes. */
  lemma FunctionCompletes(cs: Commands, name: string, s: State, result: bool)
    requires Bare(name) && name in cs && cs[name].Function?
    requires !s.returning && |s.stack| < MAX_MACRO_NESTING && Quiet(s, 6)
    requires s.world[3].effects == [] && s.world[3].result == Some(result)
    ensures Executed(cs, name, s) == s.(ret := result, world := s.world[6..])
  {
    BareIsCommand(cs, name);
    OneCommandRuns(cs, name, name, s);
    var c := AtCommand(name, s).(ret := result);
    assert Ran(cs, c).(late := s.late) == s.(ret := result, world := s.world[6..]) by {
      EndsQuietly(cs, c);
      assert c.world[2..] == s.world[6..];
      assert c.stack[..|c.stack| - 1] == s.stack;
    }
  }

  lemma EndsQuietly(cs: Commands, s: State)
    requires !s.returning && s.stack != [] && s.stack[|s.stack| - 1].breaks && NextToken(At(s)).0.None? && Quiet(s, 2)
    ensures Ran(cs, s) == s.(stack := s.stack[..|s.stack| - 1], world := s.world[2..])
  {
    var p := Polled(s);
    assert Fetched(cs, p) == (Popped(Moved(p, NextToken(At(s)).1)), None);
    var q := Polled(Fetched(cs, p).0);
    assert s.world[1..][1..] == s.world[2..];
    assert q == s.(stack := s.stack[..|s.stack| - 1], world := s.world[2..], returning := true);
    assert Next(cs, p) == Next(cs, q) == (q, None);
  }
}
