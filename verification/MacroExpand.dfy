/** Expanding macros: the commands that are delivered one after another are the recursive expansion of the text. */
module MacroExpand {
  import opened Wrappers
  import opened MacroText
  import opened MacroMachine
  import opened MacroBalance
  import opened MacroSteps
  import opened MacroRun

  /** A token that is given as a command: a character of a literal, or the name of a command that is no macro. */
  predicate IsGiven(cs: Commands, t: Token, cmd: Command) {
    match t
    case Lit(c) => cmd == Graphic(c)
    case Name(n) => n in cs && cs[n] == cmd && !cmd.MacroLike?
  }

  // ---------- single steps ----------

  lemma NextGives(cs: Commands, s: State, t: Token, cmd: Command)
    requires !s.returning && s.stack != [] && Quiet(s, 2) && NextToken(At(s)).0 == Some(t) && IsGiven(cs, t, cmd)
    ensures Next(cs, s) == (Behind(s, 2), Some(cmd))
  {
    var m := Moved(s, NextToken(At(s)).1);
    assert Fetched(cs, s) == Dispatched(cs, Some(t), m) && CommandOf(cs, t) == Some(cmd);
    assert s.world[1..][1..] == s.world[2..];
  }

  /** A frame for a pushed text, at its first token, on top of the macro that goes on behind its next token; three
      events have passed. */
  ghost function Inside(s: State, text: string, variable: bool, wrap: bool, ret: bool): State
    requires s.stack != [] && |s.world| >= 3
  {
    var b := Behind(s, 3);
    var f := Frame(Loaded(text, wrap), Start(Loaded(text, wrap)), false, variable);
    b.(stack := b.stack + [f], ret := ret)
  }

  /** A macro-like command is never given: it is executed, and the next command is the first of what it has pushed. */
  lemma NextEnters(cs: Commands, s: State, n: string, text: string, variable: bool, wrap: bool)
    requires !s.returning && 0 < |s.stack| < MAX_MACRO_NESTING && Quiet(s, 2) && |s.world| >= 3
    requires NextToken(At(s)).0 == Some(Name(n)) && n in cs && cs[n].MacroLike?
    requires s.world[2].effects == [PushMacro(text, variable, wrap)]
    ensures Next(cs, s) == Next(cs, Inside(s, text, variable, wrap, s.world[2].result.Some? && s.world[2].result.value))
  {
    var m := Moved(s, NextToken(At(s)).1);
    assert Fetched(cs, s) == Dispatched(cs, Some(Name(n)), m);
    var p := Behind(s, 2);
    assert s.world[1..][1..] == s.world[2..] && s.world[2..][1..] == s.world[3..];
    assert Polled(Fetched(cs, s).0) == p;
    PushBuilt(cs, p, text, variable, wrap);
  }

  lemma PushBuilt(cs: Commands, s: State, text: string, variable: bool, wrap: bool)
    requires !s.returning && |s.stack| < MAX_MACRO_NESTING && s.world != []
    requires s.world[0].effects == [PushMacro(text, variable, wrap)]
    ensures Built(cs, s) ==
      (s.(stack := s.stack + [NewFrame(text, false, variable, wrap)], world := s.world[1..]),
       s.world[0].result.Some? && s.world[0].result.value)
  {
    var q := s.(world := s.world[1..]);
    var es := s.world[0].effects;
    var p := Pushed(q, NewFrame(text, false, variable, wrap));
    assert es[1..] == [];
    assert Did(cs, es, q, false) == Did(cs, [], p, false) == (p, false);
  }

  /** One macro-like command in a quiet state: the first command of its text is given, its frame stands behind that
      command's token, the macro that called it behind the call, and the result is the command's. */
  lemma MacroExpands(
      cs: Commands, s: State, n: string, text: string, variable: bool, wrap: bool, t: Token, cmd: Command)
    requires !s.returning && 0 < |s.stack| < MAX_MACRO_NESTING && Quiet(s, 5)
    requires NextToken(At(s)).0 == Some(Name(n)) && n in cs && cs[n].MacroLike?
    requires s.world[2].effects == [PushMacro(text, variable, wrap)]
    requires NextToken(Start(Loaded(text, wrap))).0 == Some(t) && IsGiven(cs, t, cmd)
    ensures var k := |s.stack| - 1;
      var caller := s.stack[k].(at := NextToken(s.stack[k].at).1);
      var callee := Frame(Loaded(text, wrap), NextToken(Start(Loaded(text, wrap))).1, false, variable);
      Next(cs, s) == (s.(stack := s.stack[..k] + [caller, callee], world := s.world[5..],
                         ret := s.world[2].result.Some? && s.world[2].result.value), Some(cmd))
  {
    var ret := s.world[2].result.Some? && s.world[2].result.value;
    NextEnters(cs, s, n, text, variable, wrap);
    InsideStands(s, text, variable, wrap, ret);
    NextGives(cs, Inside(s, text, variable, wrap, ret), t, cmd);
  }

  lemma InsideStands(s: State, text: string, variable: bool, wrap: bool, ret: bool)
    requires s.stack != [] && Quiet(s, 5)
    ensures var i := Inside(s, text, variable, wrap, ret);
      var k := |s.stack| - 1;
      var caller := s.stack[k].(at := NextToken(s.stack[k].at).1);
      var callee := Frame(Loaded(text, wrap), NextToken(Start(Loaded(text, wrap))).1, false, variable);
      && i.stack != [] && At(i) == Start(Loaded(text, wrap)) && Quiet(i, 2)
      && Behind(i, 2) == s.(stack := s.stack[..k] + [caller, callee], world := s.world[5..], ret := ret)
  {
    assert s.world[3..][2..] == s.world[5..];
    var k := |s.stack| - 1;
    var caller := s.stack[k].(at := NextToken(s.stack[k].at).1);
    var f := NewFrame(text, false, variable, wrap);
    TwoOnTop(s.stack[..k], caller, f, f.(at := NextToken(f.at).1));
  }

  lemma TwoOnTop(fs: seq<Frame>, a: Frame, b: Frame, c: Frame)
    ensures (fs + [a] + [b])[..|fs| + 1] + [c] == fs + [a, c]
  {}

  /** The end of a macro that a macro called. */
  lemma NextLeaves(cs: Commands, s: State)
    requires !s.returning && s.stack != [] && !s.stack[|s.stack| - 1].breaks && Quiet(s, 1)
    requires NextToken(At(s)).0.None?
    ensures Next(cs, s) == Next(cs, s.(stack := s.stack[..|s.stack| - 1], world := s.world[1..]))
  {
    var m := Moved(s, NextToken(At(s)).1);
    assert Fetched(cs, s) == (Popped(m), None);
    assert m.stack[..|m.stack| - 1] == s.stack[..|s.stack| - 1];
    assert Polled(Popped(m)) == s.(stack := s.stack[..|s.stack| - 1], world := s.world[1..]);
  }

  // ---------- whole texts ----------

  /** What a text expands to: a command for a token that is one, the expansion of the text that a macro-like command
      pushes, to any depth. */
  datatype Expansion =
    | Done
    | Plain(cmd: Command, more: Expansion)
    | Call(text: string, variable: bool, wrap: bool, result: bool, inside: Expansion, more: Expansion)
  {
    /** The commands, in order. */
    function Given(): seq<Command> {
      match this
      case Done => []
      case Plain(cmd, more) => [cmd] + more.Given()
      case Call(_, _, _, _, inside, more) => inside.Given() + more.Given()
    }

    /** The frames needed above the text's own. */
    function Depth(): nat {
      match this
      case Done => 0
      case Plain(_, more) => more.Depth()
      case Call(_, _, _, _, inside, more) =>
        var d := 1 + inside.Depth();
        if d > more.Depth() then d else more.Depth()
    }

    /** Two polls for each token, what a call does, and a poll at its end. */
    function Events(): nat {
      match this
      case Done => 0
      case Plain(_, more) => 2 + more.Events()
      case Call(_, _, _, _, inside, more) => 3 + inside.Events() + 1 + more.Events()
    }

    /** The result that branches see at the end. */
    function Result(ret: bool): bool {
      match this
      case Done => ret
      case Plain(_, more) => more.Result(ret)
      case Call(_, _, _, result, inside, more) => more.Result(inside.Result(result))
    }

    /** The tokens are those of the text: commands, and calls whose texts are expanded likewise. */
    ghost predicate Expands(cs: Commands, ts: seq<Token>) {
      match this
      case Done => ts == []
      case Plain(cmd, more) => ts != [] && IsGiven(cs, ts[0], cmd) && more.Expands(cs, ts[1..])
      case Call(text, _, wrap, _, inside, more) =>
        && ts != [] && ts[0].Name? && ts[0].s in cs && cs[ts[0].s].MacroLike? && more.Expands(cs, ts[1..])
        && inside.Expands(cs, Tokens(Start(Loaded(text, wrap))))
    }

    /** The world has no halt in store, and has each call push its text. */
    predicate Plays(world: seq<Event>) {
      |world| >= Events() && match this
        case Done => true
        case Plain(_, more) => !world[0].halt && !world[1].halt && more.Plays(world[2..])
        case Call(text, variable, wrap, result, inside, more) =>
          var n := 3 + inside.Events();
          && !world[0].halt && !world[1].halt && world[2].effects == [PushMacro(text, variable, wrap)]
          && world[2].result == Some(result) && inside.Plays(world[3..]) && !world[n].halt && more.Plays(world[n + 1..])
    }
  }

  /** Calling GetNextCMD again and again delivers the commands; after them it goes on as from the state e. */
  ghost predicate Delivers(cs: Commands, s: State, cmds: seq<Command>, e: State)
    decreases |cmds|
  {
    if cmds == [] then Next(cs, s) == Next(cs, e)
    else Next(cs, s).1 == Some(cmds[0]) && Delivers(cs, Next(cs, s).0, cmds[1..], e)
  }

  lemma DeliversSame(cs: Commands, s: State, m: State, cmds: seq<Command>, e: State)
    requires Next(cs, s) == Next(cs, m) && Delivers(cs, m, cmds, e)
    ensures Delivers(cs, s, cmds, e)
  {}

  lemma {:induction false} DeliversBoth(cs: Commands, s: State, a: seq<Command>, m: State, b: seq<Command>, e: State)
    requires Delivers(cs, s, a, m) && Delivers(cs, m, b, e)
    ensures Delivers(cs, s, a + b, e)
    decreases |a|
  {
    if a == [] {
      assert a + b == b;
      DeliversSame(cs, s, m, b, e);
    } else {
      DeliversBoth(cs, Next(cs, s).0, a[1..], m, b, e);
      assert (a + b)[1..] == a[1..] + b;
    }
  }

  /** Where reading all tokens ends. */
  function Exhausted(at: Scan): (r: Scan)
    requires Settled(at)
    ensures NextToken(r).0.None?
    decreases |at.rest|
  {
    NextTokenShortens(at);
    if NextToken(at).0.None? then at else Exhausted(NextToken(at).1)
  }

  /** The text has been read to its end: its frame is still on top, everything below it as it was. */
  ghost function ReadOut(s: State, w: Expansion): State
    requires s.stack != [] && Settled(At(s)) && w.Events() <= |s.world|
  {
    Top(s, Exhausted(At(s)), w.Events()).(ret := w.Result(s.ret))
  }

  ghost predicate Ready(cs: Commands, s: State, w: Expansion) {
    && !s.returning && !s.halt && s.stack != [] && Settled(At(s)) && |s.stack| + w.Depth() <= MAX_MACRO_NESTING
    && w.Expands(cs, Tokens(At(s))) && w.Plays(s.world)
  }

  /** For every text and everything its macro-like commands push, nested to any depth that the stack has room for: the
      commands delivered are the recursive expansion, in order, and then the text is exhausted and the stack below it
      untouched. */
  lemma {:induction false} Expanded(cs: Commands, s: State, w: Expansion)
    requires Ready(cs, s, w)
    ensures Delivers(cs, s, w.Given(), ReadOut(s, w))
    decreases w
  {
    match w
    case Done =>
      assert NextToken(At(s)).0.None?;
      assert ReadOut(s, w) == s;
    case Plain(cmd, more) =>
      PlainStep(cs, s, w);
      Expanded(cs, Behind(s, 2), more);
      assert w.Given()[1..] == more.Given();
    case Call(text, variable, wrap, result, inside, more) =>
      CallEnters(cs, s, w);
      CallReturns(cs, s, w);
      var i := Inside(s, text, variable, wrap, result);
      var a := Called(s, w);
      Expanded(cs, i, inside);
      Expanded(cs, a, more);
      AfterCall(cs, s, w);
      DeliversSame(cs, ReadOut(i, inside), a, more.Given(), ReadOut(a, more));
      DeliversBoth(cs, i, inside.Given(), ReadOut(i, inside), more.Given(), ReadOut(a, more));
      DeliversSame(cs, s, i, w.Given(), ReadOut(a, more));
  }

  /** The caller, behind a call that has been expanded. */
  ghost function Called(s: State, w: Expansion): State
    requires s.stack != [] && w.Call? && |s.world| >= 4 + w.inside.Events()
  {
    Behind(s, 4 + w.inside.Events()).(ret := w.inside.Result(w.result))
  }

  lemma PlainStep(cs: Commands, s: State, w: Expansion)
    requires Ready(cs, s, w) && w.Plain?
    ensures Next(cs, s) == (Behind(s, 2), Some(w.cmd)) && Ready(cs, Behind(s, 2), w.more)
    ensures ReadOut(Behind(s, 2), w.more) == ReadOut(s, w)
  {
    TokensStep(At(s));
    NextGives(cs, s, Tokens(At(s))[0], w.cmd);
    ReadOutBehind(s, 2, w.more);
  }

  lemma TokensStep(at: Scan)
    requires Settled(at) && Tokens(at) != []
    ensures NextToken(at).0 == Some(Tokens(at)[0]) && Settled(NextToken(at).1)
    ensures Tokens(NextToken(at).1) == Tokens(at)[1..] && Exhausted(NextToken(at).1) == Exhausted(at)
  {
    NextTokenShortens(at);
  }

  lemma ReadOutBehind(s: State, n: nat, w: Expansion)
    requires s.stack != [] && Settled(At(s)) && Tokens(At(s)) != [] && n + w.Events() <= |s.world|
    ensures At(Behind(s, n)) == NextToken(At(s)).1 && Settled(At(Behind(s, n)))
    ensures ReadOut(Behind(s, n), w) == Top(s, Exhausted(At(s)), n + w.Events()).(ret := w.Result(s.ret))
  {
    TokensStep(At(s));
    ReadOutTop(s, NextToken(At(s)).1, n, w);
  }

  lemma ReadOutTop(s: State, at: Scan, n: nat, w: Expansion)
    requires s.stack != [] && Settled(at) && n + w.Events() <= |s.world|
    ensures At(Top(s, at, n)) == at
    ensures ReadOut(Top(s, at, n), w) == Top(s, Exhausted(at), n + w.Events()).(ret := w.Result(s.ret))
  {
    TopAgain(s, at, n, Exhausted(at), w.Events());
  }

  lemma TopAgain(s: State, at: Scan, n: nat, at': Scan, n': nat)
    requires s.stack != [] && n + n' <= |s.world|
    ensures At(Top(s, at, n)) == at && Top(s, at, n).ret == s.ret && Top(Top(s, at, n), at', n') == Top(s, at', n + n')
  {
    assert s.world[n..][n'..] == s.world[n + n'..];
  }

  lemma CallEnters(cs: Commands, s: State, w: Expansion)
    requires Ready(cs, s, w) && w.Call?
    ensures var i := Inside(s, w.text, w.variable, w.wrap, w.result);
      Next(cs, s) == Next(cs, i) && Ready(cs, i, w.inside)
  {
    var n := CallHead(cs, s, w);
    NextEnters(cs, s, n, w.text, w.variable, w.wrap);
    InsideReady(cs, s, w);
  }

  lemma CallHead(cs: Commands, s: State, w: Expansion) returns (n: string)
    requires Ready(cs, s, w) && w.Call?
    ensures NextToken(At(s)).0 == Some(Name(n)) && n in cs && cs[n].MacroLike? && |s.stack| < MAX_MACRO_NESTING
    ensures Quiet(s, 2) && |s.world| >= 3 && s.world[2].result == Some(w.result)
    ensures s.world[2].effects == [PushMacro(w.text, w.variable, w.wrap)]
  {
    CallIs(cs, w, Tokens(At(s)), s.world);
    TokensStep(At(s));
    n := Tokens(At(s))[0].s;
  }

  lemma CallIs(cs: Commands, w: Expansion, ts: seq<Token>, world: seq<Event>)
    requires w.Call? && w.Expands(cs, ts) && w.Plays(world)
    ensures ts != [] && ts[0].Name? && ts[0].s in cs && cs[ts[0].s].MacroLike? && w.Depth() > 0
    ensures |world| >= 3 && !world[0].halt && !world[1].halt && world[2].result == Some(w.result)
    ensures world[2].effects == [PushMacro(w.text, w.variable, w.wrap)]
  {}

  lemma InsideReady(cs: Commands, s: State, w: Expansion)
    requires Ready(cs, s, w) && w.Call?
    ensures Ready(cs, Inside(s, w.text, w.variable, w.wrap, w.result), w.inside)
  {
    var i := Inside(s, w.text, w.variable, w.wrap, w.result);
    assert At(i) == Start(Loaded(w.text, w.wrap)) && |i.stack| == |s.stack| + 1 && i.world == s.world[3..];
  }

  lemma CallReturns(cs: Commands, s: State, w: Expansion)
    requires Ready(cs, s, w) && w.Call?
    ensures Ready(cs, Called(s, w), w.more) && ReadOut(Called(s, w), w.more) == ReadOut(s, w)
  {
    TokensStep(At(s));
    ReadOutBehind(s.(ret := w.inside.Result(w.result)), 4 + w.inside.Events(), w.more);
  }

  lemma AfterCall(cs: Commands, s: State, w: Expansion)
    requires Ready(cs, s, w) && w.Call?
    ensures var i := Inside(s, w.text, w.variable, w.wrap, w.result);
      Next(cs, ReadOut(i, w.inside)) == Next(cs, Called(s, w))
  {
    var i := Inside(s, w.text, w.variable, w.wrap, w.result);
    var e := ReadOut(i, w.inside);
    var n := 3 + w.inside.Events();
    assert s.world[3..][w.inside.Events()..] == s.world[n..] && s.world[n..][1..] == s.world[n + 1..];
    NextLeaves(cs, e);
    assert e.stack[..|e.stack| - 1] == Behind(s, 3).stack;
  }

  /** The run of a text that is to be expanded, with a poll to spare for its end. */
  ghost predicate WholeRun(cs: Commands, s: State, w: Expansion, lower: seq<Frame>) {
    && InRun(s, lower) && Ready(cs, s, w) && |s.stack| == |lower| + 1 && s.late == []
    && |s.world| > w.Events() && !s.world[w.Events()].halt
  }

  /** The whole text of a run, read by GetNextCMD until there is nothing more: the commands are its recursive expansion,
      and the stack is what was below the run. */
  method ReadExpanded(interpreter: Interpreter, ghost w: Expansion, ghost lower: seq<Frame>)
    returns (cmds: seq<Command>)
    requires interpreter.Valid() && WholeRun(interpreter.commands, interpreter.Now(), w, lower)
    modifies interpreter, interpreter.Entries()
    ensures interpreter.Valid() && cmds == w.Given() && interpreter.stack == lower
    ensures interpreter.rtndFromFExecutedMacro && interpreter.funcRetVal == w.Result(old(interpreter.funcRetVal))
  {
    ghost var e, end := RunDelivers(interpreter.commands, interpreter.Now(), w, lower);
    cmds := ReadDelivered(interpreter, w.Given(), e, end, lower);
  }

  method ReadDelivered(
      interpreter: Interpreter, ghost cmds0: seq<Command>, ghost e: State, ghost end: State, ghost lower: seq<Frame>)
    returns (cmds: seq<Command>)
    requires interpreter.Valid() && InRun(interpreter.Now(), lower)
    requires Delivers(interpreter.commands, interpreter.Now(), cmds0, e) && Next(interpreter.commands, e) == (end, None)
    modifies interpreter, interpreter.Entries()
    ensures interpreter.Valid() && cmds == cmds0 && interpreter.Now() == end
  {
    ghost var rest := cmds0;
    cmds := [];
    var cmd := ReadOne(interpreter, rest, e, end, lower);
    while cmd.Some?
      invariant interpreter.Valid() && InRun(interpreter.Now(), lower) && cmds + rest == cmds0
      invariant Delivered(interpreter.commands, interpreter.Now(), cmd, rest, e, end)
      decreases |rest|, cmd.Some?
    {
      OneAcross(cmds, cmd.value, rest);
      cmds, rest := cmds + [cmd.value], rest[1..];
      cmd := ReadOne(interpreter, rest, e, end, lower);
    }
  }

  lemma OneAcross(a: seq<Command>, c: Command, b: seq<Command>)
    requires b != [] && b[0] == c
    ensures a + [c] + b[1..] == a + b
  {}

  method ReadOne(
      interpreter: Interpreter, ghost rest: seq<Command>, ghost e: State, ghost end: State, ghost lower: seq<Frame>)
    returns (cmd: Option<Command>)
    requires interpreter.Valid() && InRun(interpreter.Now(), lower)
    requires Delivers(interpreter.commands, interpreter.Now(), rest, e) && Next(interpreter.commands, e) == (end, None)
    modifies interpreter, interpreter.Entries()
    ensures interpreter.Valid() && InRun(interpreter.Now(), lower)
    ensures Delivered(interpreter.commands, interpreter.Now(), cmd, rest, e, end)
  {
    DeliveredFirst(interpreter.commands, interpreter.Now(), rest, e, end);
    cmd := interpreter.GetNextCMD(lower);
  }

  /** A command has just been read, the first of those that were to come; or none, at the end. */
  ghost predicate Delivered(cs: Commands, s: State, cmd: Option<Command>, rest: seq<Command>, e: State, end: State)
  {
    match cmd
    case None => rest == [] && s == end
    case Some(c) => rest != [] && c == rest[0] && Delivers(cs, s, rest[1..], e)
  }

  lemma DeliveredFirst(cs: Commands, s: State, rest: seq<Command>, e: State, end: State)
    requires Delivers(cs, s, rest, e) && Next(cs, e) == (end, None)
    ensures Delivered(cs, Next(cs, s).0, Next(cs, s).1, rest, e, end)
  {}

  lemma RunDelivers(cs: Commands, s: State, w: Expansion, lower: seq<Frame>) returns (e: State, end: State)
    requires WholeRun(cs, s, w, lower)
    ensures Delivers(cs, s, w.Given(), e) && Next(cs, e) == (end, None)
    ensures end.stack == lower && end.returning && end.ret == w.Result(s.ret)
  {
    e := ReadOut(s, w);
    end := Next(cs, e).0;
    Expanded(cs, s, w);
    RunEnds(cs, s, w, lower);
  }

  lemma RunEnds(cs: Commands, s: State, w: Expansion, lower: seq<Frame>)
    requires WholeRun(cs, s, w, lower)
    ensures var (e, cmd) := Next(cs, ReadOut(s, w));
      cmd == None && e.stack == lower && e.returning && e.ret == w.Result(s.ret)
  {
    var r := ReadOut(s, w);
    var m := Moved(r, NextToken(At(r)).1);
    assert lower + [] == lower && m.stack[..|m.stack| - 1] == lower && m.stack[|lower|].breaks;
    assert Fetched(cs, r) == (Popped(m), None);
  }
}
