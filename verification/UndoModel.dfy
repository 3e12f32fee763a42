/** What a user sees of the undo log: the texts at the boundaries, as a history with a position. */
module UndoModel {
  import opened Wrappers

  /** The lines of a buffer. */
  type Text = seq<string>

  /** done: the texts at the boundaries up to the current position, oldest first; now: the lines of the buffer;
      open: something was edited since the last boundary; redo: the texts at the undone boundaries, nearest first. */
  datatype History = History(done: seq<Text>, now: Text, open: bool, redo: seq<Text>)

  /** A user step either dereferences null, or ends in a history and reports whether it moved. */
  datatype Outcome = Fault | Next(h: History, moved: bool)

  /** n blank lines before line y. */
  function Inserted(t: Text, y: nat, n: nat): Text
    requires y <= |t|
  {
    t[..y] + seq(n, _ => "") + t[y..]
  }

  /** The text without the lines first..last. */
  function Deleted(t: Text, first: nat, last: nat): Text
    requires first <= last < |t|
  {
    t[..first] + t[last + 1..]
  }

  ghost predicate Wf(h: History) {
    |h.done| > 0 && (if h.open then h.redo == [] else h.now == h.done[|h.done| - 1])
  }

  function Edited(h: History, now: Text): History {
    History(h.done, now, true, [])
  }

  /** The trim loop: while the count of boundaries after the oldest exceeds the limit, the oldest step goes. */
  function Trimmed(done: seq<Text>, maxUndo: int): Option<seq<Text>>
    requires |done| > 0
  {
    if |done| - 1 <= maxUndo then Some(done)
    else if |done| == 1 then None
    else Trimmed(done[1..], maxUndo)
  }

  function Bounded(h: History, maxUndo: int): Option<History> {
    if !h.open then Some(h)
    else match Trimmed(h.done + [h.now], maxUndo)
      case None => None
      case Some(done) => Some(History(done, h.now, false, []))
  }

  predicate CanUndo(h: History) {
    h.open || |h.done| > 1
  }

  predicate CanRedo(h: History) {
    h.redo != []
  }

  function Back(h: History): History
    requires |h.done| > 1
  {
    var n := |h.done|;
    History(h.done[..n - 1], h.done[n - 2], false, [h.done[n - 1]] + h.redo)
  }

  function Forth(h: History): History
    requires h.redo != []
  {
    History(h.done + [h.redo[0]], h.redo[0], false, h.redo[1..])
  }

  function UndoStep(h: History, maxUndo: int): Outcome {
    if !CanUndo(h) then Next(h, false)
    else match Bounded(h, maxUndo)
      case None => Fault
      case Some(b) => if |b.done| <= 1 then Fault else Next(Back(b), true)
  }

  function RedoStep(h: History, maxUndo: int): Outcome {
    if !CanRedo(h) then Next(h, false)
    else match Bounded(h, maxUndo)
      case None => Fault
      case Some(b) => if b.redo == [] then Fault else Next(Forth(b), true)
  }

  // ---------- the limit ----------

  /** Trimming keeps exactly the newest maxUndo + 1 boundaries; a negative limit runs off the list. */
  lemma {:induction false} TrimmedKeepsNewest(done: seq<Text>, maxUndo: int)
    requires |done| > 0
    ensures Trimmed(done, maxUndo).None? <==> maxUndo < 0
    ensures maxUndo >= 0 ==>
      var n := if |done| <= maxUndo + 1 then |done| else maxUndo + 1;
      Trimmed(done, maxUndo) == Some(done[|done| - n..])
  {
    if |done| - 1 > maxUndo && |done| > 1 {
      TrimmedKeepsNewest(done[1..], maxUndo);
    }
  }

  lemma BoundedStep(h: History, maxUndo: int)
    requires Wf(h) && (h.open ==> maxUndo >= 0)
    ensures Bounded(h, maxUndo).Some?
    ensures var b := Bounded(h, maxUndo).value;
      && Wf(b) && !b.open && b.now == h.now
      && (h.open ==> 1 <= |b.done| <= maxUndo + 1)
      && (h.open && maxUndo >= 1 ==> |b.done| >= 2 && b.done[|b.done| - 2] == h.done[|h.done| - 1])
  {
    if h.open {
      TrimmedKeepsNewest(h.done + [h.now], maxUndo);
    }
  }

  /** A user step faults exactly if edits are pending and the limit leaves no room for the boundary before them. */
  lemma StepSafety(h: History, maxUndo: int)
    requires Wf(h)
    ensures UndoStep(h, maxUndo).Fault? <==> h.open && maxUndo < 1
    ensures !RedoStep(h, maxUndo).Fault?
  {
    if h.open {
      TrimmedKeepsNewest(h.done + [h.now], maxUndo);
    }
  }

  lemma LimitZeroFaults()
    ensures var h := Edited(History([["a"]], ["a"], false, []), ["b"]);
      Wf(h) && CanUndo(h) && UndoStep(h, 0) == Fault
  {
    var h := Edited(History([["a"]], ["a"], false, []), ["b"]);
    StepSafety(h, 0);
  }

  // ---------- undo and redo are inverse ----------

  /** Redo after undo: back to the same lines and the same history, with the pending edits closed by a boundary. */
  lemma RedoOfUndo(h: History, maxUndo: int, maxUndo': int)
    requires Wf(h) && CanUndo(h) && (h.open ==> maxUndo >= 1)
    ensures var u := UndoStep(h, maxUndo);
      && u.Next? && u.moved && Wf(u.h) && CanRedo(u.h)
      && RedoStep(u.h, maxUndo') == Next(Bounded(h, maxUndo).value, true)
      && Bounded(h, maxUndo).value.now == h.now
  {
    BoundedStep(h, maxUndo);
    var b := Bounded(h, maxUndo).value;
    assert b.done[..|b.done| - 1] + [b.done[|b.done| - 1]] == b.done;
    assert ([b.done[|b.done| - 1]] + b.redo)[1..] == b.redo;
  }

  lemma UndoOfRedo(h: History, maxUndo: int, maxUndo': int)
    requires Wf(h) && CanRedo(h)
    ensures var r := RedoStep(h, maxUndo);
      && r.Next? && r.moved && Wf(r.h) && CanUndo(r.h)
      && UndoStep(r.h, maxUndo') == Next(h, true)
  {
    var r := Forth(h);
    assert r.done[..|r.done| - 1] == h.done;
    assert [h.redo[0]] + h.redo[1..] == h.redo;
  }

  // ---------- runs ----------

  datatype Command = Edit(now: Text) | Mark | Undo | Redo

  /** The history after one command; none after a null dereference. */
  function Apply(h: History, c: Command, maxUndo: int): Option<History> {
    match c
    case Edit(now) => Some(Edited(h, now))
    case Mark => Bounded(h, maxUndo)
    case Undo => (match UndoStep(h, maxUndo) case Fault => None case Next(h', _) => Some(h'))
    case Redo => (match RedoStep(h, maxUndo) case Fault => None case Next(h', _) => Some(h'))
  }

  function Run(h: History, cs: seq<Command>, maxUndo: int): Option<History>
    decreases |cs|
  {
    if cs == [] then Some(h)
    else match Apply(h, cs[0], maxUndo)
      case None => None
      case Some(h') => Run(h', cs[1..], maxUndo)
  }

  /** With a limit of at least one no run faults, and every run ends in a well-formed history. */
  lemma {:induction false} RunsAreSafe(h: History, cs: seq<Command>, maxUndo: int)
    requires Wf(h) && maxUndo >= 1
    ensures Run(h, cs, maxUndo).Some? && Wf(Run(h, cs, maxUndo).value)
    decreases |cs|
  {
    if cs != [] {
      BoundedStep(h, maxUndo);
      StepSafety(h, maxUndo);
      RunsAreSafe(Apply(h, cs[0], maxUndo).value, cs[1..], maxUndo);
    }
  }

  ghost predicate AllEdits(cs: seq<Command>) {
    forall c :: c in cs ==> c.Edit?
  }

  lemma {:induction false} RunOfEdits(h: History, cs: seq<Command>, maxUndo: int)
    requires AllEdits(cs) && cs != []
    ensures Run(h, cs, maxUndo) == Some(Edited(h, cs[|cs| - 1].now))
    decreases |cs|
  {
    if |cs| > 1 {
      RunOfEdits(Edited(h, cs[0].now), cs[1..], maxUndo);
    } else {
      assert cs[1..] == [];
    }
  }

  /** Whatever edits follow a boundary, however many: one undo step restores the lines that held at the boundary,
      and one redo step brings the edited lines back. */
  lemma UndoRestoresBoundary(h: History, cs: seq<Command>, maxUndo: int)
    requires Wf(h) && !h.open && AllEdits(cs) && cs != [] && maxUndo >= 1
    ensures var u := Run(h, cs + [Undo], maxUndo); var r := Run(h, cs + [Undo, Redo], maxUndo);
      && u.Some? && u.value.now == h.now && u.value.redo == [cs[|cs| - 1].now]
      && r.Some? && r.value.now == cs[|cs| - 1].now
  {
    RunOfEdits(h, cs, maxUndo);
    var e := Run(h, cs, maxUndo).value;
    RunConcat(h, cs, [Undo], maxUndo);
    RunConcat(h, cs, [Undo, Redo], maxUndo);
    BoundedStep(e, maxUndo);
    RedoOfUndo(e, maxUndo, maxUndo);
    var u := UndoStep(e, maxUndo).h;
    assert [Undo, Redo][1..] == [Redo] && [Undo][1..] == [] && [Redo][1..] == [];
    assert Run(u, [Redo], maxUndo) == Some(RedoStep(u, maxUndo).h);
  }

  lemma {:induction false} RunConcat(h: History, a: seq<Command>, b: seq<Command>, maxUndo: int)
    ensures Run(h, a + b, maxUndo) == (match Run(h, a, maxUndo) case None => None case Some(h') => Run(h', b, maxUndo))
    decreases |a|
  {
    if a == [] {
      assert a + b == b;
    } else {
      assert (a + b)[1..] == a[1..] + b;
      match Apply(h, a[0], maxUndo)
      case None =>
      case Some(h') => RunConcat(h', a[1..], b, maxUndo);
    }
  }

  ghost function Repeat(c: Command, k: nat): (cs: seq<Command>)
    ensures |cs| == k
  {
    if k == 0 then [] else [c] + Repeat(c, k - 1)
  }

  /** k undo steps show the text k boundaries back; k redo steps then restore the whole history. */
  lemma {:induction false} ManySteps(h: History, k: nat, maxUndo: int)
    requires Wf(h) && !h.open && k < |h.done|
    ensures var u := Run(h, Repeat(Undo, k), maxUndo);
      && u.Some? && Wf(u.value) && !u.value.open && u.value.now == h.done[|h.done| - 1 - k]
      && |u.value.redo| == |h.redo| + k
      && Run(u.value, Repeat(Redo, k), maxUndo) == Some(h)
    decreases k
  {
    if k > 0 {
      var u := Back(h);
      UndoOfRedo(u, maxUndo, maxUndo);
      assert Forth(u) == h by {
        assert u.done + [u.redo[0]] == h.done;
      }
      ManySteps(u, k - 1, maxUndo);
      var v := Run(u, Repeat(Undo, k - 1), maxUndo).value;
      assert Repeat(Undo, k)[1..] == Repeat(Undo, k - 1);
      RedosLast(v, k, maxUndo);
    }
  }

  lemma {:induction false} RedosLast(h: History, k: nat, maxUndo: int)
    requires k > 0
    ensures Run(h, Repeat(Redo, k), maxUndo) == (match Run(h, Repeat(Redo, k - 1), maxUndo)
      case None => None case Some(h') => Apply(h', Redo, maxUndo))
  {
    RepeatLast(Redo, k);
    RunConcat(h, Repeat(Redo, k - 1), [Redo], maxUndo);
    match Run(h, Repeat(Redo, k - 1), maxUndo)
    case None =>
    case Some(h') => assert [Redo][1..] == [];
  }

  lemma {:induction false} RepeatLast(c: Command, k: nat)
    requires k > 0
    ensures Repeat(c, k) == Repeat(c, k - 1) + [c]
  {
    if k > 1 {
      RepeatLast(c, k - 1);
    }
  }

  // ---------- what a user can do to a buffer ----------

  datatype Action = Alter(k: nat, text: string) | Insert(y: nat, n: int)
    | Delete(first: nat, last: nat) | Close | UndoRedo(redo: bool)

  predicate InRange(t: Text, a: Action) {
    a.Alter? ==> a.k < |t|
  }

  /** The command an action comes to; none if it leaves the text alone. */
  function Meaning(t: Text, a: Action): Option<Command>
    requires InRange(t, a)
  {
    match a
    case Alter(k, text) => Some(Edit(t[k := text]))
    case Insert(y, n) => if n <= 0 || y >= |t| then None else Some(Edit(Inserted(t, y, n)))
    case Delete(first, last) =>
      if first >= |t| || first > last then None
      else Some(Edit(Deleted(t, first, if last < |t| then last else |t| - 1)))
    case Close => Some(Mark)
    case UndoRedo(redo) => Some(if redo then Redo else Undo)
  }

  /** Every line is altered while it is there. */
  predicate Fits(h: History, acts: seq<Action>, maxUndo: int)
    decreases |acts|
  {
    acts == [] || (InRange(h.now, acts[0]) && match After(h, acts[0], maxUndo)
      case None => false
      case Some(h') => Fits(h', acts[1..], maxUndo))
  }

  /** The history after one action. */
  function After(h: History, a: Action, maxUndo: int): Option<History>
    requires InRange(h.now, a)
  {
    match Meaning(h.now, a)
    case None => Some(h)
    case Some(c) => Apply(h, c, maxUndo)
  }

  /** The commands to which actions come. */
  function Commands(h: History, acts: seq<Action>, maxUndo: int): (cs: seq<Command>)
    requires Fits(h, acts, maxUndo)
    decreases |acts|
  {
    if acts == [] then []
    else
      var more := Commands(After(h, acts[0], maxUndo).value, acts[1..], maxUndo);
      match Meaning(h.now, acts[0])
      case None => more
      case Some(c) => [c] + more
  }

  /** The history at the end of the run, if h is the one before it. */
  ghost predicate Leads(h: History, acts: seq<Action>, maxUndo: int, end: Option<History>) {
    Fits(h, acts, maxUndo) && end == Run(h, Commands(h, acts, maxUndo), maxUndo)
  }

  /** One action ahead: the run of all commands is the run of the others from the history after the first. */
  lemma CommandsRun(h: History, acts: seq<Action>, maxUndo: int, end: Option<History>)
    requires acts != [] && Leads(h, acts, maxUndo, end)
    ensures InRange(h.now, acts[0]) && After(h, acts[0], maxUndo).Some?
    ensures Leads(After(h, acts[0], maxUndo).value, acts[1..], maxUndo, end)
  {
    var more := Commands(After(h, acts[0], maxUndo).value, acts[1..], maxUndo);
    match Meaning(h.now, acts[0])
    case None =>
    case Some(c) => assert ([c] + more)[1..] == more;
  }

  lemma StepApplied(h: History, redo: bool, maxUndo: int, h': History, moved: bool)
    requires (if redo then RedoStep(h, maxUndo) else UndoStep(h, maxUndo)) == Next(h', moved)
    ensures Apply(h, if redo then Redo else Undo, maxUndo) == Some(h')
  {}

  ghost predicate EditsOnly(acts: seq<Action>) {
    forall i :: 0 <= i < |acts| ==> acts[i].Alter? || acts[i].Insert? || acts[i].Delete?
  }

  lemma {:induction false} EditsAreEdits(h: History, acts: seq<Action>, maxUndo: int)
    requires EditsOnly(acts) && Fits(h, acts, maxUndo)
    ensures AllEdits(Commands(h, acts, maxUndo))
    decreases |acts|
  {
    if acts != [] {
      EditsAreEdits(After(h, acts[0], maxUndo).value, acts[1..], maxUndo);
    }
  }

  /** An undo step right after edits since a boundary: the text at the boundary is back. */
  lemma UndoAfterEdits(h: History, acts: seq<Action>, e: History, maxUndo: int)
    requires Wf(h) && !h.open && maxUndo >= 1 && EditsOnly(acts) && Fits(h, acts, maxUndo)
    requires Commands(h, acts, maxUndo) != [] && Some(e) == Run(h, Commands(h, acts, maxUndo), maxUndo)
    ensures var u := Apply(e, Undo, maxUndo); u.Some? && u.value.now == h.now && CanRedo(u.value)
  {
    var cs := Commands(h, acts, maxUndo);
    EditsAreEdits(h, acts, maxUndo);
    RunOfEdits(h, cs, maxUndo);
    BoundedStep(e, maxUndo);
  }
}
