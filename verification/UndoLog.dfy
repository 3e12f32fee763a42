/** The undo log as a value: line contents and their owners, edit records, and what each record says about the lines
    before and after it. */
module UndoLog {
  import opened Wrappers
  import opened UndoModel

  /** A line's content: none, a view into the file image, or a block of its own from the allocator. */
  datatype LineInfo = Empty | Borrowed(text: string) | Owned(id: nat, text: string)

  type Lines = seq<LineInfo>

  function Content(li: LineInfo): string {
    if li.Empty? then "" else li.text
  }

  function Contents(ls: Lines): (t: Text)
    ensures |t| == |ls|
    ensures forall i :: 0 <= i < |ls| ==> t[i] == Content(ls[i])
  {
    seq(|ls|, i requires 0 <= i < |ls| => Content(ls[i]))
  }

  function Blank(n: nat): (ls: Lines)
    ensures |ls| == n && forall i :: 0 <= i < n ==> ls[i] == Empty
  {
    seq(n, _ => Empty)
  }

  /** n blank lines before line y. */
  function Opened(ls: Lines, y: nat, n: nat): Lines
    requires y <= |ls|
  {
    ls[..y] + Blank(n) + ls[y..]
  }

  /** The lines without first..last. */
  function Closed(ls: Lines, first: nat, last: nat): Lines
    requires first <= last < |ls|
  {
    ls[..first] + ls[last + 1..]
  }

  /** The same on the text the user sees. */
  lemma OpenedText(ls: Lines, y: nat, n: nat)
    requires y <= |ls|
    ensures Contents(Opened(ls, y, n)) == Inserted(Contents(ls), y, n)
  {
    assert forall i :: 0 <= i < |ls| + n ==> Contents(Opened(ls, y, n))[i] == Inserted(Contents(ls), y, n)[i];
  }

  lemma ClosedText(ls: Lines, first: nat, last: nat)
    requires first <= last < |ls|
    ensures Contents(Closed(ls, first, last)) == Deleted(Contents(ls), first, last)
  {}

  /** The edit records of fbuf_undo.cpp. lineCount is the length of the buffer before the edit. */
  datatype Op =
    | Boundary
    | AltLine(lineCount: nat, lineNum: nat, li: LineInfo)
    | InsLines(lineCount: nat, first: nat, n: nat)
    | DelLines(lineCount: nat, first: nat, n: nat, saved: Lines, applied: bool)

  // ---------- ownership ----------

  ghost function Owns(li: LineInfo, id: nat): nat {
    if li.Owned? && li.id == id then 1 else 0
  }

  /** How many of the lines own block id. */
  ghost function Owners(ls: Lines, id: nat): nat {
    if ls == [] then 0 else Owns(ls[0], id) + Owners(ls[1..], id)
  }

  lemma {:induction false} OwnersConcat(a: Lines, b: Lines, id: nat)
    ensures Owners(a + b, id) == Owners(a, id) + Owners(b, id)
    decreases |a|
  {
    if a == [] {
      assert a + b == b;
    } else {
      assert (a + b)[1..] == a[1..] + b;
      OwnersConcat(a[1..], b, id);
    }
  }

  lemma OwnersSpliced(a: Lines, x: Lines, b: Lines, id: nat)
    ensures Owners(a + x + b, id) == Owners(a, id) + Owners(x, id) + Owners(b, id)
  {
    OwnersConcat(a + x, b, id);
    OwnersConcat(a, x, id);
  }

  lemma OwnersUpdate(a: Lines, i: nat, li: LineInfo, id: nat)
    requires i < |a|
    ensures Owners(a[i := li], id) + Owns(a[i], id) == Owners(a, id) + Owns(li, id)
  {
    var l, r := a[..i], a[i + 1..];
    assert a == l + [a[i]] + r && a[i := li] == l + [li] + r;
    OwnersSpliced(l, [a[i]], r, id);
    OwnersSpliced(l, [li], r, id);
    assert Owners([a[i]], id) == Owns(a[i], id) && Owners([li], id) == Owns(li, id);
  }

  lemma {:induction false} BlankOwnsNothing(n: nat, id: nat)
    ensures Owners(Blank(n), id) == 0
    decreases n
  {
    if n > 0 {
      assert Blank(n)[1..] == Blank(n - 1);
      BlankOwnsNothing(n - 1, id);
    }
  }

  /** How many times a record owns block id. */
  ghost function OpOwners(op: Op, id: nat): nat {
    match op
    case AltLine(_, _, li) => Owns(li, id)
    case DelLines(_, _, _, saved, _) => Owners(saved, id)
    case _ => 0
  }

  ghost function LogOwners(ops: seq<Op>, id: nat): nat {
    if ops == [] then 0 else OpOwners(ops[0], id) + LogOwners(ops[1..], id)
  }

  lemma {:induction false} LogOwnersConcat(a: seq<Op>, b: seq<Op>, id: nat)
    ensures LogOwners(a + b, id) == LogOwners(a, id) + LogOwners(b, id)
    decreases |a|
  {
    if a == [] {
      assert a + b == b;
    } else {
      assert (a + b)[1..] == a[1..] + b;
      LogOwnersConcat(a[1..], b, id);
    }
  }

  lemma LogOwnersUpdate(a: seq<Op>, i: nat, op: Op, id: nat)
    requires i < |a|
    ensures LogOwners(a[i := op], id) + OpOwners(a[i], id) == LogOwners(a, id) + OpOwners(op, id)
  {
    var l, r := a[..i], a[i + 1..];
    assert a == (l + [a[i]]) + r && a[i := op] == (l + [op]) + r;
    LogOwnersConcat(l + [a[i]], r, id);
    LogOwnersConcat(l + [op], r, id);
    LogOwnersConcat(l, [a[i]], id);
    LogOwnersConcat(l, [op], id);
    assert LogOwners([a[i]], id) == OpOwners(a[i], id) && LogOwners([op], id) == OpOwners(op, id);
  }

  // ---------- what a record means ----------

  /** Record op leads from lines a to lines b; done says on which side of the current position it lies. An alteration
      record holds the content that is not in the buffer; a deletion record holds the deleted lines exactly while
      done. */
  ghost predicate Step(op: Op, a: Lines, b: Lines, done: bool) {
    match op
    case Boundary => b == a
    case AltLine(lineCount, k, li) =>
      lineCount == |a| && k < |a| == |b| && b == a[k := b[k]] && li == if done then a[k] else b[k]
    case InsLines(lineCount, first, n) =>
      lineCount == |a| && first < |a| && n >= 1 && b == a[..first] + Blank(n) + a[first..]
    case DelLines(lineCount, first, n, saved, applied) =>
      && lineCount == |a| && n >= 1 && first + n <= |a| && b == a[..first] + a[first + n..]
      && applied == done && saved == if done then a[first..first + n] else Blank(n)
  }

  /** What VUndo makes of a record: it keeps what it takes out of the buffer. */
  ghost function Undone(op: Op, b: Lines): Op
    requires op.AltLine? ==> op.lineNum < |b|
  {
    match op
    case AltLine(_, k, _) => op.(li := b[k])
    case DelLines(_, _, n, _, _) => op.(saved := Blank(n), applied := false)
    case _ => op
  }

  ghost function Redone(op: Op, a: Lines): Op
    requires op.AltLine? ==> op.lineNum < |a|
    requires op.DelLines? ==> op.first + op.n <= |a|
  {
    match op
    case AltLine(_, k, _) => op.(li := a[k])
    case DelLines(_, first, n, _, _) => op.(saved := a[first..first + n], applied := true)
    case _ => op
  }

  lemma UndoneStep(op: Op, a: Lines, b: Lines)
    requires Step(op, a, b, true)
    ensures Step(Undone(op, b), a, b, false)
  {}

  lemma RedoneStep(op: Op, a: Lines, b: Lines)
    requires Step(op, a, b, false)
    ensures Step(Redone(op, a), a, b, true)
  {}

  lemma UndoneOwners(op: Op, a: Lines, b: Lines, id: nat)
    requires Step(op, a, b, true)
    ensures Owners(a, id) + OpOwners(Undone(op, b), id) == Owners(b, id) + OpOwners(op, id)
  {
    match op
    case Boundary =>
    case AltLine(_, k, _) => OwnersUpdate(a, k, b[k], id);
    case InsLines(_, first, n) =>
      assert a == a[..first] + a[first..];
      OwnersConcat(a[..first], a[first..], id);
      OwnersSpliced(a[..first], Blank(n), a[first..], id);
      BlankOwnsNothing(n, id);
    case DelLines(_, first, n, saved, _) =>
      assert a == a[..first] + saved + a[first + n..];
      OwnersSpliced(a[..first], saved, a[first + n..], id);
      OwnersConcat(a[..first], a[first + n..], id);
      BlankOwnsNothing(n, id);
  }

  lemma RedoneOwners(op: Op, a: Lines, b: Lines, id: nat)
    requires Step(op, a, b, false)
    ensures Owners(b, id) + OpOwners(Redone(op, a), id) == Owners(a, id) + OpOwners(op, id)
  {
    var r := Redone(op, a);
    UndoneOwners(r, a, b, id);
    assert Undone(r, b) == op;
  }

  // ---------- the log ----------

  /** ops: the records, oldest first; hist[i]: the lines when record i is the current one; cur: the current record. */
  datatype Log = Log(ops: seq<Op>, hist: seq<Lines>, cur: nat)

  ghost predicate Chained(g: Log) {
    && |g.ops| == |g.hist| && g.cur < |g.ops|
    && forall i :: 0 < i < |g.ops| ==> Step(g.ops[i], g.hist[i - 1], g.hist[i], i <= g.cur)
  }

  /** The oldest record is a boundary; the current one is a boundary or the newest; undone records end in a boundary. */
  ghost predicate Delimited(g: Log) {
    && g.cur < |g.ops| && g.ops[0].Boundary?
    && (g.ops[g.cur].Boundary? || g.cur == |g.ops| - 1)
    && (g.cur == |g.ops| - 1 || g.ops[|g.ops| - 1].Boundary?)
  }

  /** The texts at the boundaries. */
  ghost function Marks(ops: seq<Op>, hist: seq<Lines>): (ts: seq<Text>)
    requires |ops| == |hist|
  {
    if ops == [] then []
    else (if ops[0].Boundary? then [Contents(hist[0])] else []) + Marks(ops[1..], hist[1..])
  }

  lemma {:induction false} MarksConcat(a: seq<Op>, x: seq<Lines>, b: seq<Op>, y: seq<Lines>)
    requires |a| == |x| && |b| == |y|
    ensures Marks(a + b, x + y) == Marks(a, x) + Marks(b, y)
    decreases |a|
  {
    if a == [] {
      assert a + b == b && x + y == y;
    } else {
      assert (a + b)[1..] == a[1..] + b && (x + y)[1..] == x[1..] + y;
      MarksConcat(a[1..], x[1..], b, y);
    }
  }

  lemma MarksSplit(ops: seq<Op>, hist: seq<Lines>, k: nat)
    requires |ops| == |hist| && k <= |ops|
    ensures Marks(ops, hist) == Marks(ops[..k], hist[..k]) + Marks(ops[k..], hist[k..])
  {
    assert ops == ops[..k] + ops[k..] && hist == hist[..k] + hist[k..];
    MarksConcat(ops[..k], hist[..k], ops[k..], hist[k..]);
  }

  /** The first k + 1 records are the first k and one more. */
  lemma MarksNext(ops: seq<Op>, hist: seq<Lines>, k: nat)
    requires |ops| == |hist| && k < |ops|
    ensures Marks(ops[..k + 1], hist[..k + 1])
      == Marks(ops[..k], hist[..k]) + (if ops[k].Boundary? then [Contents(hist[k])] else [])
    ensures Marks(ops[k..], hist[k..])
      == (if ops[k].Boundary? then [Contents(hist[k])] else []) + Marks(ops[k + 1..], hist[k + 1..])
  {
    assert ops[..k + 1] == ops[..k] + [ops[k]] && hist[..k + 1] == hist[..k] + [hist[k]];
    MarksConcat(ops[..k], hist[..k], [ops[k]], [hist[k]]);
    assert ops[k..][1..] == ops[k + 1..] && hist[k..][1..] == hist[k + 1..];
  }

  /** Only which records are boundaries matters. */
  lemma {:induction false} MarksKinds(a: seq<Op>, b: seq<Op>, hist: seq<Lines>)
    requires |a| == |b| == |hist|
    requires forall i :: 0 <= i < |a| ==> a[i].Boundary? == b[i].Boundary?
    ensures Marks(a, hist) == Marks(b, hist)
    decreases |a|
  {
    if a != [] {
      MarksKinds(a[1..], b[1..], hist[1..]);
    }
  }

  /** The history a log stands for. */
  ghost function View(g: Log): History
    requires Chained(g)
  {
    var k := g.cur + 1;
    History(Marks(g.ops[..k], g.hist[..k]), Contents(g.hist[g.cur]), !g.ops[g.cur].Boundary?,
      Marks(g.ops[k..], g.hist[k..]))
  }

  lemma {:induction false} NoMarks(ops: seq<Op>, hist: seq<Lines>)
    requires |ops| == |hist|
    ensures Marks(ops, hist) == [] <==> forall i :: 0 <= i < |ops| ==> !ops[i].Boundary?
    decreases |ops|
  {
    if ops != [] {
      NoMarks(ops[1..], hist[1..]);
      assert forall i :: 0 < i < |ops| ==> ops[i] == ops[1..][i - 1];
      assert forall i :: 0 <= i < |ops| - 1 ==> ops[1..][i] == ops[i + 1];
    }
  }

  /** A delimited log stands for a well-formed history, and what can be undone or redone shows in the links. */
  lemma ViewWf(g: Log)
    requires Chained(g) && Delimited(g)
    ensures Wf(View(g))
    ensures CanUndo(View(g)) <==> g.cur > 0
    ensures CanRedo(View(g)) <==> g.cur < |g.ops| - 1
  {
    var k := g.cur + 1;
    MarksNext(g.ops, g.hist, g.cur);
    NoMarks(g.ops[..g.cur], g.hist[..g.cur]);
    NoMarks(g.ops[k..], g.hist[k..]);
    if k < |g.ops| {
      assert g.ops[k..][|g.ops| - k - 1].Boundary?;
    }
    if g.cur > 0 {
      assert g.ops[..g.cur][0].Boundary?;
    }
  }

  // ---------- how the log changes ----------

  /** A new record behind the current one: everything undone is gone. */
  ghost function Appended(g: Log, op: Op, now: Lines): Log
    requires Chained(g)
  {
    Log(g.ops[..g.cur + 1] + [op], g.hist[..g.cur + 1] + [now], g.cur + 1)
  }

  lemma AppendedChained(g: Log, op: Op, now: Lines)
    requires Chained(g) && Delimited(g) && Step(op, g.hist[g.cur], now, true)
    ensures Chained(Appended(g, op, now)) && Delimited(Appended(g, op, now))
    ensures View(Appended(g, op, now)) ==
      if op.Boundary? then History(View(g).done + [Contents(now)], Contents(now), false, [])
      else Edited(View(g), Contents(now))
  {
    var k := g.cur + 1;
    MarksAppended(g.ops[..k], g.hist[..k], op, now);
    WholeAppended(Appended(g, op, now));
  }

  lemma MarksAppended(ops: seq<Op>, hist: seq<Lines>, op: Op, now: Lines)
    requires |ops| == |hist|
    ensures Marks(ops + [op], hist + [now]) == Marks(ops, hist) + if op.Boundary? then [Contents(now)] else []
  {
    MarksConcat(ops, hist, [op], [now]);
  }

  /** Nothing is undone in a log that ends at its current record. */
  lemma WholeAppended(g: Log)
    requires Chained(g) && g.cur == |g.ops| - 1
    ensures View(g) == History(Marks(g.ops, g.hist), Contents(g.hist[g.cur]), !g.ops[g.cur].Boundary?, [])
  {
    assert g.ops[..g.cur + 1] == g.ops && g.hist[..g.cur + 1] == g.hist;
  }

  /** The same record on the other side of the current position. */
  ghost function Retreated(g: Log): Log
    requires Chained(g) && g.cur > 0
  {
    assert Step(g.ops[g.cur], g.hist[g.cur - 1], g.hist[g.cur], true);
    Log(g.ops[g.cur := Undone(g.ops[g.cur], g.hist[g.cur])], g.hist, g.cur - 1)
  }

  lemma RetreatedChained(g: Log)
    requires Chained(g) && g.cur > 0
    ensures Chained(Retreated(g))
    ensures Marks(Retreated(g).ops, g.hist) == Marks(g.ops, g.hist)
  {
    UndoneStep(g.ops[g.cur], g.hist[g.cur - 1], g.hist[g.cur]);
    MarksKinds(Retreated(g).ops, g.ops, g.hist);
  }

  /** Blocks owned by the lines or the log. */
  ghost function AllOwners(g: Log, id: nat): nat
    requires Chained(g)
  {
    Owners(g.hist[g.cur], id) + LogOwners(g.ops, id)
  }

  lemma RetreatedOwners(g: Log, id: nat)
    requires Chained(g) && g.cur > 0 && Chained(Retreated(g))
    ensures AllOwners(Retreated(g), id) == AllOwners(g, id)
  {
    var op := g.ops[g.cur];
    UndoneOwners(op, g.hist[g.cur - 1], g.hist[g.cur], id);
    LogOwnersUpdate(g.ops, g.cur, Undone(op, g.hist[g.cur]), id);
  }

  ghost function Advanced(g: Log): Log
    requires Chained(g) && g.cur + 1 < |g.ops|
  {
    var k := g.cur + 1;
    assert Step(g.ops[k], g.hist[k - 1], g.hist[k], false);
    Log(g.ops[k := Redone(g.ops[k], g.hist[g.cur])], g.hist, k)
  }

  lemma AdvancedChained(g: Log)
    requires Chained(g) && g.cur + 1 < |g.ops|
    ensures Chained(Advanced(g))
    ensures Marks(Advanced(g).ops, g.hist) == Marks(g.ops, g.hist)
  {
    var op := g.ops[g.cur + 1];
    assert Step(op, g.hist[g.cur], g.hist[g.cur + 1], false);
    RedoneStep(op, g.hist[g.cur], g.hist[g.cur + 1]);
    MarksKinds(Advanced(g).ops, g.ops, g.hist);
  }

  lemma AdvancedOwners(g: Log, id: nat)
    requires Chained(g) && g.cur + 1 < |g.ops| && Chained(Advanced(g))
    ensures AllOwners(Advanced(g), id) == AllOwners(g, id)
  {
    var op := g.ops[g.cur + 1];
    assert Step(op, g.hist[g.cur], g.hist[g.cur + 1], false);
    RedoneOwners(op, g.hist[g.cur], g.hist[g.cur + 1], id);
    LogOwnersUpdate(g.ops, g.cur + 1, Redone(op, g.hist[g.cur]), id);
  }

  // ---------- dropping records at either end ----------

  ghost function WithoutNewest(g: Log): Log
    requires Chained(g) && g.cur + 1 < |g.ops|
  {
    Log(g.ops[..|g.ops| - 1], g.hist[..|g.ops| - 1], g.cur)
  }

  ghost function WithoutOldest(g: Log): Log
    requires Chained(g) && g.cur > 0
  {
    Log(g.ops[1..], g.hist[1..], g.cur - 1)
  }

  lemma NewestDropped(g: Log)
    requires Chained(g) && g.cur + 1 < |g.ops|
    ensures Chained(WithoutNewest(g)) && WithoutNewest(g).hist[g.cur] == g.hist[g.cur]
    ensures forall id: nat ::
      LogOwners(g.ops, id) == LogOwners(WithoutNewest(g).ops, id) + OpOwners(g.ops[|g.ops| - 1], id)
  {
    var n := |g.ops| - 1;
    assert g.ops == g.ops[..n] + [g.ops[n]];
    forall id: nat
      ensures LogOwners(g.ops, id) == LogOwners(g.ops[..n], id) + OpOwners(g.ops[n], id)
    {
      LogOwnersConcat(g.ops[..n], [g.ops[n]], id);
    }
  }

  lemma OldestDropped(g: Log)
    requires Chained(g) && g.cur > 0
    ensures Chained(WithoutOldest(g)) && WithoutOldest(g).hist[g.cur - 1] == g.hist[g.cur]
    ensures forall id: nat :: LogOwners(g.ops, id) == LogOwners(WithoutOldest(g).ops, id) + OpOwners(g.ops[0], id)
  {
    var h := WithoutOldest(g);
    forall i | 0 < i < |h.ops|
      ensures Step(h.ops[i], h.hist[i - 1], h.hist[i], i <= h.cur)
    {
      assert Step(g.ops[i + 1], g.hist[i], g.hist[i + 1], i + 1 <= g.cur);
    }
  }

  /** The counter of fbuf_undo.cpp: the boundaries behind the oldest record. */
  ghost function Count(g: Log): nat
    requires Chained(g)
  {
    |Marks(g.ops[1..], g.hist[1..])|
  }

  lemma CountNewestDropped(g: Log)
    requires Chained(g) && g.cur + 1 < |g.ops|
    ensures Chained(WithoutNewest(g))
    ensures Count(g) == Count(WithoutNewest(g)) + if g.ops[|g.ops| - 1].Boundary? then 1 else 0
  {
    NewestDropped(g);
    var n := |g.ops| - 1;
    var ops, hist := g.ops[1..], g.hist[1..];
    MarksNext(ops, hist, n - 1);
    assert ops[..n] == ops && hist[..n] == hist;
    assert ops[..n - 1] == g.ops[..n][1..] && hist[..n - 1] == g.hist[..n][1..];
  }

  lemma CountOldestDropped(g: Log)
    requires Chained(g) && g.cur > 0
    ensures Chained(WithoutOldest(g))
    ensures Count(g) == Count(WithoutOldest(g)) + if g.ops[1].Boundary? then 1 else 0
    ensures Marks(g.ops, g.hist)
      == (if g.ops[0].Boundary? then [Contents(g.hist[0])] else []) + Marks(g.ops[1..], g.hist[1..])
  {
    OldestDropped(g);
    MarksNext(g.ops[1..], g.hist[1..], 0);
  }

  lemma FirstBoundary(now: Lines)
    ensures var g := Log([Boundary], [now], 0);
      && Chained(g) && Delimited(g) && Count(g) == 0
      && View(g) == History([Contents(now)], Contents(now), false, [])
      && forall id: nat :: LogOwners(g.ops, id) == 0
  {
    var ops, hist := [Boundary], [now];
    assert ops[1..] == [] && hist[1..] == [] && ops[..1] == ops && hist[..1] == hist;
    assert LogOwners(ops[1..], 0) == 0;
    forall id: nat
      ensures LogOwners(ops, id) == 0
    {
      assert LogOwners(ops[1..], id) == 0 && OpOwners(ops[0], id) == 0;
    }
  }

  /** The log without everything undone. */
  ghost function Truncated(g: Log): Log
    requires Chained(g)
  {
    Log(g.ops[..g.cur + 1], g.hist[..g.cur + 1], g.cur)
  }

  lemma TruncatedWithoutNewest(g: Log)
    requires Chained(g) && g.cur + 1 < |g.ops|
    ensures Chained(WithoutNewest(g)) && Truncated(WithoutNewest(g)) == Truncated(g)
  {
    NewestDropped(g);
  }

  lemma TruncatedWhole(g: Log)
    requires Chained(g) && g.cur == |g.ops| - 1
    ensures Truncated(g) == g
  {}

  /** Adding a record means the same before and after the undone records are discarded. */
  lemma TruncatedAppended(g: Log, now: Lines)
    requires Chained(g) && Delimited(g)
    ensures Delimited(Truncated(g)) && Chained(Truncated(g)) && Truncated(Truncated(g)) == Truncated(g)
    ensures Appended(Truncated(g), Boundary, now) == Appended(g, Boundary, now)
  {
    TruncatedWhole(Truncated(g));
  }

  /** A new boundary, as the user sees it. */
  lemma BoundaryView(g: Log)
    requires Chained(g) && Delimited(g)
    ensures Chained(Appended(g, Boundary, g.hist[g.cur]))
    ensures View(Appended(g, Boundary, g.hist[g.cur]))
      == History(View(g).done + [View(g).now], View(g).now, false, [])
  {
    AppendedChained(g, Boundary, g.hist[g.cur]);
  }

  /** An edit behind the newest record, as far as the log is concerned. */
  lemma EditAppended(g: Log, op: Op, now: Lines, live: set<nat>, nextId: nat)
    requires Chained(g) && Delimited(g) && Step(op, g.hist[g.cur], now, true) && !op.Boundary?
    requires op.AltLine? ==> now[op.lineNum] == Empty
    requires Chained(Truncated(g)) && Balanced(g.hist[g.cur], Truncated(g).ops, live, nextId)
    ensures var r := Appended(g, op, now);
      && Chained(r) && Delimited(r) && Count(r) == Count(Truncated(g)) && r.ops == Truncated(g).ops + [op]
      && r.hist[r.cur] == now && Balanced(now, r.ops, live, nextId) && View(r) == Edited(View(g), Contents(now))
  {
    AppendedChained(g, op, now);
    CountAppended(g, op, now);
    BalancedEdit(Truncated(g).ops, op, g.hist[g.cur], now, live, nextId);
  }

  /** A boundary behind the newest record, as far as the log is concerned. */
  lemma BoundaryAppended(g: Log, live: set<nat>, nextId: nat)
    requires Chained(g) && Delimited(g) && g == Truncated(g) && Balanced(g.hist[g.cur], g.ops, live, nextId)
    ensures var now := g.hist[g.cur]; var r := Appended(g, Boundary, now);
      && Chained(r) && Delimited(r) && Count(r) == Count(g) + 1 && r.ops == g.ops + [Boundary] && g.cur == |g.ops| - 1
      && r.hist[r.cur] == now && Balanced(now, r.ops, live, nextId)
  {
    var now := g.hist[g.cur];
    AppendedChained(g, Boundary, now);
    CountAppended(g, Boundary, now);
    BalancedBoundary(now, g.ops, live, nextId);
  }

  lemma CountAppended(g: Log, op: Op, now: Lines)
    requires Chained(g) && Step(op, g.hist[g.cur], now, true)
    ensures Chained(Truncated(g)) && Chained(Appended(g, op, now))
    ensures Count(Appended(g, op, now)) == Count(Truncated(g)) + if op.Boundary? then 1 else 0
  {
    var ops, hist := g.ops[..g.cur + 1], g.hist[..g.cur + 1];
    TailAppended(ops, op);
    TailAppended(hist, now);
    MarksAppended(ops[1..], hist[1..], op, now);
  }

  lemma TailAppended<T>(s: seq<T>, x: T)
    requires s != []
    ensures (s + [x])[1..] == s[1..] + [x]
  {}

  // ---------- the books ----------

  /** Every live block has exactly one owner, a line or a record; nothing else is owned. */
  ghost predicate Balanced(now: Lines, ops: seq<Op>, live: set<nat>, nextId: nat) {
    && (forall id: nat :: Owners(now, id) + LogOwners(ops, id) == if id in live then 1 else 0)
    && (forall id :: id in live ==> id < nextId)
  }

  /** A record may be destroyed: what it owns is live, and nobody else owns it. */
  lemma BeforeFree(now: Lines, ops: seq<Op>, live: set<nat>, nextId: nat, op: Op, rest: seq<Op>)
    requires Balanced(now, ops, live, nextId)
    requires forall id: nat :: LogOwners(ops, id) == LogOwners(rest, id) + OpOwners(op, id)
    ensures forall id: nat :: OpOwners(op, id) <= if id in live then 1 else 0
  {}

  lemma AfterFree(now: Lines, ops: seq<Op>, live: set<nat>, nextId: nat, op: Op, rest: seq<Op>, live': set<nat>)
    requires Balanced(now, ops, live, nextId)
    requires forall id: nat :: LogOwners(ops, id) == LogOwners(rest, id) + OpOwners(op, id)
    requires forall id: nat :: id in live' <==> id in live && OpOwners(op, id) == 0
    ensures Balanced(now, rest, live', nextId)
  {}

  lemma AppendedOwners(ops: seq<Op>, op: Op, id: nat)
    ensures LogOwners(ops + [op], id) == LogOwners(ops, id) + OpOwners(op, id)
  {
    LogOwnersConcat(ops, [op], id);
    assert [op][1..] == [];
  }

  /** An edit moves blocks from the lines to its record. */
  lemma BalancedEdit(ops: seq<Op>, op: Op, a: Lines, b: Lines, live: set<nat>, nextId: nat)
    requires Balanced(a, ops, live, nextId) && Step(op, a, b, true)
    requires op.AltLine? ==> b[op.lineNum] == Empty
    ensures Balanced(b, ops + [op], live, nextId)
  {
    forall id: nat
      ensures Owners(b, id) + LogOwners(ops + [op], id) == Owners(a, id) + LogOwners(ops, id)
    {
      UndoneOwners(op, a, b, id);
      AppendedOwners(ops, op, id);
      if op.DelLines? {
        BlankOwnsNothing(op.n, id);
      }
    }
  }

  lemma BalancedBoundary(now: Lines, ops: seq<Op>, live: set<nat>, nextId: nat)
    ensures Balanced(now, ops + [Boundary], live, nextId) <==> Balanced(now, ops, live, nextId)
  {
    forall id: nat
      ensures LogOwners(ops + [Boundary], id) == LogOwners(ops, id)
    {
      AppendedOwners(ops, Boundary, id);
    }
  }

  lemma BalancedFree(now: Lines, ops: seq<Op>, live: set<nat>, nextId: nat, k: nat)
    requires Balanced(now, ops, live, nextId) && k < |now|
    ensures now[k].Owned? ==> now[k].id in live
    ensures Balanced(now[k := Empty], ops, if now[k].Owned? then live - {now[k].id} else live, nextId)
  {
    forall id: nat
      ensures Owners(now[k := Empty], id) + Owns(now[k], id) == Owners(now, id)
    {
      OwnersUpdate(now, k, Empty, id);
    }
    if now[k].Owned? {
      var x := now[k].id;
      assert Owners(now, x) >= 1 && Owners(now, x) + LogOwners(ops, x) >= 1;
    }
  }

  /** What PutContent leaves in an entry: no block for an empty text. */
  function Stored(nextId: nat, text: string): LineInfo {
    if text == "" then Empty else Owned(nextId, text)
  }

  lemma BalancedPut(now: Lines, ops: seq<Op>, live: set<nat>, nextId: nat, k: nat, text: string)
    requires Balanced(now, ops, live, nextId) && k < |now| && now[k] == Empty
    ensures text == "" ==> Balanced(now[k := Stored(nextId, text)], ops, live, nextId)
    ensures text != "" ==> Balanced(now[k := Stored(nextId, text)], ops, live + {nextId}, nextId + 1)
  {
    forall id: nat
      ensures Owners(now[k := Stored(nextId, text)], id)
        == Owners(now, id) + if id == nextId && text != "" then 1 else 0
    {
      OwnersUpdate(now, k, Stored(nextId, text), id);
    }
  }

  /** New content for the line of the newest record, which altered that line: the record need not change. */
  ghost function Rewritten(g: Log, li: LineInfo): Log
    requires Chained(g) && g.cur == |g.ops| - 1 && g.ops[g.cur].AltLine? && g.cur > 0
  {
    assert Step(g.ops[g.cur], g.hist[g.cur - 1], g.hist[g.cur], true);
    g.(hist := g.hist[g.cur := g.hist[g.cur][g.ops[g.cur].lineNum := li]])
  }

  lemma RewrittenChained(g: Log, li: LineInfo)
    requires Chained(g) && Delimited(g) && g.cur == |g.ops| - 1 && g.ops[g.cur].AltLine?
    ensures g.cur > 0
    ensures Chained(Rewritten(g, li)) && Delimited(Rewritten(g, li))
  {
    assert Step(g.ops[g.cur], g.hist[g.cur - 1], g.hist[g.cur], true);
  }

  /** The marks do not depend on the lines at a record that is no boundary. */
  lemma MarksRewritten(ops: seq<Op>, hist: seq<Lines>, ls: Lines)
    requires |ops| == |hist| > 0 && !ops[|ops| - 1].Boundary?
    ensures Marks(ops, hist[|ops| - 1 := ls]) == Marks(ops, hist)
  {
    var k, h := |ops| - 1, hist[|ops| - 1 := ls];
    MarksNext(ops, hist, k);
    MarksNext(ops, h, k);
    assert h[..k] == hist[..k] && ops[..k + 1] == ops && hist[..k + 1] == hist && h[..k + 1] == h;
  }

  lemma RewrittenView(g: Log, li: LineInfo)
    requires Chained(g) && Delimited(g) && g.cur == |g.ops| - 1 && g.ops[g.cur].AltLine? && g.cur > 0
    requires Chained(Rewritten(g, li))
    ensures Count(Rewritten(g, li)) == Count(g)
    ensures View(Rewritten(g, li)) == Edited(View(g), Contents(Rewritten(g, li).hist[g.cur]))
  {
    var h, k := Rewritten(g, li), g.cur;
    assert h.ops == g.ops && g.ops[..k + 1] == g.ops && g.hist[..k + 1] == g.hist && h.hist[..k + 1] == h.hist;
    MarksRewritten(g.ops, g.hist, h.hist[k]);
    MarksRewritten(g.ops[1..], g.hist[1..], h.hist[k]);
    assert h.hist[1..] == g.hist[1..][k - 1 := h.hist[k]];
  }

  /** What giving line k new content takes and what holds after it. */
  lemma Rewritable(g: Log, li: LineInfo)
    requires Chained(g) && Delimited(g) && g.cur == |g.ops| - 1 && g.ops[g.cur].AltLine?
    ensures g.cur > 0 && g.ops[g.cur].lineNum < |g.hist[g.cur]|
    ensures Chained(Rewritten(g, li)) && Delimited(Rewritten(g, li)) && Count(Rewritten(g, li)) == Count(g)
    ensures Rewritten(g, li).hist[g.cur] == g.hist[g.cur][g.ops[g.cur].lineNum := li]
    ensures View(Rewritten(g, li)) == Edited(View(g), Contents(g.hist[g.cur][g.ops[g.cur].lineNum := li]))
  {
    RewrittenChained(g, li);
    RewrittenView(g, li);
    assert Step(g.ops[g.cur], g.hist[g.cur - 1], g.hist[g.cur], true);
  }

  // ---------- the trim loop ----------

  /** The trim loop stands between two removals: the marks are the newest of done, and once the count is within the
      limit the oldest record is a boundary. */
  ghost predicate Trimming(g: Log, done: seq<Text>, maxUndo: nat) {
    && Chained(g) && g.cur == |g.ops| - 1 && g.ops[g.cur].Boundary?
    && var ms := Marks(g.ops, g.hist);
    && |ms| <= |done| && ms == done[|done| - |ms|..]
    && (Count(g) >= maxUndo || (Count(g) == |done| - 1 && |ms| == |done|))
    && (Count(g) <= maxUndo ==> g.ops[0].Boundary?)
  }

  lemma WholeView(g: Log)
    requires Chained(g) && g.cur == |g.ops| - 1
    ensures View(g).done == Marks(g.ops, g.hist) && View(g).redo == []
    ensures |Marks(g.ops, g.hist)| == Count(g) + if g.ops[0].Boundary? then 1 else 0
  {
    assert g.ops[..g.cur + 1] == g.ops && g.hist[..g.cur + 1] == g.hist && g.ops[g.cur + 1..] == [];
    MarksNext(g.ops, g.hist, 0);
  }

  lemma TrimStart(g: Log, maxUndo: nat)
    requires Chained(g) && Delimited(g) && g.cur == |g.ops| - 1 && g.ops[g.cur].Boundary?
    ensures Trimming(g, View(g).done, maxUndo) && |View(g).done| > 0 && View(g).now == Contents(g.hist[g.cur])
  {
    WholeView(g);
    ViewWf(g);
  }

  lemma TrimNext(g: Log, done: seq<Text>, maxUndo: nat)
    requires Trimming(g, done, maxUndo) && Count(g) > maxUndo
    ensures g.cur > 0 && Trimming(WithoutOldest(g), done, maxUndo)
    ensures Count(g) == Count(WithoutOldest(g)) + if g.ops[1].Boundary? then 1 else 0
  {
    assert |g.ops| > 1;
    CountOldestDropped(g);
    var h := WithoutOldest(g);
    WholeView(g);
    WholeView(h);
    assert Marks(h.ops, h.hist) == done[|done| - |Marks(h.ops, h.hist)|..];
  }

  lemma TrimEnd(g: Log, done: seq<Text>, maxUndo: nat)
    requires Trimming(g, done, maxUndo) && Count(g) <= maxUndo && |done| > 0
    ensures Delimited(g) && Trimmed(done, maxUndo) == Some(View(g).done)
    ensures View(g) == History(View(g).done, Contents(g.hist[g.cur]), false, [])
  {
    WholeView(g);
    TrimmedKeepsNewest(done, maxUndo);
  }

  // ---------- walking over the records of a step ----------

  /** Between two boundaries: ts are the texts at all boundaries, d of them on the done side. */
  ghost predicate Walking(g: Log, ts: seq<Text>, d: nat) {
    && Chained(g) && g.ops[0].Boundary? && g.ops[|g.ops| - 1].Boundary?
    && Marks(g.ops, g.hist) == ts && |Marks(g.ops[..g.cur + 1], g.hist[..g.cur + 1])| == d
  }

  lemma WalkStart(g: Log)
    requires Chained(g) && Delimited(g) && g.ops[g.cur].Boundary?
    ensures Walking(g, View(g).done + View(g).redo, |View(g).done|)
  {
    MarksSplit(g.ops, g.hist, g.cur + 1);
  }

  lemma WalkEnd(g: Log, ts: seq<Text>, d: nat)
    requires Walking(g, ts, d) && g.ops[g.cur].Boundary?
    ensures Delimited(g) && 1 <= d <= |ts| && Count(g) == |ts| - 1
    ensures View(g) == History(ts[..d], ts[d - 1], false, ts[d..])
  {
    MarksSplit(g.ops, g.hist, g.cur + 1);
    MarksNext(g.ops, g.hist, g.cur);
    MarksNext(g.ops, g.hist, 0);
  }

  /** Before and after an undo step. */
  lemma UndoStarts(g: Log)
    requires Chained(g) && Delimited(g) && !View(g).open && CanUndo(View(g))
    ensures Wf(View(g)) && g.cur > 0 && Walking(g, View(g).done + View(g).redo, |View(g).done|)
    ensures Count(g) == |View(g).done| + |View(g).redo| - 1
  {
    ViewWf(g);
    WalkStart(g);
    WalkEnd(g, View(g).done + View(g).redo, |View(g).done|);
  }

  lemma UndoEnds(g: Log, h: History)
    requires Wf(h) && !h.open && CanUndo(h) && Walking(g, h.done + h.redo, |h.done| - 1) && g.ops[g.cur].Boundary?
    ensures Delimited(g) && Count(g) == |h.done| + |h.redo| - 1 && View(g) == Back(h)
  {
    WalkEnd(g, h.done + h.redo, |h.done| - 1);
    BackCut(h.done, h.redo);
  }

  lemma BackCut(done: seq<Text>, redo: seq<Text>)
    requires |done| >= 2
    ensures var ts, d := done + redo, |done| - 1; ts[..d] == done[..d] && ts[d..] == [done[d]] + redo
  {}

  /** Before and after a redo step. */
  lemma RedoStarts(g: Log)
    requires Chained(g) && Delimited(g) && CanRedo(View(g))
    ensures Wf(View(g)) && g.cur + 1 < |g.ops| && g.ops[g.cur].Boundary? && !View(g).open
    ensures Walking(g, View(g).done + View(g).redo, |View(g).done|) && Count(g) == |View(g).done| + |View(g).redo| - 1
  {
    ViewWf(g);
    WalkStart(g);
    WalkEnd(g, View(g).done + View(g).redo, |View(g).done|);
  }

  lemma RedoEnds(g: Log, h: History)
    requires Wf(h) && CanRedo(h) && Walking(g, h.done + h.redo, |h.done| + 1) && g.ops[g.cur].Boundary?
    ensures Delimited(g) && Count(g) == |h.done| + |h.redo| - 1 && View(g) == Forth(h)
  {
    var ts, d := h.done + h.redo, |h.done| + 1;
    WalkEnd(g, ts, d);
    assert ts[..d] == h.done + [h.redo[0]] && ts[d..] == h.redo[1..];
  }

  lemma MarksUpTo(a: seq<Op>, b: seq<Op>, hist: seq<Lines>, k: nat)
    requires |a| == |b| == |hist| && k <= |a|
    requires forall i :: 0 <= i < |a| ==> a[i].Boundary? == b[i].Boundary?
    ensures Marks(a[..k], hist[..k]) == Marks(b[..k], hist[..k])
  {
    MarksKinds(a[..k], b[..k], hist[..k]);
  }

  lemma WalkBack(g: Log, ts: seq<Text>, d: nat)
    requires Walking(g, ts, d) && g.cur > 0
    ensures d >= 1 && Walking(Retreated(g), ts, if g.ops[g.cur].Boundary? then d - 1 else d)
  {
    RetreatedChained(g);
    MarksNext(g.ops, g.hist, g.cur);
    MarksUpTo(Retreated(g).ops, g.ops, g.hist, g.cur);
    WalkCount(g);
  }

  lemma WalkCount(g: Log)
    requires Chained(g) && g.ops[0].Boundary?
    ensures |Marks(g.ops[..g.cur + 1], g.hist[..g.cur + 1])| >= 1
  {
    NoMarks(g.ops[..g.cur + 1], g.hist[..g.cur + 1]);
    assert g.ops[..g.cur + 1][0].Boundary?;
  }

  lemma WalkForth(g: Log, ts: seq<Text>, d: nat)
    requires Walking(g, ts, d) && g.cur + 1 < |g.ops|
    ensures Walking(Advanced(g), ts, if g.ops[g.cur + 1].Boundary? then d + 1 else d)
  {
    AdvancedChained(g);
    MarksNext(g.ops, g.hist, g.cur + 1);
    MarksUpTo(Advanced(g).ops, g.ops, g.hist, g.cur + 2);
  }

  lemma RetreatedBalanced(g: Log, live: set<nat>, nextId: nat)
    requires Chained(g) && g.cur > 0 && Balanced(g.hist[g.cur], g.ops, live, nextId)
    ensures Balanced(g.hist[g.cur - 1], Retreated(g).ops, live, nextId)
  {
    RetreatedChained(g);
    forall id: nat
      ensures AllOwners(Retreated(g), id) == AllOwners(g, id)
    {
      RetreatedOwners(g, id);
    }
    assert forall id: nat ::
      Owners(g.hist[g.cur - 1], id) + LogOwners(Retreated(g).ops, id) == AllOwners(Retreated(g), id);
  }

  lemma AdvancedBalanced(g: Log, live: set<nat>, nextId: nat)
    requires Chained(g) && g.cur + 1 < |g.ops| && Balanced(g.hist[g.cur], g.ops, live, nextId)
    ensures Balanced(g.hist[g.cur + 1], Advanced(g).ops, live, nextId)
  {
    AdvancedChained(g);
    forall id: nat
      ensures AllOwners(Advanced(g), id) == AllOwners(g, id)
    {
      AdvancedOwners(g, id);
    }
    assert forall id: nat ::
      Owners(g.hist[g.cur + 1], id) + LogOwners(Advanced(g).ops, id) == AllOwners(Advanced(g), id);
  }

  /** What redoing the record at position k takes and what holds after it: the next record, or the boundary at the
      start. */
  lemma Redoable(g: Log, k: nat, live: set<nat>, nextId: nat) returns (r: Log)
    requires Chained(g) && Balanced(g.hist[g.cur], g.ops, live, nextId) && k < |g.ops|
    requires (k == g.cur && g.ops[k].Boundary?) || k == g.cur + 1
    ensures Chained(g) && r == if k == g.cur then g else Advanced(g)
    ensures Chained(r) && Step(g.ops[k], g.hist[g.cur], r.hist[r.cur], false)
    ensures r.ops == g.ops[k := Redone(g.ops[k], g.hist[g.cur])] && Balanced(r.hist[r.cur], r.ops, live, nextId)
  {
    r := g;
    if k == g.cur + 1 {
      AdvancedChained(g);
      AdvancedBalanced(g, live, nextId);
      assert Step(g.ops[k], g.hist[g.cur], g.hist[k], false);
      r := Advanced(g);
    }
  }

  // ---------- the end ----------

  lemma TailOwners(ops: seq<Op>, k: nat)
    requires k < |ops|
    ensures forall id: nat :: LogOwners(ops[k..], id) == LogOwners(ops[k + 1..], id) + OpOwners(ops[k], id)
  {
    assert ops[k..][1..] == ops[k + 1..];
  }

  lemma BalancedEmpty(ls: Lines, ops: seq<Op>, live: set<nat>, nextId: nat)
    requires Balanced(ls, ops, live, nextId) && ls == Blank(|ls|)
    ensures Balanced([], ops, live, nextId)
  {
    forall id: nat
      ensures Owners(ls, id) == Owners([], id)
    {
      BlankOwnsNothing(|ls|, id);
    }
  }

  /** With neither lines nor records nothing is allocated. */
  lemma NothingLeft(live: set<nat>, nextId: nat)
    requires Balanced([], [], live, nextId)
    ensures live == {}
  {
    forall id: nat
      ensures id !in live
    {
      assert Owners([], id) + LogOwners([], id) == 0;
    }
  }
}
