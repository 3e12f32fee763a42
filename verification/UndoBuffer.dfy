/** The undo log of a buffer (fbuf_undo.cpp), proved against the value of UndoLog and, through it, against the
    histories of UndoModel. */
module UndoBuffer {
  import opened Wrappers
  import opened UndoModel
  import opened UndoLog
  import opened UndoLines
  import opened UndoList

  ghost predicate Holding(s: seq<EditRec>, ops: seq<Op>)
    reads Elems(s)`op
  {
    |s| == |ops| && forall i :: 0 <= i < |s| ==> s[i].op == ops[i]
  }

  class FBuf {
    const table: LineTable
    const list: EditList
    var undoCount: int
    ghost var g: Log

    ghost function Records(): set<EditRec>
      reads list`recs
    {
      Elems(list.recs)
    }

    /** The list holds the records of g and stands at the same one. */
    ghost predicate Linked()
      reads this`g, list, Records()
    {
      list.Listed() && Holding(list.recs, g.ops) && g.cur == list.cur
    }

    /** The records lead from each state of the lines to the next, the buffer is at the state g.cur, and the books of
        the allocator balance. */
    ghost predicate Logged()
      reads this`g, table
    {
      && table.Buffer() && Chained(g) && table.Now() == g.hist[g.cur]
      && Balanced(table.Now(), g.ops, table.live, table.nextId)
    }

    ghost predicate Valid()
      reads this`g, this`undoCount, list, table, Records()
    {
      Linked() && Logged() && Delimited(g) && undoCount == Count(g)
    }

    /** What the log means to the user. */
    ghost function Story(): (h: History)
      requires Chained(g)
      reads this`g
    {
      View(g)
    }

    /** No undo list at all. */
    ghost predicate Bare()
      reads this`g, this`undoCount, list, table
    {
      && list.NoList() && g == Log([], [], 0) && undoCount == 0
      && table.Buffer() && Balanced(table.Now(), [], table.live, table.nextId)
    }

    lemma {:induction false} ImageOwnsNothing(ls: Lines, id: nat)
      requires forall li :: li in ls ==> !li.Owned?
      ensures Owners(ls, id) == 0
    {
      if ls != [] {
        ImageOwnsNothing(ls[1..], id);
      }
    }

    /** A buffer over a file image; its undo list is one boundary. */
    constructor (image: seq<string>)
      ensures Valid() && Story() == History([image], image, false, [])
      ensures fresh(table) && fresh(list) && fresh(Records())
    {
      var t := new LineTable(image);
      var l := new EditList();
      table, list := t, l;
      undoCount, g := 0, Log([], [], 0);
      new;
      forall id: nat
        ensures Owners(table.Now(), id) == 0
      {
        ImageOwnsNothing(table.Now(), id);
      }
      assert Contents(table.Now()) == image;
      UndoInit();
    }

    /** Undo_Init. */
    method UndoInit()
      requires Bare()
      modifies this`undoCount, this`g, list
      ensures Valid() && fresh(Records())
      ensures Story() == History([Contents(table.Now())], Contents(table.Now()), false, [])
    {
      var er := new EditRec();
      undoCount := 0;
      list.Start(er);
      g := Log([Boundary], [table.Now()], 0);
      FirstBoundary(table.Now());
    }

    // ---------- removing records ----------

    /** Delete0 on a record: its destructor frees what it owns. */
    method Release(op: Op, ghost ops: seq<Op>, ghost rest: seq<Op>)
      requires table.Buffer() && Balanced(table.Now(), ops, table.live, table.nextId)
      requires forall id: nat :: LogOwners(ops, id) == LogOwners(rest, id) + OpOwners(op, id)
      modifies table`live
      ensures Balanced(table.Now(), rest, table.live, table.nextId)
    {
      BeforeFree(table.Now(), ops, table.live, table.nextId, op, rest);
      table.FreeRecord(op);
      AfterFree(table.Now(), ops, old(table.live), table.nextId, op, rest, table.live);
    }

    method DetachNewest() returns (er: EditRec, next: EditRec)
      requires list.Listed() && Holding(list.recs, g.ops) && list.cur + 1 < |list.recs|
      modifies list`newest, list`recs, list.Neighbour(true)`redo
      ensures list.Listed() && Records() <= old(Records()) && Holding(list.recs, g.ops[..|g.ops| - 1])
      ensures er.op == g.ops[|g.ops| - 1] && next.op == g.ops[|g.ops| - 2]
    {
      er, next := list.UnlinkNewest();
    }

    method DetachOldest() returns (er: EditRec, next: EditRec)
      requires list.Listed() && Holding(list.recs, g.ops) && list.cur > 0
      modifies list`oldest, list`recs, list`cur, list.Neighbour(false)`undo
      ensures list.Listed() && Records() <= old(Records()) && Holding(list.recs, g.ops[1..])
      ensures list.cur == old(list.cur) - 1
      ensures er.op == g.ops[0] && next.op == g.ops[1]
    {
      er, next := list.UnlinkOldest();
    }

    method RmvNewest() returns (nextIsBoundary: bool)
      requires Linked() && Logged() && g.cur + 1 < |g.ops|
      modifies this`g, list`newest, list`recs, list.Neighbour(true)`redo, table`live
      ensures Linked() && Logged() && Records() <= old(Records())
      ensures g == WithoutNewest(old(g)) && nextIsBoundary == g.ops[|g.ops| - 1].Boundary?
    {
      var er, next := DetachNewest();
      nextIsBoundary := next.op.Boundary?;
      assert allocated(Records());
      ReleaseNewest(er.op);
    }

    method ReleaseNewest(op: Op)
      requires Logged() && g.cur + 1 < |g.ops| && op == g.ops[|g.ops| - 1]
      modifies this`g, table`live
      ensures Logged() && g == WithoutNewest(old(g))
    {
      NewestDropped(g);
      Release(op, g.ops, WithoutNewest(g).ops);
      g := WithoutNewest(g);
    }

    method RmvOldest() returns (nextIsBoundary: bool)
      requires Linked() && Logged() && g.cur > 0
      modifies this`g, list`oldest, list`recs, list`cur, list.Neighbour(false)`undo, table`live
      ensures Linked() && Logged() && Records() <= old(Records())
      ensures g == WithoutOldest(old(g)) && nextIsBoundary == g.ops[0].Boundary?
    {
      OldestDropped(g);
      var er, next := DetachOldest();
      nextIsBoundary := next.op.Boundary?;
      assert allocated(Records());
      Release(er.op, g.ops, WithoutOldest(g).ops);
      g := WithoutOldest(g);
    }

    /** Undo_RmvOneEdOp_fNextIsBoundary. */
    method RmvOneEdOp(fromListHead: bool) returns (nextIsBoundary: bool)
      requires Linked() && Logged()
      requires if fromListHead then g.cur + 1 < |g.ops| else g.cur > 0
      modifies this`g, list`newest, list`oldest, list`recs, list`cur, table`live
      modifies list.Neighbour(fromListHead)`redo, list.Neighbour(fromListHead)`undo
      ensures Linked() && Logged() && Records() <= old(Records())
      ensures g == if fromListHead then WithoutNewest(old(g)) else WithoutOldest(old(g))
      ensures nextIsBoundary == g.ops[if fromListHead then |g.ops| - 1 else 0].Boundary?
    {
      if fromListHead {
        nextIsBoundary := RmvNewest();
      } else {
        nextIsBoundary := RmvOldest();
      }
    }

    // ---------- adding records ----------

    /** One undone record goes, and with a boundary the count drops. */
    method DiscardNewest()
      requires Linked() && Logged() && undoCount == Count(g) && g.cur + 1 < |g.ops|
      modifies this`g, this`undoCount, list`newest, list`oldest, list`recs, list`cur, table`live
      modifies list.Neighbour(true)`redo, list.Neighbour(true)`undo
      ensures Linked() && Logged() && undoCount == Count(g) && g == WithoutNewest(old(g))
      ensures Records() <= old(Records())
    {
      CountNewestDropped(g);
      if list.newest.op.Boundary? {
        undoCount := undoCount - 1;
      }
      var nextIsBoundary := RmvOneEdOp(true);
    }

    /** The first part of Undo_AddNewEditOpToListHead: every undone record goes. */
    method DiscardUndone()
      requires Linked() && Logged() && undoCount == Count(g)
      modifies this`g, this`undoCount, list, table`live, Records()`redo, Records()`undo
      ensures Linked() && Logged() && undoCount == Count(g) && g == Truncated(old(g))
      ensures Records() <= old(Records())
    {
      while list.newest != list.current
        invariant Linked() && Logged() && undoCount == Count(g) && Records() <= old(Records())
        invariant Truncated(g) == Truncated(old(g))
        decreases |g.ops|
      {
        list.Ends();
        TruncatedWithoutNewest(g);
        DiscardNewest();
      }
      list.Ends();
      TruncatedWhole(g);
    }

    /** The last part of Undo_AddNewEditOpToListHead. The new record says nothing yet, like a boundary. */
    method LinkNewest(er: EditRec)
      requires Linked() && Logged() && Delimited(g) && g == Truncated(g) && er !in Records() && er.op == Boundary
      modifies this`g, list, list.newest`redo, er`redo, er`undo, er`place
      ensures Linked() && Logged() && g == Appended(old(g), Boundary, table.Now()) && Delimited(g)
      ensures Count(g) == Count(old(g)) + 1 && list.newest == er && Records() == old(Records()) + {er}
    {
      BoundaryAppended(g, table.live, table.nextId);
      list.Link(er);
      g := Appended(g, Boundary, g.hist[g.cur]);
    }

    /** Undo_AddNewEditOpToListHead: the undone records go, er becomes the newest and current record. */
    method AddNewEditOpToListHead(er: EditRec)
      requires Valid() && er !in Records() && er.op == Boundary
      modifies this`g, this`undoCount, list, table`live, Records()`redo, Records()`undo, er`redo, er`undo, er`place
      ensures Linked() && Logged() && g == Appended(old(g), Boundary, table.Now()) && undoCount == Count(g) - 1
      ensures list.newest == er && Records() <= old(Records()) + {er} && Delimited(g)
    {
      TruncatedAppended(g, table.Now());
      DiscardUndone();
      LinkNewest(er);
    }

    /** A new record er is in the list, but neither it nor the log knows yet which edit of the lines g0.hist[g0.cur] it
        will describe. */
    ghost predicate Pending(er: EditRec, g0: Log)
      reads this`g, this`undoCount, list, table`live, table`nextId, Records()
    {
      && Linked() && list.newest == er
      && Chained(g0) && Delimited(g0) && g == Appended(g0, Boundary, g0.hist[g0.cur])
      && undoCount == Count(Truncated(g0))
      && Balanced(g0.hist[g0.cur], Truncated(g0).ops, table.live, table.nextId)
    }

    /** The base constructor of an edit record. */
    method NewRecord() returns (er: EditRec)
      requires Valid()
      modifies this`g, this`undoCount, list, table`live, Records()`redo, Records()`undo
      ensures Pending(er, old(g)) && fresh(er) && Records() <= old(Records()) + {er}
    {
      assert allocated(Records());
      CountAppended(g, Boundary, table.Now());
      er := new EditRec();
      AddNewEditOpToListHead(er);
      BalancedBoundary(table.Now(), Truncated(old(g)).ops, table.live, table.nextId);
    }

    /** The record takes its final form: the edit op has led from the lines of g0 to those of the buffer. */
    method Settle(er: EditRec, op: Op, ghost g0: Log)
      requires Pending(er, g0) && table.Buffer() && Step(op, g0.hist[g0.cur], table.Now(), true) && !op.Boundary?
      requires op.AltLine? ==> table.Now()[op.lineNum] == Empty
      modifies this`g, er`op
      ensures Valid() && g == Appended(g0, op, table.Now()) && Story() == Edited(View(g0), Contents(table.Now()))
    {
      list.NewestApart();
      er.op := op;
      g := Appended(g0, op, table.Now());
      EditAppended(g0, op, table.Now(), table.live, table.nextId);
    }

    /** The insertion itself, once its record is in the list. */
    method InsertBehind(er: EditRec, y: nat, n: nat, ghost g0: Log)
      requires Pending(er, g0) && table.Buffer() && table.Now() == g0.hist[g0.cur] && y < |table.Now()| && n >= 1
      modifies this`g, table`lineInfo, table`lineCount, er`op
      ensures Valid() && Records() == old(Records())
      ensures Story() == Edited(View(g0), Contents(Opened(old(table.Now()), y, n)))
    {
      assert allocated(Records());
      var op := table.InsertHole(y, n);
      Settle(er, op, g0);
    }

    /** The deletion itself, once its record is in the list. */
    method DeleteBehind(er: EditRec, first: nat, last: nat, ghost g0: Log)
      requires Pending(er, g0) && table.Buffer() && table.Now() == g0.hist[g0.cur] && first <= last < |table.Now()|
      modifies this`g, table`lineInfo, table`lineCount, er`op
      ensures Valid() && Records() == old(Records())
      ensures Story() == Edited(View(g0), Contents(Closed(old(table.Now()), first, last)))
    {
      assert allocated(Records());
      var op := table.CutLines(first, last);
      Settle(er, op, g0);
    }

    /** InsertLines__ with undo information, past its checks. */
    method InsertPresentLines(y: nat, n: nat)
      requires Valid() && y < |table.Now()| && n >= 1
      modifies this`g, this`undoCount, list, table, Records()`redo, Records()`undo
      ensures Valid() && fresh(Records() - old(Records()))
      ensures Story() == Edited(old(Story()), Contents(Opened(old(table.Now()), y, n)))
    {
      ghost var g0 := g;
      assert Story() == View(g0);
      var er := NewRecord();
      InsertBehind(er, y, n, g0);
    }

    /** InsertLines__ with undo information; at or behind the end of the buffer only room is made. Otherwise there must
        be an undo list. */
    method InsertLines(y: nat, n: int)
      requires Valid() || (Bare() && (n <= 0 || y >= |table.Now()|))
      modifies this`g, this`undoCount, list, table, Records()`redo, Records()`undo
      ensures (if old(Valid()) then Valid() else Bare()) && fresh(Records() - old(Records()))
      ensures StoryOrFirst() == if n <= 0 || y >= |old(table.Now())| then old(StoryOrFirst())
        else Edited(old(StoryOrFirst()), Inserted(old(StoryOrFirst()).now, y, n))
    {
      if n <= 0 {
        return;
      }
      assert allocated(Records());
      if y >= table.lineCount {
        table.LineInfoReserve(y + n);
        return;
      }
      OpenedText(table.Now(), y, n);
      InsertPresentLines(y, n);
    }

    /** DeleteLines__ with undo information, past its checks. */
    method DeletePresentLines(first: nat, last: nat)
      requires Valid() && first <= last < |table.Now()|
      modifies this`g, this`undoCount, list, table, Records()`redo, Records()`undo
      ensures Valid() && fresh(Records() - old(Records()))
      ensures Story() == Edited(old(Story()), Contents(Closed(old(table.Now()), first, last)))
    {
      ghost var g0 := g;
      assert Story() == View(g0);
      var er := NewRecord();
      DeleteBehind(er, first, last, g0);
    }

    /** DeleteLines__ with undo information. */
    method DeleteLines(first: nat, lastLine: nat)
      requires Valid() || (Bare() && (first >= |table.Now()| || first > lastLine))
      modifies this`g, this`undoCount, list, table, Records()`redo, Records()`undo
      ensures (if old(Valid()) then Valid() else Bare()) && fresh(Records() - old(Records()))
      ensures StoryOrFirst() == if first >= |old(table.Now())| || first > lastLine then old(StoryOrFirst())
        else
          var last := if lastLine < |old(table.Now())| then lastLine else |old(table.Now())| - 1;
          Edited(old(StoryOrFirst()), Deleted(old(StoryOrFirst()).now, first, last))
    {
      if first >= table.lineCount || first > lastLine {
        return;
      }
      var last := if lastLine < table.lineCount then lastLine else table.lineCount - 1;
      ClosedText(table.Now(), first, last);
      DeletePresentLines(first, last);
    }

    /** The newest record altered line k, and its content in the buffer is empty for the moment. */
    ghost predicate Altering(k: nat)
      reads this`g, table`lineInfo, table`lineCount
    {
      && g.cur == |g.ops| - 1 && g.ops != [] && g.ops[g.cur].AltLine? && g.ops[g.cur].lineNum == k
      && table.lineCount <= |table.lineInfo| && k < |table.Now()| && table.Now()[k] == Empty
    }

    /** UndoIns_EditLine, the line was altered by the newest record: its content in between is forgotten. */
    method Coalesce(k: nat)
      requires Valid() && g.ops[|g.ops| - 1].AltLine? && g.ops[|g.ops| - 1].lineNum == k
      modifies this`g, table`lineInfo, table`live
      ensures Valid() && Altering(k) && Story() == Edited(old(Story()), Contents(table.Now()))
      ensures table.Now() == old(table.Now())[k := Empty]
    {
      Rewritable(g, Empty);
      BalancedFree(table.Now(), g.ops, table.live, table.nextId, k);
      assert allocated(Records());
      table.FreeEntry(k);
      g := Rewritten(g, Empty);
    }

    /** UndoIns_EditLine, first edit of the line: its content moves into a new record. */
    method AlterBehind(er: EditRec, k: nat, ghost g0: Log)
      requires Pending(er, g0) && table.Buffer() && table.Now() == g0.hist[g0.cur] && k < |table.Now()|
      modifies this`g, table`lineInfo, er`op
      ensures Valid() && Records() == old(Records()) && Altering(k)
      ensures Story() == Edited(View(g0), Contents(table.Now()))
      ensures table.Now() == old(table.Now())[k := Empty]
    {
      assert allocated(Records());
      var op := table.MoveOut(k);
      Settle(er, op, g0);
    }

    /** UndoIns_EditLine, the last step: the new content. */
    method Fill(k: nat, text: string)
      requires Valid() && Altering(k)
      modifies this`g, table`lineInfo, table`live, table`nextId
      ensures Valid() && Story() == Edited(old(Story()), Contents(old(table.Now()))[k := text])
    {
      ghost var li := Stored(table.nextId, text);
      Rewritable(g, li);
      BalancedPut(table.Now(), g.ops, table.live, table.nextId, k, text);
      assert allocated(Records());
      table.PutContent(k, text);
      g := Rewritten(g, li);
      assert Contents(table.Now()) == Contents(old(table.Now()))[k := text];
    }

    /** UndoIns_EditLine without its last step. */
    method Clear(k: nat)
      requires Valid() && k < |table.Now()|
      modifies this`g, this`undoCount, list, table, Records()`redo, Records()`undo
      ensures Valid() && fresh(Records() - old(Records()))
      ensures Altering(k) && table.Now() == old(table.Now())[k := Empty]
      ensures Story() == Edited(old(Story()), Contents(table.Now()))
    {
      if list.newest.op.AltLine? && list.newest.op.lineNum == k {
        Coalesce(k);
      } else {
        FirstAlter(k);
      }
    }

    method FirstAlter(k: nat)
      requires Valid() && k < |table.Now()|
      modifies this`g, this`undoCount, list, table, Records()`redo, Records()`undo
      ensures Valid() && fresh(Records() - old(Records()))
      ensures Altering(k) && table.Now() == old(table.Now())[k := Empty]
      ensures Story() == Edited(old(Story()), Contents(table.Now()))
    {
      ghost var g0 := g;
      assert Story() == View(g0);
      var er := NewRecord();
      AlterBehind(er, k, g0);
    }

    method Rewrite(k: nat, text: string)
      requires Valid() && k < |table.Now()|
      modifies this`g, this`undoCount, list, table, Records()`redo, Records()`undo
      ensures Valid() && fresh(Records() - old(Records()))
      ensures Story() == Edited(old(Story()), Contents(old(table.Now()))[k := text])
    {
      ghost var now := table.Now();
      Clear(k);
      assert Contents(table.Now())[k := text] == Contents(now)[k := text];
      Fill(k, text);
    }

    /** The history of a buffer without undo list is that of the first boundary it will get. */
    ghost function StoryOrFirst(): (h: History)
      requires Valid() || Bare()
      reads this`g, this`undoCount, list, table, Records()
    {
      if Valid() then Story() else History([Contents(table.Now())], Contents(table.Now()), false, [])
    }

    /** UndoIns_EditLine: from whatever history, the new text of the line, and nothing left to redo. */
    method EditLine(k: nat, text: string)
      requires (Valid() || Bare()) && k < |table.Now()|
      modifies this`g, this`undoCount, list, table, Records()`redo, Records()`undo
      ensures Valid() && fresh(Records() - old(Records()))
      ensures Story() == Edited(old(StoryOrFirst()), Contents(old(table.Now()))[k := text])
    {
      if list.newest == null {
        UndoInit();
      }
      Rewrite(k, text);
    }

    // ---------- boundaries ----------

    /** The body of the trim loop. */
    method TrimOldest(ghost done: seq<Text>, ghost maxUndo: nat)
      requires Linked() && Logged() && undoCount == Count(g) && Trimming(g, done, maxUndo) && undoCount > maxUndo
      modifies this`g, this`undoCount, list, table`live, Records()`redo, Records()`undo
      ensures Linked() && Logged() && undoCount == Count(g) && Trimming(g, done, maxUndo) && |g.ops| < |old(g.ops)|
      ensures Records() <= old(Records())
    {
      TrimNext(g, done, maxUndo);
      var nextIsBoundary := RmvOneEdOp(false);
      if nextIsBoundary {
        undoCount := undoCount - 1;
      }
    }

    /** The trim loop of UndoInsBoundary. */
    method TrimLoop(maxUndo: int, ghost done: seq<Text>)
      requires maxUndo >= 0 && Linked() && Logged() && undoCount == Count(g) && Trimming(g, done, maxUndo)
      modifies this`g, this`undoCount, list, table`live, Records()`redo, Records()`undo
      ensures Linked() && Logged() && undoCount == Count(g) && Trimming(g, done, maxUndo) && undoCount <= maxUndo
      ensures Records() <= old(Records())
    {
      ghost var all := Records();
      while undoCount > maxUndo
        invariant Linked() && Logged() && undoCount == Count(g) && Trimming(g, done, maxUndo) && Records() <= all
        decreases |g.ops|
      {
        TrimOldest(done, maxUndo);
      }
    }

    method Trim(maxUndo: int)
      requires Valid() && g.cur == |g.ops| - 1 && g.ops[g.cur].Boundary? && maxUndo >= 0
      modifies this`g, this`undoCount, list, table`live, Records()`redo, Records()`undo
      ensures Valid() && Records() <= old(Records())
      ensures Trimmed(old(Story()).done, maxUndo) == Some(Story().done)
      ensures Story() == History(Story().done, old(Story()).now, false, [])
    {
      ghost var done := Story().done;
      TrimStart(g, maxUndo);
      TrimLoop(maxUndo, done);
      TrimEnd(g, done, maxUndo);
    }

    method AddBoundary()
      requires Valid()
      modifies this`g, this`undoCount, list, table`live, Records()`redo, Records()`undo
      ensures Valid() && fresh(Records() - old(Records())) && g == Appended(old(g), Boundary, table.Now())
    {
      var er := NewBoundary();
      CountBoundary();
    }

    method NewBoundary() returns (er: EditRec)
      requires Valid()
      modifies this`g, this`undoCount, list, table`live, Records()`redo, Records()`undo
      ensures Linked() && Logged() && Delimited(g) && undoCount == Count(g) - 1
      ensures g == Appended(old(g), Boundary, table.Now()) && fresh(er) && Records() <= old(Records()) + {er}
    {
      assert allocated(Records());
      er := new EditRec();
      AddNewEditOpToListHead(er);
    }

    method CountBoundary()
      requires Linked() && Logged() && Delimited(g) && undoCount == Count(g) - 1
      modifies this`undoCount
      ensures Valid()
    {
      undoCount := undoCount + 1;
    }

    /** UndoInsBoundary. With edits pending, a negative limit would run off the list. */
    method UndoInsBoundary(maxUndo: int)
      requires Valid() && (Story().open ==> maxUndo >= 0)
      modifies this`g, this`undoCount, list, table`live, Records()`redo, Records()`undo
      ensures Valid() && fresh(Records() - old(Records()))
      ensures Bounded(old(Story()), maxUndo) == Some(Story())
    {
      if !list.current.op.Boundary? {
        BoundaryView(g);
        AddBoundary();
        Trim(maxUndo);
      }
    }

    // ---------- user steps ----------

    /** Undo_EdOpUndo. */
    method EdOpUndo() returns (more: bool)
      requires Linked() && Logged() && g.cur > 0
      modifies this`g, list`current, list`cur, table`lineInfo, table`lineCount, list.current`op
      ensures Linked() && Logged() && g == Retreated(old(g))
      ensures more == !g.ops[g.cur].Boundary?
    {
      RetreatedChained(g);
      RetreatedBalanced(g, table.live, table.nextId);
      UndoCurrent();
      list.MoveBack();
      more := !list.current.op.Boundary?;
    }

    /** The record's VUndo. */
    method UndoCurrent()
      requires Linked() && Logged() && g.cur > 0
      modifies this`g, table`lineInfo, table`lineCount, list.current`op
      ensures g == Retreated(old(g)) && Holding(list.recs, g.ops) && list.Listed()
      ensures table.Buffer() && table.Now() == g.hist[g.cur]
    {
      assert Step(g.ops[g.cur], g.hist[g.cur - 1], g.hist[g.cur], true);
      list.CurrentApart();
      assert allocated(Records());
      var op := table.VUndo(list.current.op, g.hist[g.cur - 1]);
      list.current.op := op;
      g := Retreated(g);
    }

    /** Undo_EdOpRedo. The current pointer runs one record ahead of the lines: the record it points to is not yet
        redone; only the boundary it starts at needs no redoing. */
    method EdOpRedo() returns (more: bool)
      requires list.Listed() && Holding(list.recs, g.ops) && Logged() && list.cur + 1 < |list.recs|
      requires (list.cur == g.cur && g.ops[g.cur].Boundary?) || list.cur == g.cur + 1
      modifies this`g, list`current, list`cur, table`lineInfo, table`lineCount, list.current`op
      ensures list.Listed() && Holding(list.recs, g.ops) && Logged() && list.cur == old(list.cur) + 1
      ensures g == if old(list.cur) == old(g.cur) then old(g) else Advanced(old(g))
      ensures more == !g.ops[list.cur].Boundary?
    {
      RedoCurrent();
      list.MoveForth();
      more := !list.current.op.Boundary?;
    }

    /** The record's VRedo. */
    method RedoCurrent()
      requires list.Listed() && Holding(list.recs, g.ops) && Logged()
      requires (list.cur == g.cur && g.ops[g.cur].Boundary?) || list.cur == g.cur + 1
      modifies this`g, table`lineInfo, table`lineCount, list.current`op
      ensures list.Listed() && Holding(list.recs, g.ops) && Logged()
      ensures g == if list.cur == old(g.cur) then old(g) else Advanced(old(g))
    {
      ghost var r := Redoable(g, list.cur, table.live, table.nextId);
      RedoRecord(r.hist[r.cur]);
      g := r;
    }

    /** The call of VRedo: from the lines of the buffer to the lines b. */
    method RedoRecord(ghost b: Lines)
      requires list.Listed() && Holding(list.recs, g.ops) && table.Buffer()
      requires Step(g.ops[list.cur], table.Now(), b, false)
      modifies table`lineInfo, table`lineCount, list.current`op
      ensures list.Listed() && table.Buffer() && table.Now() == b
      ensures Holding(list.recs, g.ops[list.cur := Redone(g.ops[list.cur], old(table.Now()))])
    {
      list.CurrentApart();
      assert allocated(Records());
      var op := table.VRedo(list.current.op, b);
      list.current.op := op;
    }

    /** One record back, in the middle of a walk. */
    method WalkUndo(ghost ts: seq<Text>, ghost d: nat) returns (more: bool)
      requires Linked() && Logged() && g.cur > 0 && Walking(g, ts, d)
      modifies this`g, list`current, list`cur, table`lineInfo, table`lineCount, Records()`op
      ensures Linked() && Logged() && g.cur == old(g.cur) - 1
      ensures d >= 1 && Walking(g, ts, if old(g).ops[old(g).cur].Boundary? then d - 1 else d)
      ensures more == !g.ops[g.cur].Boundary?
    {
      WalkBack(g, ts, d);
      more := EdOpUndo();
    }

    /** The loop of Undo_UserStep_UndoOrRedo, undoing: back to the boundary before. */
    method UndoLoop(ghost ts: seq<Text>, ghost d: nat)
      requires Linked() && Logged() && g.cur > 0 && Walking(g, ts, d) && g.ops[g.cur].Boundary?
      modifies this`g, list`current, list`cur, table`lineInfo, table`lineCount, Records()`op
      ensures Linked() && Logged() && d >= 1 && Walking(g, ts, d - 1) && g.ops[g.cur].Boundary?
    {
      var more := WalkUndo(ts, d);
      while more
        invariant Linked() && Logged() && Walking(g, ts, d - 1) && more == !g.ops[g.cur].Boundary?
        decreases g.cur
      {
        more := WalkUndo(ts, d - 1);
      }
    }

    method UndoStepBack()
      requires Valid() && !Story().open && CanUndo(Story())
      modifies this`g, list`current, list`cur, table`lineInfo, table`lineCount, Records()`op
      ensures Valid() && Story() == Back(old(Story()))
    {
      ghost var h := Story();
      UndoStarts(g);
      UndoLoop(h.done + h.redo, |h.done|);
      UndoEnds(g, h);
    }

    /** The current pointer is one record ahead of the lines, in the middle of a walk. */
    ghost predicate Ahead(ts: seq<Text>, d: nat)
      reads this`g, list, table, Records()
    {
      && list.Listed() && Holding(list.recs, g.ops) && Logged() && Walking(g, ts, d) && list.cur == g.cur + 1
    }

    /** One record forth, in the middle of a walk. */
    method WalkRedo(ghost ts: seq<Text>, ghost d: nat) returns (more: bool)
      requires Ahead(ts, d) && !g.ops[list.cur].Boundary?
      modifies this`g, list`current, list`cur, table`lineInfo, table`lineCount, Records()`op
      ensures Ahead(ts, d) && g.cur == old(g.cur) + 1 && |g.ops| == |old(g).ops|
      ensures more == !g.ops[list.cur].Boundary?
    {
      WalkForth(g, ts, d);
      more := EdOpRedo();
    }

    /** The loop of Undo_UserStep_UndoOrRedo, redoing: forth until the current record is a boundary again. */
    method RedoLoop(ghost ts: seq<Text>, ghost d: nat)
      requires Linked() && Logged() && g.cur + 1 < |g.ops| && Walking(g, ts, d) && g.ops[g.cur].Boundary?
      modifies this`g, list`current, list`cur, table`lineInfo, table`lineCount, Records()`op
      ensures Ahead(ts, d) && g.ops[list.cur].Boundary?
    {
      var more := EdOpRedo();
      while more
        invariant Ahead(ts, d) && more == !g.ops[list.cur].Boundary?
        decreases |g.ops| - g.cur
      {
        more := WalkRedo(ts, d);
      }
    }

    /** A boundary needs no redoing: the lines are already those at the current pointer. */
    method Arrive(ghost ts: seq<Text>, ghost d: nat)
      requires Ahead(ts, d) && g.ops[list.cur].Boundary?
      modifies this`g
      ensures Linked() && Logged() && Walking(g, ts, d + 1) && g.ops[g.cur].Boundary?
    {
      WalkForth(g, ts, d);
      AdvancedChained(g);
      AdvancedBalanced(g, table.live, table.nextId);
      assert Step(g.ops[g.cur + 1], g.hist[g.cur], g.hist[g.cur + 1], false);
      g := Advanced(g);
    }

    method RedoWalk(ghost ts: seq<Text>, ghost d: nat)
      requires Linked() && Logged() && g.cur + 1 < |g.ops| && Walking(g, ts, d) && g.ops[g.cur].Boundary?
      modifies this`g, list`current, list`cur, table`lineInfo, table`lineCount, Records()`op
      ensures Linked() && Logged() && Walking(g, ts, d + 1) && g.ops[g.cur].Boundary?
    {
      RedoLoop(ts, d);
      Arrive(ts, d);
    }

    method RedoStepForth()
      requires Valid() && CanRedo(Story())
      modifies this`g, list`current, list`cur, table`lineInfo, table`lineCount, Records()`op
      ensures Valid() && Story() == Forth(old(Story()))
    {
      ghost var h := Story();
      RedoStarts(g);
      RedoWalk(h.done + h.redo, |h.done|);
      RedoEnds(g, h);
    }

    /** AnythingToUndoRedo. */
    method AnythingToUndoRedo(redo: bool) returns (r: bool)
      requires Valid() || Bare()
      ensures Valid() || Bare()
      ensures r == if redo then CanRedo(StoryOrFirst()) else CanUndo(StoryOrFirst())
    {
      if list.current == null {
        assert Bare();
        return false;
      }
      assert Valid();
      ViewWf(g);
      list.Ends();
      r := if redo then list.current.redo != null else list.current.undo != null;
    }

    /** What UndoInsBoundary leaves for the undo step behind it: with no room for a boundary before the pending edits,
        the list is a single record, and both the step and a trim loop with a negative limit would go on from a null
        pointer. */
    method BoundaryBeforeUndo(maxUndo: nat)
      requires Valid() && CanUndo(Story())
      modifies this`g, this`undoCount, list, table`live, Records()`redo, Records()`undo
      ensures Valid() && Bounded(old(Story()), maxUndo) == Some(Story())
      ensures list.current.undo == null <==> old(Story()).open && maxUndo < 1
      ensures old(Story()).open && maxUndo < 1 ==> list.oldest.redo == null
    {
      ViewWf(g);
      BoundedStep(Story(), maxUndo);
      UndoInsBoundary(maxUndo);
      ViewWf(g);
      list.Ends();
    }

    method UndoUserStep(maxUndo: int)
      requires Valid() && CanUndo(Story()) && (Story().open ==> maxUndo >= 1)
      modifies this`g, this`undoCount, list, table, Records()
      ensures Valid() && fresh(Records() - old(Records())) && UndoStep(old(Story()), maxUndo) == Next(Story(), true)
    {
      ViewWf(g);
      StepSafety(Story(), maxUndo);
      assert allocated(Records());
      UndoInsBoundary(maxUndo);
      UndoStepBack();
    }

    method RedoUserStep(maxUndo: int)
      requires Valid() && CanRedo(Story())
      modifies this`g, this`undoCount, list, table, Records()
      ensures Valid() && fresh(Records() - old(Records())) && RedoStep(old(Story()), maxUndo) == Next(Story(), true)
    {
      ViewWf(g);
      assert allocated(Records());
      UndoInsBoundary(maxUndo);
      RedoStepForth();
    }

    /** Undo_UserStep_UndoOrRedo refines the steps of the history. With edits pending and a limit below one, the
        boundary it inserts would trim away everything there is to undo, and the step would run off the list. */
    method UserStepUndoOrRedo(redo: bool, maxUndo: int) returns (moved: bool)
      requires (Valid() || Bare()) && (!redo && StoryOrFirst().open ==> maxUndo >= 1)
      modifies this`g, this`undoCount, list, table, Records()
      ensures (if old(Valid()) then Valid() else Bare()) && fresh(Records() - old(Records()))
      ensures (if redo then RedoStep(old(StoryOrFirst()), maxUndo) else UndoStep(old(StoryOrFirst()), maxUndo))
        == Next(StoryOrFirst(), moved)
    {
      moved := false;
      if list.current != null {
        assert Valid();
        moved := UserStep(redo, maxUndo);
      }
    }

    /** ... with an undo list. */
    method UserStep(redo: bool, maxUndo: int) returns (moved: bool)
      requires Valid() && (!redo && Story().open ==> maxUndo >= 1)
      modifies this`g, this`undoCount, list, table, Records()
      ensures Valid() && fresh(Records() - old(Records()))
      ensures (if redo then RedoStep(old(Story()), maxUndo) else UndoStep(old(Story()), maxUndo))
        == Next(Story(), moved)
    {
      moved := AnythingToUndoRedo(redo);
      if !moved {
        return;
      }
      if redo {
        RedoUserStep(maxUndo);
      } else {
        UndoUserStep(maxUndo);
      }
    }

    // ---------- runs ----------

    method EnactEdit(a: Action, ghost maxUndo: int)
      requires Valid() && InRange(Story().now, a) && (a.Alter? || a.Insert? || a.Delete?)
      modifies this`g, this`undoCount, list, table, Records()`redo, Records()`undo
      ensures Valid() && fresh(Records() - old(Records())) && Some(Story()) == After(old(Story()), a, maxUndo)
    {
      assert Valid() && Story() == StoryOrFirst() && Story().now == Contents(table.Now());
      if a.Alter? {
        EditLine(a.k, a.text);
      } else if a.Insert? {
        InsertLines(a.y, a.n);
      } else {
        DeleteLines(a.first, a.last);
      }
    }

    method EnactStep(redo: bool, maxUndo: int)
      requires Valid() && maxUndo >= 1
      modifies this`g, this`undoCount, list, table, Records()
      ensures Valid() && fresh(Records() - old(Records()))
      ensures Some(Story()) == Apply(old(Story()), if redo then Redo else Undo, maxUndo)
    {
      ghost var h := Story();
      var moved := UserStep(redo, maxUndo);
      StepApplied(h, redo, maxUndo, Story(), moved);
    }

    /** One action of the user. */
    method Enact(a: Action, maxUndo: int)
      requires Valid() && maxUndo >= 1 && InRange(Story().now, a)
      modifies this`g, this`undoCount, list, table, Records()
      ensures Valid() && fresh(Records() - old(Records())) && Some(Story()) == After(old(Story()), a, maxUndo)
    {
      if a.Close? {
        UndoInsBoundary(maxUndo);
      } else if a.UndoRedo? {
        EnactStep(a.redo, maxUndo);
      } else {
        EnactEdit(a, maxUndo);
      }
    }

    /** Any run of edits, boundaries, undos and redos on the buffer is the run of the commands to which they come. */
    method EnactAll(acts: seq<Action>, maxUndo: int)
      requires Valid() && maxUndo >= 1 && Fits(Story(), acts, maxUndo)
      modifies this`g, this`undoCount, list, table, Records()
      ensures Valid() && fresh(Records() - old(Records()))
      ensures Some(Story()) == Run(old(Story()), Commands(old(Story()), acts, maxUndo), maxUndo)
      decreases |acts|
    {
      if acts != [] {
        CommandsRun(Story(), acts, maxUndo, Run(Story(), Commands(Story(), acts, maxUndo), maxUndo));
        assert allocated(Records());
        Enact(acts[0], maxUndo);
        EnactAll(acts[1..], maxUndo);
      }
    }

    /** Any edits after a boundary, and one undo step: the lines are those at the boundary again. */
    method EditThenUndo(acts: seq<Action>, maxUndo: int)
      requires Valid() && !Story().open && maxUndo >= 1 && EditsOnly(acts) && Fits(Story(), acts, maxUndo)
      requires Commands(Story(), acts, maxUndo) != []
      modifies this`g, this`undoCount, list, table, Records()
      ensures Valid() && Contents(table.Now()) == Contents(old(table.Now())) && CanRedo(Story())
    {
      ghost var h := Story();
      ViewWf(g);
      EnactAll(acts, maxUndo);
      UndoAfterEdits(h, acts, Story(), maxUndo);
      EnactStep(false, maxUndo);
    }

    // ---------- the end of the log and of the buffer ----------

    /** The records, if any, are those of g, whatever the lines. */
    ghost predicate Owned()
      reads this`g, list, table, Records()
    {
      && (if g.ops == [] then list.NoList() else list.Listed()) && Holding(list.recs, g.ops)
      && table.Buffer() && Balanced(table.Now(), g.ops, table.live, table.nextId)
    }

    /** Undo_DeleteAll: every record is destroyed, with what it owns. */
    method UndoDeleteAll()
      requires Owned()
      modifies this`g, this`undoCount, list, table`live
      ensures Bare()
    {
      ghost var k := 0;
      ghost var recs, ops := list.recs, g.ops;
      while list.oldest != null
        invariant k <= |ops| && recs == list.recs && Holding(recs, ops) && Doubly(recs) && list.oldest == At(recs, k)
        invariant Balanced(table.Now(), ops[k..], table.live, table.nextId)
        decreases |ops| - k
      {
        var er := list.oldest;
        assert recs[k].redo == At(recs, k + 1);
        list.oldest := er.redo;
        TailOwners(ops, k);
        assert allocated(Records());
        Release(er.op, ops[k..], ops[k + 1..]);
        k := k + 1;
      }
      list.Clear();
      undoCount := 0;
      g := Log([], [], 0);
    }

    /** Undo_Reinit: the lines stay, their history, if there is one, is forgotten. */
    method UndoReinit()
      requires Owned()
      modifies this`g, this`undoCount, list, table`live
      ensures Valid() && fresh(Records()) && table.Now() == old(table.Now())
      ensures Story() == History([Contents(table.Now())], Contents(table.Now()), false, [])
    {
      UndoDeleteAll();
      UndoInit();
    }

    /** FreeLinesAndUndoInfo: every block is freed, none twice. */
    method FreeLinesAndUndoInfo()
      requires Owned()
      modifies this`g, this`undoCount, list, table
      ensures Bare() && table.Now() == [] && table.live == {}
    {
      var iy := 0;
      while iy < table.lineCount
        invariant Owned() && iy <= |table.Now()|
        invariant forall i :: 0 <= i < iy ==> table.Now()[i] == Empty
        decreases table.lineCount - iy
      {
        BalancedFree(table.Now(), g.ops, table.live, table.nextId, iy);
        assert allocated(Records());
        table.FreeEntry(iy);
        iy := iy + 1;
      }
      assert allocated(Records()) && table.Now() == Blank(|table.Now()|);
      BalancedEmpty(table.Now(), g.ops, table.live, table.nextId);
      table.FreeTable();
      UndoDeleteAll();
      NothingLeft(table.live, table.nextId);
    }
  }
}
