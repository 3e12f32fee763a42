/** The doubly linked list of edit records with its three pointers: newest, current and oldest. */
module UndoList {
  import opened Wrappers
  import opened UndoLog

  class EditRec {
    var redo: EditRec?
    var undo: EditRec?
    var op: Op
    /** The place in the list, counted from any start: what tells the records of a list apart. */
    ghost var place: int

    constructor ()
      ensures op == Boundary && redo == null && undo == null
    {
      redo, undo, op := null, null, Boundary;
    }
  }

  /** The record at position i; null before the oldest and after the newest. */
  ghost function At(s: seq<EditRec>, i: int): EditRec? {
    if 0 <= i < |s| then s[i] else null
  }

  /** Linked both ways, at consecutive places. */
  ghost predicate Doubly(s: seq<EditRec>)
    reads Elems(s)`redo, Elems(s)`undo, Elems(s)`place
  {
    && (forall i {:trigger s[i].undo} :: 0 <= i < |s| ==> s[i].undo == At(s, i - 1) && s[i].place == s[0].place + i)
    && (forall i {:trigger s[i].redo} :: 0 <= i < |s| ==> s[i].redo == At(s, i + 1) && s[i].place == s[0].place + i)
  }

  method CutLast(next: EditRec, ghost s: seq<EditRec>)
    requires Doubly(s) && |s| >= 2 && next == s[|s| - 2]
    modifies next`redo
    ensures Doubly(s[..|s| - 1])
  {
    next.redo := null;
    ghost var r := s[..|s| - 1];
    forall i | 0 <= i < |r|
      ensures r[i].undo == At(r, i - 1) && r[i].redo == At(r, i + 1) && r[i].place == r[0].place + i
    {
      assert old(s[i].undo == At(s, i - 1) && s[i].redo == At(s, i + 1));
    }
  }

  method CutFirst(next: EditRec, ghost s: seq<EditRec>)
    requires Doubly(s) && |s| >= 2 && next == s[1]
    modifies next`undo
    ensures Doubly(s[1..])
  {
    assert s[1].redo == At(s, 2);
    next.undo := null;
    ghost var r := s[1..];
    forall i | 0 <= i < |r|
      ensures r[i].undo == At(r, i - 1) && r[i].redo == At(r, i + 1) && r[i].place == r[0].place + i
    {
      assert old(s[i + 1].undo == At(s, i) && s[i + 1].redo == At(s, i + 2));
    }
  }

  method JoinLast(er: EditRec, last: EditRec, ghost s: seq<EditRec>)
    requires Doubly(s) && |s| >= 1 && last == s[|s| - 1] && er !in s
    modifies last`redo, er`redo, er`undo, er`place
    ensures Doubly(s + [er])
  {
    assert s[0].redo == At(s, 1) && last.redo == At(s, |s|);
    last.redo := er;
    er.redo := null;
    er.undo := last;
    er.place := last.place + 1;
    ghost var r := s + [er];
    forall i | 0 <= i < |r|
      ensures r[i].undo == At(r, i - 1) && r[i].redo == At(r, i + 1) && r[i].place == r[0].place + i
    {
      assert i < |s| ==> old(s[i].undo == At(s, i - 1) && s[i].redo == At(s, i + 1));
    }
  }

  class EditList {
    var newest: EditRec?
    var current: EditRec?
    var oldest: EditRec?
    ghost var recs: seq<EditRec>
    ghost var cur: nat

    /** recs, oldest first, with the current pointer at position cur; or no list at all. */
    ghost predicate Listed()
      reads this, Elems(recs)`redo, Elems(recs)`undo, Elems(recs)`place
    {
      && cur < |recs| && oldest == recs[0] && newest == recs[|recs| - 1] && current == recs[cur]
      && Doubly(recs)
    }

    lemma Ends()
      requires Listed()
      ensures newest == current <==> cur == |recs| - 1
      ensures current.undo == At(recs, cur - 1) && current.redo == At(recs, cur + 1)
    {
      assert recs[cur].undo == At(recs, cur - 1) && newest.redo == At(recs, |recs|);
    }

    lemma CurrentApart()
      requires Listed()
      ensures forall i :: 0 <= i < |recs| && i != cur ==> recs[i] != current
    {
      assert current.undo == At(recs, cur - 1);
      forall i | 0 <= i < |recs| && i != cur
        ensures recs[i] != current
      {
        assert recs[i].undo == At(recs, i - 1);
      }
    }

    lemma NewestApart()
      requires Listed()
      ensures forall i :: 0 <= i < |recs| - 1 ==> recs[i] != newest
    {
      assert newest.undo == At(recs, |recs| - 2);
      forall i | 0 <= i < |recs| - 1
        ensures recs[i] != newest
      {
        assert recs[i].undo == At(recs, i - 1);
      }
    }

    /** The record next to the newest or to the oldest. */
    ghost function Neighbour(fromListHead: bool): EditRec
      requires |recs| >= 2
      reads this`recs
    {
      recs[if fromListHead then |recs| - 2 else 1]
    }

    ghost predicate NoList()
      reads this
    {
      recs == [] && newest == null && current == null && oldest == null
    }

    constructor ()
      ensures NoList()
    {
      newest, current, oldest := null, null, null;
      recs := [];
    }

    /** The records of a first boundary: EditRec's constructor for an empty list. */
    method Start(er: EditRec)
      requires NoList() && er.redo == null && er.undo == null
      modifies this
      ensures Listed() && recs == [er] && cur == 0
    {
      newest, current, oldest := er, er, er;
      recs, cur := [er], 0;
    }

    /** Undo_RmvOneEdOp_fNextIsBoundary, the newest record. */
    method UnlinkNewest() returns (er: EditRec, next: EditRec)
      requires Listed() && cur + 1 < |recs|
      modifies this`newest, this`recs, Neighbour(true)`redo
      ensures Listed() && recs == old(recs)[..|old(recs)| - 1]
      ensures er == old(recs)[|recs|] && next == recs[|recs| - 1]
    {
      ghost var n := |recs| - 1;
      assert recs[n].undo == At(recs, n - 1);
      er := newest;
      next := er.undo;
      CutLast(next, recs);
      newest := next;
      recs := recs[..n];
    }

    /** Undo_RmvOneEdOp_fNextIsBoundary, the oldest record. */
    method UnlinkOldest() returns (er: EditRec, next: EditRec)
      requires Listed() && cur > 0
      modifies this`oldest, this`recs, this`cur, Neighbour(false)`undo
      ensures Listed() && recs == old(recs)[1..] && cur == old(cur) - 1
      ensures er == old(recs)[0] && next == recs[0]
    {
      assert recs[0].redo == At(recs, 1);
      er := oldest;
      next := er.redo;
      CutFirst(next, recs);
      oldest := next;
      recs := recs[1..];
      cur := cur - 1;
    }

    /** The last part of Undo_AddNewEditOpToListHead. */
    method Link(er: EditRec)
      requires Listed() && cur == |recs| - 1 && er !in recs
      modifies this, newest`redo, er`redo, er`undo, er`place
      ensures Listed() && recs == old(recs) + [er] && cur == |recs| - 1
    {
      JoinLast(er, newest, recs);
      newest := er;
      current := er;
      recs, cur := recs + [er], |recs|;
    }

    /** The last lines of Undo_DeleteAll. */
    method Clear()
      modifies this
      ensures NoList()
    {
      newest, current, oldest := null, null, null;
      recs, cur := [], 0;
    }

    method MoveBack()
      requires Listed() && cur > 0
      modifies this`current, this`cur
      ensures Listed() && cur == old(cur) - 1
    {
      assert recs[cur].undo == At(recs, cur - 1);
      current := current.undo;
      cur := cur - 1;
    }

    method MoveForth()
      requires Listed() && cur + 1 < |recs|
      modifies this`current, this`cur
      ensures Listed() && cur == old(cur) + 1
    {
      assert recs[cur].redo == At(recs, cur + 1);
      current := current.redo;
      cur := cur + 1;
    }
  }
}
