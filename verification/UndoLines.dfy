/** The line table of a buffer: an array of line contents of which the first lineCount are the lines, and the edits that
    open, close and swap in it. */
module UndoLines {
  import opened UndoLog

  const LINE_HEAD_SPACE := 50

  class LineTable {
    var lineInfo: Lines
    var lineCount: nat
    var live: set<nat>
    var nextId: nat

    /** Entries behind the last line are empty. */
    ghost predicate Buffer()
      reads this`lineInfo, this`lineCount
    {
      lineCount <= |lineInfo| && forall i :: lineCount <= i < |lineInfo| ==> lineInfo[i] == Empty
    }

    ghost function Now(): Lines
      requires lineCount <= |lineInfo|
      reads this`lineInfo, this`lineCount
    {
      lineInfo[..lineCount]
    }

    /** A buffer whose lines view the file image. */
    constructor (image: seq<string>)
      ensures Buffer() && Now() == seq(|image|, i requires 0 <= i < |image| => Borrowed(image[i]))
      ensures live == {} && nextId == 0
    {
      lineInfo := seq(|image|, i requires 0 <= i < |image| => Borrowed(image[i]));
      lineCount := |image|;
      live, nextId := {}, 0;
    }

    // ---------- the allocator ----------

    /** LineInfo::FreeContent: only a live block may be freed. */
    method FreeContent(li: LineInfo)
      requires li.Owned? ==> li.id in live
      modifies this`live
      ensures live == if li.Owned? then old(live) - {li.id} else old(live)
    {
      if li.Owned? {
        live := live - {li.id};
      }
    }

    /** FreeContent on the entry of line k, which becomes empty. */
    method FreeEntry(k: nat)
      requires Buffer() && k < lineCount && (lineInfo[k].Owned? ==> lineInfo[k].id in live)
      modifies this`lineInfo, this`live
      ensures Buffer() && Now() == old(Now())[k := Empty]
      ensures live == if old(lineInfo)[k].Owned? then old(live) - {old(lineInfo)[k].id} else old(live)
    {
      FreeContent(lineInfo[k]);
      lineInfo := lineInfo[k := Empty];
    }

    /** The alteration record takes the content of line k over. */
    method MoveOut(k: nat) returns (op: Op)
      requires Buffer() && k < lineCount
      modifies this`lineInfo
      ensures Buffer() && Now() == old(Now())[k := Empty]
      ensures op.AltLine? && op.lineNum == k && Step(op, old(Now()), Now(), true)
    {
      op := AltLine(lineCount, k, lineInfo[k]);
      lineInfo := lineInfo[k := Empty];
    }

    /** LineInfo::PutContent into an empty entry. */
    method PutContent(k: nat, text: string)
      requires Buffer() && k < lineCount && lineInfo[k] == Empty
      modifies this`lineInfo, this`live, this`nextId
      ensures Buffer() && Now() == old(Now())[k := Stored(old(nextId), text)]
      ensures text == "" ==> live == old(live) && nextId == old(nextId)
      ensures text != "" ==> live == old(live) + {old(nextId)} && nextId == old(nextId) + 1
    {
      if |text| != 0 {
        lineInfo := lineInfo[k := Owned(nextId, text)];
        live := live + {nextId};
        nextId := nextId + 1;
      }
    }

    /** The destructors of the records: the content a record still holds is freed. */
    method FreeRecord(op: Op)
      requires forall id :: OpOwners(op, id) <= if id in live then 1 else 0
      modifies this`live
      ensures forall id :: id in live <==> id in old(live) && OpOwners(op, id) == 0
    {
      match op
      case AltLine(_, _, li) =>
        assert li.Owned? ==> OpOwners(op, li.id) == 1;
        FreeContent(li);
      case DelLines(_, _, _, saved, _) => FreeSaved(saved);
      case _ =>
    }

    method FreeSaved(saved: Lines)
      requires forall id :: Owners(saved, id) <= if id in live then 1 else 0
      modifies this`live
      ensures forall id :: id in live <==> id in old(live) && Owners(saved, id) == 0
    {
      var line := 0;
      while line < |saved|
        invariant line <= |saved|
        invariant forall id :: id in live <==> id in old(live) && Owners(saved[..line], id) == 0
      {
        ghost var done, rest := saved[..line], saved[line + 1..];
        assert saved == done + [saved[line]] + rest && saved[..line + 1] == done + [saved[line]];
        forall id: nat
          ensures Owners(saved, id) == Owners(done, id) + Owns(saved[line], id) + Owners(rest, id)
          ensures Owners(saved[..line + 1], id) == Owners(done, id) + Owns(saved[line], id)
        {
          OwnersSpliced(done, [saved[line]], rest, id);
          OwnersConcat(done, [saved[line]], id);
        }
        assert saved[line].Owned? ==> Owns(saved[line], saved[line].id) == 1;
        FreeContent(saved[line]);
        line := line + 1;
      }
      assert saved[..line] == saved;
    }

    /** The last lines of FreeLinesAndUndoInfo for the table. */
    method FreeTable()
      modifies this`lineInfo, this`lineCount
      ensures Buffer() && Now() == []
    {
      lineCount := 0;
      lineInfo := [];
    }

    // ---------- opening and closing holes ----------

    method LineInfoReserve(linesNeeded: nat)
      requires Buffer()
      modifies this`lineInfo
      ensures Buffer() && Now() == old(Now()) && |lineInfo| >= linesNeeded
    {
      if |lineInfo| < linesNeeded {
        var linesToAlloc := linesNeeded + LINE_HEAD_SPACE;
        lineInfo := lineInfo[..lineCount] + Blank(linesToAlloc - lineCount);
      }
    }

    /** Both ways of making room, before and after the hole is cleared. */
    lemma Moved(ls: Lines, count: nat, y: nat, n: nat)
      requires y < count <= |ls| && forall i :: count <= i < |ls| ==> ls[i] == Empty
      ensures |ls| >= count + n ==>
        var room := ls[..y + n] + ls[y..count] + ls[count + n..];
        Open(room[..y] + Blank(n) + room[y + n..], ls, count, y, n)
      ensures
        var room := ls[..y] + Blank(n) + ls[y..count] + Blank(LINE_HEAD_SPACE);
        Open(room[..y] + Blank(n) + room[y + n..], ls, count, y, n)
    {}

    /** The entries r hold the lines of ls with a hole, and nothing behind them. */
    ghost predicate Open(r: Lines, ls: Lines, count: nat, y: nat, n: nat)
      requires y < count <= |ls|
    {
      && count + n <= |r| && r[..count + n] == Opened(ls[..count], y, n)
      && forall i :: count + n <= i < |r| ==> r[i] == Empty
    }

    /** The part of InsertLines__ behind the undo record. */
    method OpenHole(y: nat, n: nat)
      requires Buffer() && y < lineCount
      modifies this`lineInfo, this`lineCount
      ensures Buffer() && Now() == Opened(old(Now()), y, n)
    {
      var linesNeeded := lineCount + n;
      Moved(lineInfo, lineCount, y, n);
      if |lineInfo| >= linesNeeded {
        lineInfo := lineInfo[..y + n] + lineInfo[y..lineCount] + lineInfo[linesNeeded..];
      } else {
        lineInfo := lineInfo[..y] + Blank(n) + lineInfo[y..lineCount] + Blank(LINE_HEAD_SPACE);
      }
      lineInfo := lineInfo[..y] + Blank(n) + lineInfo[y + n..];
      lineCount := lineCount + n;
    }

    method InsertLinesForUndoRedo(y: nat, n: int)
      requires Buffer()
      modifies this`lineInfo, this`lineCount
      ensures Buffer() && (n >= 1 ==> |lineInfo| >= y + n)
      ensures Now() == if n >= 1 && y < old(lineCount) then Opened(old(Now()), y, n) else old(Now())
    {
      if n <= 0 {
        return;
      }
      if y >= lineCount {
        LineInfoReserve(y + n);
        return;
      }
      OpenHole(y, n);
    }

    /** The part of DeleteLines__ behind the undo record: the entries above slide down. */
    method CloseHole(first: nat, last: nat)
      requires Buffer() && first <= last < lineCount
      modifies this`lineInfo, this`lineCount
      ensures Buffer() && Now() == Closed(old(Now()), first, last)
    {
      lineInfo := lineInfo[..first] + lineInfo[last + 1..lineCount] + lineInfo[first + lineCount - last - 1..];
      var yDelta := last - first + 1;
      lineCount := lineCount - yDelta;
      lineInfo := lineInfo[..lineCount] + Blank(yDelta) + lineInfo[lineCount + yDelta..];
    }

    /** The deletion record's copy of the lines, then the deletion. */
    method CutLines(first: nat, last: nat) returns (op: Op)
      requires Buffer() && first <= last < lineCount
      modifies this`lineInfo, this`lineCount
      ensures Buffer() && Now() == Closed(old(Now()), first, last)
      ensures op.DelLines? && Step(op, old(Now()), Now(), true)
    {
      var n := last - first + 1;
      op := DelLines(lineCount, first, n, lineInfo[first..first + n], true);
      assert op.saved == Now()[first..first + n];
      CloseHole(first, last);
    }

    /** The insertion record, then the insertion. */
    method InsertHole(y: nat, n: nat) returns (op: Op)
      requires Buffer() && y < lineCount && n >= 1
      modifies this`lineInfo, this`lineCount
      ensures Buffer() && Now() == Opened(old(Now()), y, n)
      ensures op.InsLines? && Step(op, old(Now()), Now(), true)
    {
      op := InsLines(lineCount, y, n);
      OpenHole(y, n);
    }

    method DeleteLinesForUndoRedo(first: nat, lastLine: nat)
      requires Buffer()
      modifies this`lineInfo, this`lineCount
      ensures Buffer()
      ensures Now() == if first >= old(lineCount) || first > lastLine then old(Now())
        else
          old(Now())[..first] + old(Now())[(if lastLine < old(lineCount) then lastLine + 1 else old(lineCount))..]
    {
      if first >= lineCount || first > lastLine {
        return;
      }
      var last := if lastLine < lineCount then lastLine else lineCount - 1;
      CloseHole(first, last);
    }

    /** swapLineContentOwnership, entry by entry. */
    method SwapLineContentOwnership(paLi: Lines, first: nat) returns (r: Lines)
      requires first + |paLi| <= |lineInfo|
      modifies this`lineInfo
      ensures r == old(lineInfo)[first..first + |paLi|]
      ensures lineInfo == old(lineInfo)[..first] + paLi + old(lineInfo)[first + |paLi|..]
    {
      r := paLi;
      ghost var was := lineInfo;
      var line := 0;
      while line < |paLi|
        invariant line <= |paLi| == |r| && |lineInfo| == |was|
        invariant forall i :: 0 <= i < |was| ==>
          lineInfo[i] == if first <= i < first + line then paLi[i - first] else was[i]
        invariant forall i :: 0 <= i < |r| ==> r[i] == if i < line then was[first + i] else paLi[i]
      {
        var t := r[line];
        r := r[line := lineInfo[first + line]];
        lineInfo := lineInfo[first + line := t];
        line := line + 1;
      }
    }

    // ---------- VUndo and VRedo of the records ----------

    /** The entries mid hold the lines b with a hole of n lines, or with empty entries behind the last line. */
    ghost predicate HoleAt(b: Lines, mid: Lines, n: nat, first: nat) {
      && first <= |b| && first + n <= |mid|
      && var top := if first < |b| then |b| + n else |b|;
        && top <= |mid| && (forall i :: top <= i < |mid| ==> mid[i] == Empty)
        && mid[..top] == if first < |b| then b[..first] + Blank(n) + b[first..] else b
    }

    /** Deleted lines put back into the hole; behind the last line there is no hole to open, only empty entries. */
    lemma HoleFilled(b: Lines, mid: Lines, saved: Lines, first: nat)
      requires HoleAt(b, mid, |saved|, first)
      ensures mid[first..first + |saved|] == Blank(|saved|)
      ensures var out := mid[..first] + saved + mid[first + |saved|..];
        && out[..|b| + |saved|] == b[..first] + saved + b[first..]
        && forall i :: |b| + |saved| <= i < |out| ==> out[i] == Empty
    {
      var n := |saved|;
      if first < |b| {
        assert mid[..|b| + n][..first] == b[..first] && mid[..|b| + n][first..first + n] == Blank(n);
        assert mid[..|b| + n][first + n..] == b[first..];
        assert mid == mid[..|b| + n] + mid[|b| + n..];
      } else {
        assert mid[..first] == b;
      }
    }

    /** EdOpLineRangeDelete::VUndo, with its assertion. */
    method UndoDeletion(op: Op, ghost a: Lines) returns (op': Op)
      requires Buffer() && op.DelLines? && Step(op, a, Now(), true)
      modifies this`lineInfo, this`lineCount
      ensures Buffer() && Now() == a && op' == Undone(op, old(Now()))
    {
      assert op.applied;
      ghost var b := Now();
      OpenForDeleted(op, a);
      ghost var mid := lineInfo;
      PutBack(op, a, b, mid);
      var swapped := SwapLineContentOwnership(op.saved, op.first);
      op' := op.(saved := swapped, applied := false);
      lineCount := op.lineCount;
    }

    /** InsertLines__ for the deleted lines: what it leaves of the entries. */
    method OpenForDeleted(op: Op, ghost a: Lines)
      requires Buffer() && op.DelLines? && Step(op, a, Now(), true)
      modifies this`lineInfo, this`lineCount
      ensures HoleAt(old(Now()), lineInfo, op.n, op.first)
    {
      InsertLinesForUndoRedo(op.first, op.n);
    }

    lemma PutBack(op: Op, a: Lines, b: Lines, mid: Lines)
      requires op.DelLines? && Step(op, a, b, true) && HoleAt(b, mid, op.n, op.first)
      ensures |op.saved| == op.n && mid[op.first..op.first + op.n] == Blank(op.n)
      ensures var out := mid[..op.first] + op.saved + mid[op.first + op.n..];
        && op.lineCount <= |out| && out[..op.lineCount] == a
        && forall i :: op.lineCount <= i < |out| ==> out[i] == Empty
    {
      assert a == b[..op.first] + op.saved + b[op.first..];
      HoleFilled(b, mid, op.saved, op.first);
    }

    /** Lines that were exchanged for others and then cut out. */
    lemma BlanksCut(a: Lines, mid: Lines, saved: Lines, first: nat)
      requires first + |saved| <= |a| && mid == a[..first] + saved + a[first + |saved|..]
      ensures mid[..first] + mid[first + |saved|..] == a[..first] + a[first + |saved|..]
    {}

    /** EdOpLineRangeDelete::VRedo, with its assertion. */
    method RedoDeletion(op: Op, ghost b: Lines) returns (op': Op)
      requires Buffer() && op.DelLines? && Step(op, Now(), b, false)
      modifies this`lineInfo, this`lineCount
      ensures Buffer() && Now() == b && op' == Redone(op, old(Now()))
    {
      assert !op.applied;
      ghost var a := Now();
      var swapped := SwapLineContentOwnership(op.saved, op.first);
      op' := op.(saved := swapped, applied := true);
      assert swapped == a[op.first..op.first + op.n] && |op.saved| == op.n;
      BlanksCut(a, Now(), op.saved, op.first);
      assert op.first + op.n <= lineCount && |Now()| == lineCount;
      DeleteLinesForUndoRedo(op.first, op.first + op.n - 1);
      assert Now() == b;
      lineCount := op.lineCount - op.n;
    }

    /** The virtual VUndo: the buffer returns to the lines a before the record; the record keeps what it took out. */
    method VUndo(op: Op, ghost a: Lines) returns (op': Op)
      requires Buffer() && Step(op, a, Now(), true)
      modifies this`lineInfo, this`lineCount
      ensures Buffer() && Now() == a && op' == Undone(op, old(Now()))
    {
      match op
      case Boundary => op' := op;
      case AltLine(savedCount, k, li) =>
        op' := op.(li := lineInfo[k], lineCount := lineCount);
        lineInfo, lineCount := lineInfo[k := li], savedCount;
      case InsLines(_, _, _) =>
        op' := op;
        UndoInsertion(op, a);
      case DelLines(_, _, _, _, _) => op' := UndoDeletion(op, a);
    }

    /** EdOpLineRangeInsert::VUndo. */
    method UndoInsertion(op: Op, ghost a: Lines)
      requires Buffer() && op.InsLines? && Step(op, a, Now(), true)
      modifies this`lineInfo, this`lineCount
      ensures Buffer() && Now() == a
    {
      InsertedCut(a, op.first, op.n);
      DeleteLinesForUndoRedo(op.first, op.first + op.n - 1);
      lineCount := op.lineCount;
    }

    lemma InsertedCut(a: Lines, first: nat, n: nat)
      requires first <= |a|
      ensures var b := a[..first] + Blank(n) + a[first..]; b[..first] + b[first + n..] == a
    {}

    method VRedo(op: Op, ghost b: Lines) returns (op': Op)
      requires Buffer() && Step(op, Now(), b, false)
      modifies this`lineInfo, this`lineCount
      ensures Buffer() && Now() == b && op' == Redone(op, old(Now()))
    {
      match op
      case Boundary => op' := op;
      case AltLine(savedCount, k, li) =>
        op' := op.(li := lineInfo[k], lineCount := lineCount);
        lineInfo, lineCount := lineInfo[k := li], savedCount;
      case InsLines(savedCount, first, n) =>
        op' := op;
        InsertLinesForUndoRedo(first, n);
        lineCount := savedCount + n;
      case DelLines(_, _, _, _, _) => op' := RedoDeletion(op, b);
    }
  }
}
