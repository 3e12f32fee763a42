/** single_rotate: its effect on the fields, and that it turns one tree shape into another. */
module RbRotate {
  import opened RbShape
  import opened RbOrder

  ghost function Rotated(t: Tree, l: bool): Tree
    requires t.Int? && (if l then t.l.Int? else t.r.Int?)
  {
    if l then
      Int(t.l.n, t.l.red, t.l.l, Int(t.n, t.red, t.l.r, t.r))
    else
      Int(t.r.n, t.r.red, Int(t.n, t.red, t.l, t.r.l), t.r.r)
  }

  /** single_rotate: the child x of y on the side chosen by l is lifted, its inner subtree b moves over to y. */
  method SingleRotate(y: RbNode, l: bool, ghost x: RbNode, ghost b: RbNode, ghost yp: RbNode)
    requires if l then y.flink == x && x.blink == b else y.blink == x && x.flink == b
    requires y.parent == yp
    requires y != x && y != b && x != b && yp !in {x, y, b} && !x.isRoot
    modifies y`flink, y`blink, y`parent, y`left, y`isRoot
    modifies x`flink, x`blink, x`parent, x`left, x`isRoot, b`left, b`parent
    modifies (if y.isRoot then {yp} else {})`parent, (if y.isRoot then {} else {yp})`flink
    modifies (if y.isRoot then {} else {yp})`blink
    ensures if l then y.flink == b && y.blink == old(y.blink) && x.blink == y && x.flink == old(x.flink)
            else y.blink == b && y.flink == old(y.flink) && x.flink == y && x.blink == old(x.blink)
    ensures y.parent == x && y.left == !l && !y.isRoot
    ensures b.parent == y && b.left == l
    ensures x.parent == yp && x.isRoot == old(y.isRoot) && (!x.isRoot ==> x.left == old(y.left))
    ensures yp.parent == if x.isRoot then x else old(yp.parent)
    ensures yp.flink == if !x.isRoot && x.left then x else old(yp.flink)
    ensures yp.blink == if !x.isRoot && !x.left then x else old(yp.blink)
  {
    var ir := y.isRoot;
    var yp := y.parent;
    var rl := false;
    if !ir {
      rl := y.left;
    }
    var x;
    if l {
      x := y.flink;
      y.flink := x.blink;
      y.flink.left := true;
      y.flink.parent := y;
      x.blink := y;
      y.left := false;
    } else {
      x := y.blink;
      y.blink := x.flink;
      y.blink.left := false;
      y.blink.parent := y;
      x.flink := y;
      y.left := true;
    }
    x.parent := yp;
    y.parent := x;
    if ir {
      yp.parent := x;
      y.isRoot := false;
      x.isRoot := true;
    } else if rl {
      yp.flink := x;
      x.left := true;
    } else {
      yp.blink := x;
      x.left := false;
    }
  }

  twostate lemma RotatedLeft(t: Tree)
    requires t.Int? && t.l.Int? && Distinct(t) && old(Rep(t)) && old(allocated(Nodes(t)))
    requires Nodes(t.l.l) + Nodes(t.l.r) + Nodes(t.r) <= Nodes(t)
    requires unchanged(Nodes(t)`red) && unchanged(Nodes(t)`internal) && unchanged(Nodes(t)`isHead)
    requires unchanged(Nodes(t.l.l)) && unchanged(Nodes(t.r))
    requires unchanged(Nodes(t.l.r)`flink) && unchanged(Nodes(t.l.r)`blink) && t.l.r.n.isRoot == old(t.l.r.n.isRoot)
    requires unchanged(Below(t.l.r)`parent) && unchanged(Below(t.l.r)`left) && unchanged(Below(t.l.r)`isRoot)
    requires var y, x, b := t.n, t.l.n, t.l.r.n;
      && y.flink == b && y.blink == old(y.blink) && x.blink == y && x.flink == old(x.flink)
      && y.parent == x && !y.left && !y.isRoot && b.parent == y && b.left
    ensures Rep(Rotated(t, true))
  {
    Roots(t, t.l);
    RepSame(t.l.l);
    RepKept(t.l.r);
    RepSame(t.r);
    RepJoined(t.n, t.red, t.l.r, t.r);
    RepJoined(t.l.n, t.l.red, t.l.l, Rotated(t, true).r);
  }

  lemma Roots(t: Tree, s: Tree)
    requires t.Int? && s.Int? && (s == t.l || s == t.r)
    ensures t.n in Nodes(t) && t.l.n in Nodes(t.l) && t.r.n in Nodes(t.r) && s.l.n in Nodes(s.l) && s.r.n in Nodes(s.r)
    ensures Nodes(t.l) <= Nodes(t) && Nodes(t.r) <= Nodes(t) && Nodes(s.l) <= Nodes(s) && Nodes(s.r) <= Nodes(s)
  {
    RootInNodes(s.l);
    RootInNodes(s.r);
  }

  lemma RepJoined(n: RbNode, red: bool, l: Tree, r: Tree)
    requires Joint(n, red, l.n, r.n) && Rep(l) && Rep(r)
    ensures Rep(Int(n, red, l, r))
  {}

  twostate lemma RotatedRight(t: Tree)
    requires t.Int? && t.r.Int? && Distinct(t) && old(Rep(t)) && old(allocated(Nodes(t)))
    requires Nodes(t.r.r) + Nodes(t.r.l) + Nodes(t.l) <= Nodes(t)
    requires unchanged(Nodes(t)`red) && unchanged(Nodes(t)`internal) && unchanged(Nodes(t)`isHead)
    requires unchanged(Nodes(t.r.r)) && unchanged(Nodes(t.l))
    requires unchanged(Nodes(t.r.l)`flink) && unchanged(Nodes(t.r.l)`blink) && t.r.l.n.isRoot == old(t.r.l.n.isRoot)
    requires unchanged(Below(t.r.l)`parent) && unchanged(Below(t.r.l)`left) && unchanged(Below(t.r.l)`isRoot)
    requires var y, x, b := t.n, t.r.n, t.r.l.n;
      && y.blink == b && y.flink == old(y.flink) && x.flink == y && x.blink == old(x.blink)
      && y.parent == x && y.left && !y.isRoot && b.parent == y && !b.left
    ensures Rep(Rotated(t, false))
  {
    Roots(t, t.r);
    RepSame(t.r.r);
    RepKept(t.r.l);
    RepSame(t.l);
    RepJoined(t.n, t.red, t.l, t.r.l);
    RepJoined(t.r.n, t.r.red, Rotated(t, false).l, t.r.r);
  }

  lemma RotatedApart(z: Zipper, l: bool)
    requires Apart(z)
    requires z.t.Int? && (if l then z.t.l.Int? else z.t.r.Int?)
    ensures Nodes(Rotated(z.t, l)) == Nodes(z.t) && Apart(z.(t := Rotated(z.t, l)))
  {
    var s := if l then z.t.l else z.t.r;
    assert Distinct(s) && Nodes(s) <= Nodes(z.t);
    assert Nodes(s) == {s.n} + Nodes(s.l) + Nodes(s.r);
    assert Nodes(z.t) == {z.t.n} + Nodes(z.t.l) + Nodes(z.t.r);
  }

  /** single_rotate on the left child, seen as a step on the tree below yp. */
  method LiftLeft(y: RbNode, ghost t: Tree, ghost yp: RbNode)
    requires t.Int? && t.l.Int? && Rep(t) && Distinct(t)
    requires t.n == y && y.parent == yp && yp !in Nodes(t)
    modifies y`flink, y`blink, y`parent, y`left, y`isRoot
    modifies t.l.n`flink, t.l.n`blink, t.l.n`parent, t.l.n`left, t.l.n`isRoot
    modifies t.l.r.n`left, t.l.r.n`parent
    modifies (if y.isRoot then {yp} else {})`parent, (if y.isRoot then {} else {yp})`flink
    modifies (if y.isRoot then {} else {yp})`blink
    ensures Rep(Rotated(t, true))
    ensures var x := t.l.n; x.parent == yp && x.isRoot == old(y.isRoot) && (!x.isRoot ==> x.left == old(y.left))
    ensures yp.parent == if old(y.isRoot) then t.l.n else old(yp.parent)
    ensures yp.flink == if !old(y.isRoot) && old(y.left) then t.l.n else old(yp.flink)
    ensures yp.blink == if !old(y.isRoot) && !old(y.left) then t.l.n else old(yp.blink)
  {
    Parts(t);
    Parts(t.l);
    RootInNodes(t.l.r);
    SingleRotate(y, true, t.l.n, t.l.r.n, yp);
    RotatedLeft(t);
  }

  method LiftRight(y: RbNode, ghost t: Tree, ghost yp: RbNode)
    requires t.Int? && t.r.Int? && Rep(t) && Distinct(t)
    requires t.n == y && y.parent == yp && yp !in Nodes(t)
    modifies y`flink, y`blink, y`parent, y`left, y`isRoot
    modifies t.r.n`flink, t.r.n`blink, t.r.n`parent, t.r.n`left, t.r.n`isRoot
    modifies t.r.l.n`left, t.r.l.n`parent
    modifies (if y.isRoot then {yp} else {})`parent, (if y.isRoot then {} else {yp})`flink
    modifies (if y.isRoot then {} else {yp})`blink
    ensures Rep(Rotated(t, false))
    ensures var x := t.r.n; x.parent == yp && x.isRoot == old(y.isRoot) && (!x.isRoot ==> x.left == old(y.left))
    ensures yp.parent == if old(y.isRoot) then t.r.n else old(yp.parent)
    ensures yp.flink == if !old(y.isRoot) && old(y.left) then t.r.n else old(yp.flink)
    ensures yp.blink == if !old(y.isRoot) && !old(y.left) then t.r.n else old(yp.blink)
  {
    Parts(t);
    Parts(t.r);
    RootInNodes(t.r.l);
    SingleRotate(y, false, t.r.n, t.r.l.n, yp);
    RotatedRight(t);
  }

  ghost function Lifted(t: Tree, l: bool): Tree
    requires t.Int?
  {
    if l then t.l else t.r
  }

  /** The node whose subtree changes sides. */
  ghost function Moved(t: Tree, l: bool): RbNode
    requires t.Int? && Lifted(t, l).Int?
  {
    if l then t.l.r.n else t.r.l.n
  }

  lemma InFocus(z: Zipper, l: bool)
    requires Zip(z) && z.t.Int? && Lifted(z.t, l).Int?
    ensures var t, yp := z.t, Above(z.c, z.head);
      var x, b := Lifted(t, l).n, Moved(t, l);
      && t.n.parent == yp && yp !in Nodes(t) && t.n.internal && x.internal
      && {t.n, x, b} <= Nodes(t) && {t.n, x, b} !! CNodes(z.c) && z.head !in Nodes(t)
      && (!z.c.Top? ==> yp in CNodes(z.c) && yp.internal && yp != z.head) && t.n.isRoot == z.c.Top?
      && (!t.n.isRoot ==> t.n.left == z.c.InL?)
  {
    Parts(z.t);
    Parts(Lifted(z.t, l));
    RootInNodes(if l then z.t.l.r else z.t.r.l);
    TopInCtx(z.c);
  }

  method Rotate(y: RbNode, l: bool, ghost z: Zipper, ghost S: set<RbNode>, ghost I: set<RbNode>)
    returns (ghost z': Zipper)
    requires Zip(z) && Room(z, S, I)
    requires z.t.Int? && y == z.t.n && Lifted(z.t, l).Int?
    modifies I`flink, I`blink, S`parent, S`left, S`isRoot, z.head`parent
    ensures z' == z.(t := Rotated(z.t, l)) && Zip(z')
  {
    z' := z.(t := Rotated(z.t, l));
    InFocus(z, l);
    InRoom(z, S, I);
    TurnFocus(y, l, z);
  }

  method TurnFocus(y: RbNode, l: bool, ghost z: Zipper)
    requires Zip(z) && z.t.Int? && y == z.t.n && Lifted(z.t, l).Int?
    modifies {y, Lifted(z.t, l).n}`flink, {y, Lifted(z.t, l).n}`blink, {y, Lifted(z.t, l).n}`isRoot
    modifies {y, Lifted(z.t, l).n, Moved(z.t, l)}`parent, {y, Lifted(z.t, l).n, Moved(z.t, l)}`left
    modifies (if z.c.Top? then {} else {z.c.n})`flink, (if z.c.Top? then {} else {z.c.n})`blink, z.head`parent
    ensures Zip(z.(t := Rotated(z.t, l)))
  {
    InFocus(z, l);
    assert allocated(AllNodes(z));
    LiftChild(y, l, z.t, Above(z.c, z.head));
    Turned(Turn(z, l));
  }

  datatype Turn = Turn(z: Zipper, l: bool)

  /** The rest of the tree after a rotation in focus. */
  twostate lemma Turned(r: Turn)
    requires r.z.t.Int? && Lifted(r.z.t, r.l).Int? && old(Zip(r.z)) && old(allocated(AllNodes(r.z)))
    requires old(allocated(r.z.head))
    requires unchanged(CNodes(r.z.c) - {Above(r.z.c, r.z.head)}) && unchanged(r.z.head`isHead)
    requires var p := Above(r.z.c, r.z.head); var x := Lifted(r.z.t, r.l).n;
      && unchanged(p`red) && unchanged(p`internal) && unchanged(p`isHead) && unchanged(p`left) && unchanged(p`isRoot)
      && x.parent == p && x.isRoot == r.z.c.Top? && (!x.isRoot ==> x.left == r.z.c.InL?)
      && p.parent == (if r.z.c.Top? then x else old(p.parent))
      && p.flink == (if r.z.c.InL? then x else old(p.flink)) && p.blink == (if r.z.c.InR? then x else old(p.blink))
    requires !r.z.c.Top? ==> unchanged(r.z.head`parent)
    requires Rep(Rotated(r.z.t, r.l))
    ensures Zip(r.z.(t := Rotated(r.z.t, r.l)))
  {
    RotatedApart(r.z, r.l);
    CRepKept(r.z);
  }

  method LiftChild(y: RbNode, l: bool, ghost t: Tree, ghost yp: RbNode)
    requires t.Int? && Lifted(t, l).Int? && Rep(t) && Distinct(t)
    requires t.n == y && y.parent == yp && yp !in Nodes(t)
    modifies y`flink, y`blink, y`parent, y`left, y`isRoot
    modifies Lifted(t, l).n`flink, Lifted(t, l).n`blink, Lifted(t, l).n`parent, Lifted(t, l).n`left
    modifies Lifted(t, l).n`isRoot
    modifies Moved(t, l)`left, Moved(t, l)`parent
    modifies (if y.isRoot then {yp} else {})`parent, (if y.isRoot then {} else {yp})`flink
    modifies (if y.isRoot then {} else {yp})`blink
    ensures Rep(Rotated(t, l))
    ensures var x := Lifted(t, l).n;
      x.parent == yp && x.isRoot == old(y.isRoot) && (!x.isRoot ==> x.left == old(y.left))
    ensures yp.parent == if old(y.isRoot) then Lifted(t, l).n else old(yp.parent)
    ensures yp.flink == if !old(y.isRoot) && old(y.left) then Lifted(t, l).n else old(yp.flink)
    ensures yp.blink == if !old(y.isRoot) && !old(y.left) then Lifted(t, l).n else old(yp.blink)
  {
    if l {
      LiftLeft(y, t, yp);
    } else {
      LiftRight(y, t, yp);
    }
  }

  /** Rotation keeps the in-order sequences: no leaf or internal node changes place. */
  lemma RotatedOrder(t: Tree, l: bool)
    requires t.Int? && Lifted(t, l).Int?
    ensures Leaves(Rotated(t, l)) == Leaves(t) && Inner(Rotated(t, l)) == Inner(t)
  {
    if l {
      Regroup(Leaves(t.l.l), Leaves(t.l.r), Leaves(t.r), []);
      Regroup5(Inner(t.l.l), [t.l.n], Inner(t.l.r), [t.n], Inner(t.r));
    } else {
      Regroup([], Leaves(t.l), Leaves(t.r.l), Leaves(t.r.r));
      Regroup5(Inner(t.l), [t.n], Inner(t.r.l), [t.r.n], Inner(t.r.r));
    }
  }
}
