/** In-order reading of a tree and of a zipper: the leaves, and the internal nodes that separate them. */
module RbOrder {
  import opened RbShape

  ghost function Leaves(t: Tree): (s: seq<RbNode>)
    ensures |s| == |Inner(t)| + 1
  {
    match t
    case Ext(n) => [n]
    case Int(_, _, l, r) => Leaves(l) + Leaves(r)
  }

  ghost function Inner(t: Tree): seq<RbNode> {
    match t
    case Ext(_) => []
    case Int(n, _, l, r) => Inner(l) + [n] + Inner(r)
  }

  /** Leaves (and internal nodes) to the left and to the right of the hole of a context. */
  ghost function LeavesBefore(c: Ctx): (s: seq<RbNode>)
    ensures |s| == |InnerBefore(c)|
  {
    match c
    case Top => []
    case InL(_, _, up, _) => LeavesBefore(up)
    case InR(_, _, l, up) => LeavesBefore(up) + Leaves(l)
  }

  ghost function LeavesAfter(c: Ctx): (s: seq<RbNode>)
    ensures |s| == |InnerAfter(c)|
  {
    match c
    case Top => []
    case InL(_, _, up, r) => Leaves(r) + LeavesAfter(up)
    case InR(_, _, _, up) => LeavesAfter(up)
  }

  ghost function InnerBefore(c: Ctx): seq<RbNode> {
    match c
    case Top => []
    case InL(_, _, up, _) => InnerBefore(up)
    case InR(n, _, l, up) => InnerBefore(up) + Inner(l) + [n]
  }

  ghost function InnerAfter(c: Ctx): seq<RbNode> {
    match c
    case Top => []
    case InL(n, _, up, r) => [n] + Inner(r) + InnerAfter(up)
    case InR(_, _, _, up) => InnerAfter(up)
  }

  ghost function AllLeaves(z: Zipper): seq<RbNode> {
    LeavesBefore(z.c) + Leaves(z.t) + LeavesAfter(z.c)
  }

  ghost function AllInner(z: Zipper): seq<RbNode> {
    InnerBefore(z.c) + Inner(z.t) + InnerAfter(z.c)
  }

  ghost function AllNodes(z: Zipper): set<RbNode> {
    Nodes(z.t) + CNodes(z.c)
  }

  /** Two views of trees with the same nodes in the same order. */
  ghost predicate SameOrder(z: Zipper, z': Zipper) {
    AllLeaves(z') == AllLeaves(z) && AllInner(z') == AllInner(z) && AllNodes(z') == AllNodes(z) && z'.head == z.head
  }

  /** S holds every node of the tree, I its internal ones. */
  ghost predicate Room(z: Zipper, S: set<RbNode>, I: set<RbNode>) {
    AllNodes(z) <= S && forall o :: o in AllInner(z) ==> o in I
  }

  lemma InRoom(z: Zipper, S: set<RbNode>, I: set<RbNode>)
    requires Room(z, S, I)
    ensures z.t.Int? ==> z.t.n in I
    ensures z.t.Int? && z.t.l.Int? ==> z.t.l.n in I
    ensures z.t.Int? && z.t.r.Int? ==> z.t.r.n in I
    ensures !z.c.Top? ==> z.c.n in I
  {
    if z.t.Int? {
      assert z.t.n in Inner(z.t);
      if z.t.l.Int? {
        assert z.t.l.n in Inner(z.t.l);
      }
      if z.t.r.Int? {
        assert z.t.r.n in Inner(z.t.r);
      }
    }
    if !z.c.Top? {
      assert z.c.n in InnerBefore(z.c) || z.c.n in InnerAfter(z.c);
    }
  }

  lemma WholeOrder(z: Zipper)
    requires z.c.Top?
    ensures AllLeaves(z) == Leaves(z.t) && AllInner(z) == Inner(z.t) && AllNodes(z) == Nodes(z.t)
  {}

  // ---------- moving the focus ----------

  ghost function Depth(c: Ctx): nat {
    if c.Top? then 0 else 1 + Depth(c.up)
  }

  ghost function Up(z: Zipper): Zipper
    requires !z.c.Top?
  {
    match z.c
    case InL(n, red, up, r) => Zipper(up, Int(n, red, z.t, r), z.head)
    case InR(n, red, l, up) => Zipper(up, Int(n, red, l, z.t), z.head)
  }

  lemma ZipUp(z: Zipper)
    requires Zip(z) && !z.c.Top?
    ensures Zip(Up(z)) && SameOrder(z, Up(z))
  {
    RootInNodes(z.t);
    TopInCtx(z.c.up);
    UpOrder(z);
    assert AllNodes(Up(z)) == AllNodes(z);
  }

  lemma Regroup<T>(a: seq<T>, b: seq<T>, c: seq<T>, d: seq<T>)
    ensures a + (b + c) + d == a + b + (c + d)
    ensures a + (b + c) + d == (a + b) + c + d
  {}

  lemma Regroup5<T>(a: seq<T>, b: seq<T>, c: seq<T>, d: seq<T>, e: seq<T>)
    ensures (a + b + c) + d + e == a + b + (c + d + e)
    ensures a + (b + c + d) + e == a + b + (c + d + e)
    ensures a + (b + c + d) + e == (a + b + c) + d + e
  {}

  lemma UpOrder(z: Zipper)
    requires !z.c.Top?
    ensures AllLeaves(Up(z)) == AllLeaves(z) && AllInner(Up(z)) == AllInner(z)
  {
    match z.c
    case InL(n, _, up, r) =>
      Regroup(LeavesBefore(up), Leaves(z.t), Leaves(r), LeavesAfter(up));
      Regroup5(InnerBefore(up), Inner(z.t), [n], Inner(r), InnerAfter(up));
    case InR(n, _, l, up) =>
      Regroup(LeavesBefore(up), Leaves(l), Leaves(z.t), LeavesAfter(up));
      Regroup5(InnerBefore(up), Inner(l), [n], Inner(z.t), InnerAfter(up));
  }

  ghost function Home(z: Zipper): (h: Zipper)
    ensures h.c == Top && h.head == z.head
    decreases z.c
  {
    if z.c.Top? then z else Home(Up(z))
  }

  lemma ZipDown(d: Zipper)
    requires !d.c.Top? && Zip(Up(d))
    ensures Zip(d) && SameOrder(d, Up(d))
  {
    ApartDown(d);
    RepDown(d);
    RootInNodes(d.t);
    TopInCtx(d.c);
    UpOrder(d);
  }

  lemma ApartDown(d: Zipper)
    requires !d.c.Top? && Apart(Up(d))
    ensures Apart(d) && AllNodes(Up(d)) == AllNodes(d)
  {
    assert AllNodes(Up(d)) == AllNodes(d);
  }

  lemma RepDown(d: Zipper)
    requires !d.c.Top? && Zip(Up(d))
    ensures Rep(d.t) && CRep(d.c, d.head) && Hole(d.c, d.head) == d.t.n && Hooked(d.t.n, d.c, d.head)
  {
    var u := Up(d);
    TopInCtx(u.c);
    Parts(u.t);
  }

  lemma {:induction false} ZipHome(z: Zipper)
    requires Zip(z)
    ensures Zip(Home(z)) && SameOrder(z, Home(z))
    decreases z.c
  {
    if !z.c.Top? {
      ZipUp(z);
      ZipHome(Up(z));
    }
  }

  /** Brings any leaf of the tree into focus. */
  lemma {:induction false} FocusLeaf(z: Zipper, n: RbNode) returns (f: Zipper)
    requires Zip(z) && n in Leaves(z.t)
    ensures Zip(f) && f.t == Ext(n) && SameOrder(z, f) && Home(f) == Home(z)
    decreases z.t
  {
    match z.t
    case Ext(_) =>
      f := z;
    case Int(m, red, l, r) =>
      RootInNodes(l);
      RootInNodes(r);
      TopInCtx(z.c);
      var d := if n in Leaves(l) then Zipper(InL(m, red, z.c, r), l, z.head)
        else Zipper(InR(m, red, l, z.c), r, z.head);
      Parts(z.t);
      assert Up(d) == z;
      assert Zip(d);
      ZipUp(d);
      f := FocusLeaf(d, n);
  }
}
