/** The repair after an insertion: recolor. */
module RbInsert {
  import opened RbShape
  import opened RbOrder
  import opened RbRotate
  import opened RbColour
  import opened RbBalance

  // ---------- the three repairs of recolor, on tree shapes ----------

  /** What holds before each round of recolor: the only flaw is a red subtree that may sit below a red parent. */
  ghost predicate Pending(z: Zipper) {
    && Red(z.t) && Balanced(z.t) && Calm(z.t)
    && CBalanced(z.c, BlackHeight(z.t)) && CCalm(z.c, false)
    && (z.c.Top? || z.c.up.Top? || !RootRed(z.c))
  }

  ghost function Flipped(t: Tree): Tree
    requires t.Int? && t.l.Int? && t.r.Int?
  {
    Int(t.n, true, t.l.(red := false), t.r.(red := false))
  }

  /** A rotation after which the lifted node is black and the lowered one red. */
  ghost function Lift(t: Tree, l: bool): Tree
    requires t.Int? && Lifted(t, l).Int?
  {
    var r := Rotated(t, l);
    if l then r.(red := false, r := r.r.(red := true)) else r.(red := false, l := r.l.(red := true))
  }

  lemma RedParent(z: Zipper)
    requires Pending(z) && !z.c.Top? && z.c.red && !z.c.up.Top?
    ensures var p := Up(z);
      && Balanced(p.t) && CBalanced(p.c, BlackHeight(p.t)) && Balanced(Up(p).t)
      && CBalanced(z.c.up.up, BlackHeight(Up(p).t))
      && CCalm(z.c.up, true) && !z.c.up.red && CCalm(z.c.up.up, false)
      && Calm(if z.c.InL? then z.c.r else z.c.l) && !Red(if z.c.InL? then z.c.r else z.c.l)
      && Calm(if z.c.up.InL? then z.c.up.r else z.c.up.l)
      && !RootRed(z.c.up.up)
  {
    assert RootRed(z.c) == RootRed(z.c.up);
  }

  lemma FlippedPending(z: Zipper)
    requires Pending(z) && !z.c.Top? && z.c.red && !z.c.up.Top?
    requires Red(if z.c.up.InL? then z.c.up.r else z.c.up.l)
    ensures Up(Up(z)).t.l.Int? && Up(Up(z)).t.r.Int?
    ensures var g := Up(Up(z)); Pending(g.(t := Flipped(g.t)))
  {
    RedParent(z);
  }

  lemma LiftedFinal(z: Zipper)
    requires Pending(z) && !z.c.Top? && z.c.red && !z.c.up.Top? && z.c.InL? == z.c.up.InL?
    requires !Red(if z.c.up.InL? then z.c.up.r else z.c.up.l)
    ensures var g := Up(Up(z)); RedBlack(Home(g.(t := Lift(g.t, z.c.InL?))).t)
  {
    var g := Up(Up(z));
    RedParent(z);
    Assemble(g.(t := Lift(g.t, z.c.InL?)));
  }

  lemma ZigzagFinal(z: Zipper)
    requires Pending(z) && !z.c.Top? && z.c.red && !z.c.up.Top? && z.c.InL? != z.c.up.InL?
    requires !Red(if z.c.up.InL? then z.c.up.r else z.c.up.l)
    ensures var p := Up(z); var g := Up(p.(t := Rotated(p.t, z.c.InL?)));
      RedBlack(Home(g.(t := Lift(g.t, !z.c.InL?))).t)
  {
    var p := Up(z);
    var g := Up(p.(t := Rotated(p.t, z.c.InL?)));
    RedParent(z);
    Assemble(g.(t := Lift(g.t, !z.c.InL?)));
  }

  // ---------- the same on the nodes ----------

  lemma FlippedByPainting(t: Tree, p: RbNode, gp: RbNode, sib: RbNode)
    requires Distinct(t) && t.Int? && t.l.Int? && t.r.Int?
    requires gp == t.n && ((p == t.l.n && sib == t.r.n) || (p == t.r.n && sib == t.l.n))
    ensures {p, gp, sib} <= Nodes(t)
    ensures Paint(Paint(Paint(t, p, false), gp, true), sib, false) == Flipped(t)
  {
    RootInNodes(t.l);
    RootInNodes(t.r);
  }

  method FlipColours(p: RbNode, gp: RbNode, sib: RbNode, ghost z: Zipper) returns (ghost z': Zipper)
    requires Zip(z) && z.t.Int? && z.t.l.Int? && z.t.r.Int?
    requires gp == z.t.n && ((p == z.t.l.n && sib == z.t.r.n) || (p == z.t.r.n && sib == z.t.l.n))
    modifies p`red, gp`red, sib`red
    ensures z' == z.(t := Flipped(z.t)) && Zip(z') && SameOrder(z, z')
  {
    FlippedByPainting(z.t, p, gp, sib);
    Parts(z.t);
    z' := SetColour(p, false, z);
    z' := SetColour(gp, true, z');
    z' := SetColour(sib, false, z');
  }

  /** The straight case: one rotation at the grandparent. */
  method LiftAt(gp: RbNode, p: RbNode, l: bool, ghost z: Zipper, ghost S: set<RbNode>, ghost I: set<RbNode>)
    returns (ghost z': Zipper)
    requires Zip(z) && Room(z, S, I)
    requires z.t.Int? && gp == z.t.n && Lifted(z.t, l).Int? && p == Lifted(z.t, l).n
    modifies S`red, I`flink, I`blink, S`parent, S`left, S`isRoot, z.head`parent
    ensures z' == z.(t := Lift(z.t, l)) && Zip(z') && SameOrder(z, z')
  {
    RotatedApart(z, l);
    RotatedOrder(z.t, l);
    LiftedByPainting(z.t, l);
    z' := Rotate(gp, l, z, S, I);
    Parts(z'.t);
    z' := SetColour(p, false, z');
    z' := SetColour(gp, true, z');
  }

  lemma LiftedByPainting(t: Tree, l: bool)
    requires t.Int? && Lifted(t, l).Int? && Distinct(Rotated(t, l))
    ensures var p, gp := Lifted(t, l).n, t.n;
      && {p, gp} <= Nodes(Rotated(t, l)) && Paint(Paint(Rotated(t, l), p, false), gp, true) == Lift(t, l)
  {}

  /** What the code of recolor reads off the nodes around nd. */
  lemma Surroundings(z: Zipper)
    requires Zip(z) && !z.c.Top?
    ensures var nd, p := z.t.n, z.c.n;
      && !nd.isRoot && nd.parent == p && nd.left == z.c.InL?
      && p.red == z.c.red && p.internal && p.isRoot == z.c.up.Top? && p in AllNodes(z)
    ensures !z.c.up.Top? ==> var p, gp := z.c.n, z.c.up.n;
      && p.parent == gp && p.left == z.c.up.InL? && gp.internal && gp in AllNodes(z)
      && (z.c.up.InL? ==> gp.blink == z.c.up.r.n && gp.blink.red == Red(z.c.up.r))
      && (z.c.up.InR? ==> gp.flink == z.c.up.l.n && gp.flink.red == Red(z.c.up.l))
  {
    TopInCtx(z.c.up);
    assert CRep(z.c.up, z.head);
  }

  function Sibling(n: RbNode): RbNode?
    requires n.parent != null
    reads n`parent, n`left, n.parent`flink, n.parent`blink
  {
    if n.left then n.parent.blink else n.parent.flink
  }

  /** The insertion is complete: a whole red-black tree with the same nodes in the same order. */
  ghost predicate Recoloured(z0: Zipper, z: Zipper)
    reads Nodes(z.t), CNodes(z.c), z.head
  {
    z.c.Top? && Zip(z) && SameOrder(z0, z) && RedBlack(z.t)
  }

  method FinishLift(gp: RbNode, p: RbNode, l: bool, ghost z: Zipper, ghost S: set<RbNode>, ghost I: set<RbNode>)
    returns (ghost z': Zipper)
    requires Zip(z) && Room(z, S, I)
    requires z.t.Int? && gp == z.t.n && Lifted(z.t, l).Int? && p == Lifted(z.t, l).n
    requires RedBlack(Home(z.(t := Lift(z.t, l))).t)
    modifies S`red, I`flink, I`blink, S`parent, S`left, S`isRoot, z.head`parent
    ensures Recoloured(z, z')
  {
    z' := LiftAt(gp, p, l, z, S, I);
    ZipHome(z');
    z' := Home(z');
  }

  method Straight(nd: RbNode, p: RbNode, gp: RbNode, ghost z: Zipper, ghost S: set<RbNode>, ghost I: set<RbNode>)
    returns (ghost z': Zipper)
    requires Zip(z) && Room(z, S, I) && Pending(z)
    requires !z.c.Top? && z.c.red && !z.c.up.Top? && z.c.InL? == z.c.up.InL?
    requires !Red(if z.c.up.InL? then z.c.up.r else z.c.up.l)
    requires nd == z.t.n && p == z.c.n && gp == z.c.up.n
    modifies S`red, I`flink, I`blink, S`parent, S`left, S`isRoot, z.head`parent
    ensures Recoloured(z, z')
  {
    LiftedFinal(z);
    Surroundings(z);
    ZipUp(z);
    ZipUp(Up(z));
    z' := FinishLift(gp, p, nd.left, Up(Up(z)), S, I);
  }

  /** The first of the two rotations: nd trades places with its parent. */
  method TurnIn(nd: RbNode, p: RbNode, ghost z: Zipper, ghost S: set<RbNode>, ghost I: set<RbNode>)
    returns (ghost z': Zipper)
    requires Zip(z) && Room(z, S, I) && z.t.Int? && !z.c.Top?
    requires nd == z.t.n && p == z.c.n
    modifies I`flink, I`blink, S`parent, S`left, S`isRoot, z.head`parent
    ensures z' == Zipper(z.c.up, Rotated(Up(z).t, z.c.InL?), z.head) && Zip(z') && SameOrder(z, z')
  {
    Surroundings(z);
    ZipUp(z);
    RotatedApart(Up(z), nd.left);
    RotatedOrder(Up(z).t, nd.left);
    z' := Rotate(p, nd.left, Up(z), S, I);
  }

  method Zigzag(nd: RbNode, p: RbNode, gp: RbNode, ghost z: Zipper, ghost S: set<RbNode>, ghost I: set<RbNode>)
    returns (ghost z': Zipper)
    requires Zip(z) && Room(z, S, I) && Pending(z)
    requires !z.c.Top? && z.c.red && !z.c.up.Top? && z.c.InL? != z.c.up.InL?
    requires !Red(if z.c.up.InL? then z.c.up.r else z.c.up.l)
    requires nd == z.t.n && p == z.c.n && gp == z.c.up.n
    modifies S`red, I`flink, I`blink, S`parent, S`left, S`isRoot, z.head`parent
    ensures Recoloured(z, z')
  {
    ZigzagFinal(z);
    z' := TurnIn(nd, p, z, S, I);
    Surroundings(z');
    ZipUp(z');
    z' := FinishLift(gp, nd, nd.left, Up(z'), S, I);
  }

  /** The branches of recolor that only paint the root. */
  method BlackenRoot(n: RbNode, ghost z: Zipper) returns (ghost z': Zipper)
    requires Zip(z) && z.c.Top? && z.t.Int? && n == z.t.n
    requires Balanced(z.t) && Calm(z.t.l) && Calm(z.t.r)
    modifies n`red
    ensures Recoloured(z, z')
  {
    Parts(z.t);
    z' := SetColour(n, false, z);
  }

  /** The branch of recolor that passes the flaw up two levels. */
  method PushUp(p: RbNode, gp: RbNode, sib: RbNode, ghost z: Zipper, ghost S: set<RbNode>, ghost I: set<RbNode>)
    returns (ghost z': Zipper)
    requires Zip(z) && Room(z, S, I) && Pending(z)
    requires !z.c.Top? && z.c.red && !z.c.up.Top? && p == z.c.n && gp == z.c.up.n
    requires var s := if z.c.up.InL? then z.c.up.r else z.c.up.l; Red(s) && sib == s.n
    modifies p`red, gp`red, sib`red
    ensures Depth(z'.c) < Depth(z.c) && z'.t.n == gp && Zip(z') && SameOrder(z, z') && Pending(z')
  {
    FlippedPending(z);
    ZipUp(z);
    ZipUp(Up(z));
    z' := FlipColours(p, gp, sib, Up(Up(z)));
  }

  /** The rest of a round of recolor, once parent and grandparent are known to exist and the parent to be red. */
  method RepairRedParent(nd: RbNode, p: RbNode, ghost z: Zipper, ghost S: set<RbNode>, ghost I: set<RbNode>)
    returns (up: RbNode?, ghost z': Zipper)
    requires Zip(z) && z.t.n == nd && Room(z, S, I) && Pending(z) && !z.c.Top? && z.c.red && !z.c.up.Top? && p == z.c.n
    modifies S`red, I`flink, I`blink, S`parent, S`left, S`isRoot, z.head`parent
    ensures up == null ==> Recoloured(z, z')
    ensures up != null ==> Depth(z'.c) < Depth(z.c) && z'.t.n == up && Zip(z') && SameOrder(z, z') && Pending(z')
  {
    Surroundings(z);
    var gp := p.parent;
    var sib := Sibling(p);
    if sib.red {
      z' := PushUp(p, gp, sib, z, S, I);
      up := gp;
    } else {
      up := null;
      if (!nd.left) == (!p.left) {
        z' := Straight(nd, p, gp, z, S, I);
      } else {
        z' := Zigzag(nd, p, gp, z, S, I);
      }
    }
  }

  method Recolor(nd0: RbNode, ghost z0: Zipper, ghost S: set<RbNode>, ghost I: set<RbNode>) returns (ghost z: Zipper)
    requires Zip(z0) && z0.t.n == nd0 && Room(z0, S, I) && Pending(z0)
    modifies S`red, I`flink, I`blink, S`parent, S`left, S`isRoot, z0.head`parent
    ensures Recoloured(z0, z)
  {
    var nd := nd0;
    z := z0;
    while true
      invariant Zip(z) && z.t.n == nd && SameOrder(z0, z) && Pending(z)
      decreases Depth(z.c)
    {
      if nd.isRoot {
        z := BlackenRoot(nd, z);
        return;
      }
      Surroundings(z);
      var p := nd.parent;
      if !p.red {
        Assemble(z);
        ZipHome(z);
        z := Home(z);
        return;
      }
      if p.isRoot {
        ZipUp(z);
        z := BlackenRoot(p, Up(z));
        return;
      }
      var up;
      up, z := RepairRedParent(nd, p, z, S, I);
      if up == null {
        return;
      }
      nd := up;
    }
  }
}
