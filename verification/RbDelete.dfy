/** Deletion, the colour part, on the nodes. */
module RbDelete {
  import opened RbShape
  import opened RbOrder
  import opened RbRotate
  import opened RbColour
  import opened RbBalance
  import opened RbInsert
  import opened RbRepair

  /** What the code reads off the nodes around n in a deficient tree. */
  lemma Around(z: Zipper)
    requires Zip(z) && !z.c.Top? && Sib(z.c).Int?
    ensures var n, p, s := z.t.n, z.c.n, Sib(z.c).n;
      && !n.isRoot && n.parent == p && n.left == z.c.InL? && p.internal && p.red == z.c.red && p.isRoot == z.c.up.Top?
      && (if z.c.InL? then p.blink == s else p.flink == s)
      && s.internal && s.red == Red(Sib(z.c)) && s.left == !z.c.InL?
      && (if z.c.InL? then s.flink == Near(z.c).n && s.blink == Far(z.c).n
        else s.flink == Far(z.c).n && s.blink == Near(z.c).n)
      && Near(z.c).n.red == Red(Near(z.c)) && Far(z.c).n.red == Red(Far(z.c))
      && Near(z.c).n.left == z.c.InL? && Far(z.c).n.left == !z.c.InL?
      && Near(z.c).n.parent == s && Far(z.c).n.parent == s
    ensures Near(z.c).Int? ==> Near(z.c).n.internal
    ensures Far(z.c).Int? ==> Far(z.c).n.internal
  {
    var s := Sib(z.c);
    assert Rep(s) && Rep(s.l) && Rep(s.r);
  }

  /** The body of the recolouring loop: setred(s). */
  method ReddenSibling(s: RbNode, ghost z: Zipper) returns (ghost z': Zipper)
    requires Zip(z) && !z.c.Top? && Sib(z.c).Int? && s == Sib(z.c).n
    modifies s`red
    ensures z' == SiblingReddened(z) && Zip(z') && SameOrder(z, z')
  {
    Around(z);
    ZipUp(z);
    Parts(Up(z).t);
    z' := SetColour(s, true, Up(z));
  }

  /** Rotation 2.3b. */
  method LiftSibling(n: RbNode, p: RbNode, s: RbNode, ghost z: Zipper, ghost S: set<RbNode>, ghost I: set<RbNode>)
    returns (ghost z': Zipper)
    requires Zip(z) && Room(z, S, I) && !z.c.Top? && Sib(z.c).Int? && n == z.t.n && p == z.c.n && s == Sib(z.c).n
    modifies S`red, I`flink, I`blink, S`parent, S`left, S`isRoot, z.head`parent
    ensures z' == SiblingLifted(z) && Zip(z') && SameOrder(z, z')
  {
    Around(z);
    ZipUp(z);
    var l := !n.left;
    RotatedApart(Up(z), l);
    RotatedOrder(Up(z).t, l);
    z' := Rotate(p, l, Up(z), S, I);
    Parts(z'.t);
    z' := SetColour(p, true, z');
    z' := SetColour(s, false, z');
    assert Up(Up(SiblingLifted(z))) == z';
    ZipDown(Up(SiblingLifted(z)));
    ZipDown(SiblingLifted(z));
    z' := SiblingLifted(z);
  }

  lemma PaintedPair(il: bool, s: RbNode, red: bool, lower: Tree, other: Tree, c: bool)
    requires var t := Join(il, s, red, lower, other); Distinct(t) && lower.Int?
    ensures var t := Join(il, s, red, lower, other);
      Paint(Paint(t, s, c), lower.n, false) == Join(il, s, c, lower.(red := false), other)
  {}

  /** The root of a tree and a child of it are internal nodes of the tree. */
  lemma RootAndChild(z: Zipper, c: Tree)
    requires Zip(z) && z.t.Int? && (c == z.t.l || c == z.t.r) && c.Int?
    ensures {z.t.n, c.n} <= Nodes(z.t) && z.t.n.internal && c.n.internal && Distinct(z.t)
  {
    Parts(z.t);
    Parts(c);
  }

  /** s, the root of the focus, takes the colour of its child p, which becomes black. */
  method PassColour(p: RbNode, s: RbNode, ghost il: bool, ghost lower: Tree, ghost other: Tree, ghost z: Zipper)
    returns (ghost z': Zipper)
    requires Zip(z) && lower.Int? && lower.n == p && z.t.Int? && z.t == Join(il, s, z.t.red, lower, other)
    modifies p`red, s`red
    ensures z' == z.(t := Join(il, s, lower.red, lower.(red := false), other)) && Zip(z') && SameOrder(z, z')
  {
    RootAndChild(z, lower);
    PaintedPair(il, s, z.t.red, lower, other, lower.red);
    PairColour(z, lower);
    z' := SetColours(s, p.red, p, false, z);
  }

  lemma PairColour(z: Zipper, c: Tree)
    requires Zip(z) && z.t.Int? && (c == z.t.l || c == z.t.r) && c.Int?
    ensures c.n.red == c.red
  {
    Parts(z.t);
  }

  /** The colours of case 2.3f: s takes the colour of p; p and the far nephew f become black. */
  method PaintFar(p: RbNode, s: RbNode, f: RbNode, ghost il: bool, ghost lower: Tree, ghost far: Tree, ghost z: Zipper)
    returns (ghost z': Zipper)
    requires Zip(z) && far.Int? && f == far.n && lower.Int? && p == lower.n
    requires z.t.Int? && z.t == Join(il, s, z.t.red, lower, far)
    modifies p`red, s`red, f`red
    ensures z' == z.(t := Join(il, s, lower.red, lower.(red := false), far.(red := false))) && Zip(z')
    ensures SameOrder(z, z')
  {
    Parts(z.t);
    z' := SetColour(f, false, z);
    z' := PassColour(p, s, il, lower, far.(red := false), z');
  }

  /** Case 2.3f, with f the far nephew. */
  method LiftFar(p: RbNode, s: RbNode, f: RbNode, il: bool, ghost z: Zipper, ghost S: set<RbNode>, ghost I: set<RbNode>)
    returns (ghost z': Zipper)
    requires Zip(z) && Room(z, S, I) && !z.c.Top? && Sib(z.c).Int? && Far(z.c).Int?
    requires p == z.c.n && s == Sib(z.c).n && f == Far(z.c).n && il == z.c.InL?
    modifies S`red, I`flink, I`blink, S`parent, S`left, S`isRoot, z.head`parent
    ensures z' == Zipper(z.c.up, FarRedFix(z), z.head) && Zip(z') && SameOrder(z, z')
  {
    Around(z);
    ZipUp(z);
    RotatedApart(Up(z), !il);
    RotatedOrder(Up(z).t, !il);
    z' := Rotate(p, !il, Up(z), S, I);
    z' := PaintFar(p, s, f, il, Join(il, p, z.c.red, z.t, Near(z.c)), Far(z.c), z');
  }

  /** Case 2.3c. */
  method RecolourOnly(p: RbNode, s: RbNode, ghost z: Zipper) returns (ghost z': Zipper)
    requires Zip(z) && !z.c.Top? && Sib(z.c).Int? && p == z.c.n && s == Sib(z.c).n
    modifies p`red, s`red
    ensures z' == Zipper(z.c.up, RecolourFix(z), z.head) && Zip(z') && SameOrder(z, z')
  {
    ZipUp(z);
    RootAndChild(Up(z), Sib(z.c));
    RecolouredPair(z);
    z' := SetColours(p, false, s, true, Up(z));
  }

  lemma RecolouredPair(z: Zipper)
    requires !z.c.Top? && Sib(z.c).Int? && Distinct(Up(z).t)
    ensures Paint(Paint(Up(z).t, z.c.n, false), Sib(z.c).n, true) == RecolourFix(z)
  {}

  /** The two rotations shared by cases 2.3d and 2.3e, with x the near nephew. */
  ghost function NearLifted(z: Zipper): Zipper
    requires !z.c.Top? && Sib(z.c).Int? && Near(z.c).Int?
  {
    var il, x := z.c.InL?, Near(z.c);
    var (own, other) := if il then (x.l, x.r) else (x.r, x.l);
    Zipper(z.c.up, Join(il, x.n, x.red, Join(il, z.c.n, z.c.red, z.t, own),
      Join(il, Sib(z.c).n, Sib(z.c).red, other, Far(z.c))), z.head)
  }

  /** The focus moved to the sibling. */
  ghost function Across(z: Zipper): (d: Zipper)
    requires !z.c.Top?
    ensures !d.c.Top? && Up(d) == Up(z) && d.t == Sib(z.c) && d.head == z.head
  {
    Zipper(if z.c.InL? then InR(z.c.n, z.c.red, z.t, z.c.up) else InL(z.c.n, z.c.red, z.c.up, z.t), Sib(z.c), z.head)
  }

  lemma GoAcross(z: Zipper)
    requires Zip(z) && !z.c.Top? && Sib(z.c).Int? && Near(z.c).Int?
    ensures Zip(Across(z)) && Nodes(Rotated(Sib(z.c), z.c.InL?)) == Nodes(Sib(z.c))
    ensures AllNodes(Across(z)) == AllNodes(z) && SameOrder(z, Across(z))
    ensures SameOrder(z, Across(z).(t := Rotated(Sib(z.c), z.c.InL?)))
  {
    var d, il := Across(z), z.c.InL?;
    ZipUp(z);
    ZipDown(d);
    RotatedApart(d, il);
    RotatedOrder(d.t, il);
    UpOrder(z);
    UpOrder(d);
  }

  method LiftNear(p: RbNode, s: RbNode, il: bool, ghost z: Zipper, ghost S: set<RbNode>, ghost I: set<RbNode>)
    returns (ghost z': Zipper)
    requires Zip(z) && Room(z, S, I) && !z.c.Top? && Sib(z.c).Int? && Near(z.c).Int?
    requires p == z.c.n && s == Sib(z.c).n && il == z.c.InL?
    modifies I`flink, I`blink, S`parent, S`left, S`isRoot, z.head`parent
    ensures z' == NearLifted(z) && Zip(z') && SameOrder(z, z')
  {
    GoAcross(z);
    z' := Rotate(s, il, Across(z), S, I);
    ZipUp(z');
    RotatedApart(Up(z'), !il);
    RotatedOrder(Up(z').t, !il);
    z' := Rotate(p, !il, Up(z'), S, I);
  }

  method PaintNear(p: RbNode, s: RbNode, x: RbNode, ghost il: bool, ghost own: Tree, ghost other: Tree, ghost z: Zipper)
    returns (ghost z': Zipper)
    requires Zip(z) && own.Int? && other.Int? && own.n == p && other.n == s && z.t == Join(il, x, true, own, other)
    modifies x`red, s`red
    ensures z' == z.(t := Join(il, x, false, own, other.(red := true))) && Zip(z') && SameOrder(z, z')
  {
    RootAndChild(z, other);
    PaintedOther(il, x, own, other);
    z' := SetColours(x, false, s, true, z);
  }

  lemma PaintedOther(il: bool, x: RbNode, own: Tree, other: Tree)
    requires Distinct(Join(il, x, true, own, other)) && other.Int?
    ensures Paint(Paint(Join(il, x, true, own, other), x, false), other.n, true)
      == Join(il, x, false, own, other.(red := true))
  {}

  /** Case 2.3d: the parent is red. */
  method NearRedUnderRed(p: RbNode, s: RbNode, x: RbNode, il: bool, ghost z: Zipper, ghost S: set<RbNode>,
      ghost I: set<RbNode>)
    returns (ghost z': Zipper)
    requires Zip(z) && Room(z, S, I) && !z.c.Top? && Sib(z.c).Int? && Red(Near(z.c)) && !Red(Sib(z.c)) && z.c.red
    requires p == z.c.n && s == Sib(z.c).n && x == Near(z.c).n && il == z.c.InL?
    modifies S`red, I`flink, I`blink, S`parent, S`left, S`isRoot, z.head`parent
    ensures z' == Zipper(z.c.up, NearRedFix(z), z.head) && Zip(z') && SameOrder(z, z')
  {
    Around(z);
    z' := LiftNear(p, s, il, z, S, I);
    z' := PaintNear(p, s, x, il, if il then z'.t.l else z'.t.r, if il then z'.t.r else z'.t.l, z');
  }

  /** Case 2.3e: the parent is black. */
  method NearRedUnderBlack(p: RbNode, s: RbNode, x: RbNode, il: bool, ghost z: Zipper, ghost S: set<RbNode>,
      ghost I: set<RbNode>)
    returns (ghost z': Zipper)
    requires Zip(z) && Room(z, S, I) && !z.c.Top? && Sib(z.c).Int? && Red(Near(z.c)) && !Red(Sib(z.c)) && !z.c.red
    requires p == z.c.n && s == Sib(z.c).n && x == Near(z.c).n && il == z.c.InL?
    modifies S`red, I`flink, I`blink, S`parent, S`left, S`isRoot, z.head`parent
    ensures z' == Zipper(z.c.up, NearRedFix(z), z.head) && Zip(z') && SameOrder(z, z')
  {
    Around(z);
    z' := LiftNear(p, s, il, z, S, I);
    Parts(z'.t);
    z' := SetColour(x, false, z');
  }

  /** The last part of rb_delete_node: one of the cases 2.3f, 2.3c, 2.3d, 2.3e. */
  method FinalCases(n: RbNode, p: RbNode, s: RbNode, ghost z: Zipper, ghost S: set<RbNode>, ghost I: set<RbNode>)
    returns (ghost z': Zipper)
    requires Zip(z) && Room(z, S, I) && Deficient(z) && Sib(z.c).Int? && !Red(Sib(z.c)) && !AllBlack(z.c)
    requires n == z.t.n && p == z.c.n && s == Sib(z.c).n
    modifies S`red, I`flink, I`blink, S`parent, S`left, S`isRoot, z.head`parent
    ensures z'.c == z.c.up && Zip(z') && SameOrder(z, z') && RedBlack(Home(z').t)
  {
    Around(z);
    assert s.internal;
    var il := n.left;
    var x := if il then s.flink else s.blink;
    var f := Sibling(x);
    if f.red {
      FarRedFinal(z);
      z' := LiftFar(p, s, f, il, z, S, I);
    } else if !x.red {
      RecolourFinal(z);
      assert !(s.red || !p.red);
      z' := RecolourOnly(p, s, z);
    } else if p.red {
      NearRedFinal(z);
      z' := NearRedUnderRed(p, s, x, il, z, S, I);
    } else {
      NearRedFinal(z);
      z' := NearRedUnderBlack(p, s, x, il, z, S, I);
    }
  }

  method FinishFinal(n: RbNode, p: RbNode, s: RbNode, ghost z: Zipper, ghost S: set<RbNode>, ghost I: set<RbNode>)
    returns (ghost z': Zipper)
    requires Zip(z) && Room(z, S, I) && Deficient(z) && Sib(z.c).Int? && !Red(Sib(z.c)) && !AllBlack(z.c)
    requires n == z.t.n && p == z.c.n && s == Sib(z.c).n
    modifies S`red, I`flink, I`blink, S`parent, S`left, S`isRoot, z.head`parent
    ensures Recoloured(z, z')
  {
    z' := FinalCases(n, p, s, z, S, I);
    ZipHome(z');
    z' := Home(z');
  }

  /** Rotation 2.3b, then the final cases. */
  method LiftThenFinish(n: RbNode, p: RbNode, s: RbNode, ghost z: Zipper, ghost S: set<RbNode>, ghost I: set<RbNode>)
    returns (ghost z': Zipper)
    requires Zip(z) && Room(z, S, I) && Deficient(z) && Sib(z.c).Int? && Red(Sib(z.c)) && !z.c.red
    requires n == z.t.n && p == z.c.n && s == Sib(z.c).n
    modifies S`red, I`flink, I`blink, S`parent, S`left, S`isRoot, z.head`parent
    ensures Recoloured(z, z')
  {
    StillDeficient(z);
    z' := LiftSibling(n, p, s, z, S, I);
    Around(z');
    z' := FinishFinal(n, p, Sibling(n), z', S, I);
  }

  method RotateCases(n: RbNode, p: RbNode, s: RbNode, ghost z: Zipper, ghost S: set<RbNode>, ghost I: set<RbNode>)
    returns (ghost z': Zipper)
    requires Zip(z) && Room(z, S, I) && Deficient(z) && Sib(z.c).Int? && !AllBlack(z.c)
    requires n == z.t.n && p == z.c.n && s == Sib(z.c).n
    modifies S`red, I`flink, I`blink, S`parent, S`left, S`isRoot, z.head`parent
    ensures Recoloured(z, z')
  {
    Around(z);
    SiblingInternal(z);
    if !p.red && s.red {
      z' := LiftThenFinish(n, p, s, z, S, I);
    } else {
      z' := FinishFinal(n, p, s, z, S, I);
    }
  }

  /** Where the code of rb_delete_node stands before each test of the recolouring loop. */
  ghost predicate Standing(n: RbNode, p: RbNode, s: RbNode, z: Zipper)
    reads Nodes(z.t), CNodes(z.c), z.head
  {
    Zip(z) && Deficient(z) && Sib(z.c).Int? && n == z.t.n && p == z.c.n && s == Sib(z.c).n
  }

  lemma Stand(n: RbNode, z: Zipper)
    requires Zip(z) && Deficient(z) && n == z.t.n
    ensures n.parent != null && Sibling(n) != null && Standing(n, n.parent, Sibling(n), z)
  {
    SiblingInternal(z);
    Around(z);
  }

  lemma LoopTest(n: RbNode, p: RbNode, s: RbNode, z: Zipper)
    requires Standing(n, p, s, z)
    ensures s.internal && s.flink != null && s.blink != null
    ensures (!p.red && !s.red && s.internal && !s.flink.red && !s.blink.red) == AllBlack(z.c)
  {
    Around(z);
  }

  /** The body of the recolouring loop, up to the test for the root. */
  method MoveUp(n: RbNode, p: RbNode, s: RbNode, ghost z: Zipper) returns (ghost z': Zipper)
    requires Standing(n, p, s, z) && AllBlack(z.c)
    modifies s`red
    ensures Zip(z') && SameOrder(z, z') && z'.t.n == p && Depth(z'.c) < Depth(z.c)
    ensures p.isRoot == z'.c.Top? && (if z'.c.Top? then RedBlack(z'.t) else Deficient(z'))
  {
    DeficiencyMovesUp(z);
    z' := ReddenSibling(s, z);
  }

  /** The recolouring loop of rb_delete_node; done says that it left the function at the root. */
  method RecolourLoop(n0: RbNode, ghost z0: Zipper, ghost S: set<RbNode>)
    returns (done: bool, n: RbNode, p: RbNode, s: RbNode, ghost z: Zipper)
    requires Zip(z0) && z0.t.n == n0 && AllNodes(z0) <= S && Deficient(z0)
    modifies S`red
    ensures SameOrder(z0, z)
    ensures if done then z.c.Top? && Zip(z) && RedBlack(z.t) else Standing(n, p, s, z) && !AllBlack(z.c)
  {
    z := z0;
    done, n := false, n0;
    Stand(n, z);
    p, s := n.parent, Sibling(n);
    LoopTest(n, p, s, z);
    while !p.red && !s.red && s.internal && !s.flink.red && !s.blink.red
      invariant SameOrder(z0, z) && Standing(n, p, s, z)
      invariant s.internal && s.flink != null && s.blink != null
      invariant (!p.red && !s.red && s.internal && !s.flink.red && !s.blink.red) == AllBlack(z.c)
      decreases Depth(z.c)
    {
      z := MoveUp(n, p, s, z);
      n := p;
      if n.isRoot {
        done := true;
        return;
      }
      Stand(n, z);
      p := n.parent;
      s := Sibling(n);
      LoopTest(n, p, s, z);
    }
  }

  /** The recolouring part of rb_delete_node, from the comment "Recolor" to the end. */
  method Rebalance(n0: RbNode, ghost z0: Zipper, ghost S: set<RbNode>, ghost I: set<RbNode>) returns (ghost z: Zipper)
    requires Zip(z0) && z0.t.n == n0 && Room(z0, S, I) && Deficient(z0)
    modifies S`red, I`flink, I`blink, S`parent, S`left, S`isRoot, z0.head`parent
    ensures Recoloured(z0, z)
  {
    var done, n, p, s;
    done, n, p, s, z := RecolourLoop(n0, z0, S);
    if !done {
      z := RotateCases(n, p, s, z, S, I);
    }
  }
}
