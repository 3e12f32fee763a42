/** Deletion, the colour part: the recolouring loop of rb_delete_node and its five final cases, on tree shapes. */
module RbRepair {
  import opened RbShape
  import opened RbOrder
  import opened RbBalance

  ghost function Sib(c: Ctx): Tree
    requires !c.Top?
  {
    if c.InL? then c.r else c.l
  }

  /** The nephews of the focus: the one on its own side and the one on the far side. */
  ghost function Near(c: Ctx): Tree
    requires !c.Top? && Sib(c).Int?
  {
    if c.InL? then c.r.l else c.l.r
  }

  ghost function Far(c: Ctx): Tree
    requires !c.Top? && Sib(c).Int?
  {
    if c.InL? then c.r.r else c.l.l
  }

  /** The focus has one black node too few for its context; everything else is in order. */
  ghost predicate Deficient(z: Zipper) {
    && Balanced(z.t) && Calm(z.t) && !Red(z.t)
    && !z.c.Top? && CBalanced(z.c, BlackHeight(z.t) + 1) && CCalm(z.c, false) && !RootRed(z.c)
  }

  /** The assertion of rb_delete_node that the sibling is internal. */
  lemma SiblingInternal(z: Zipper)
    requires Deficient(z)
    ensures Sib(z.c).Int? && Balanced(Sib(z.c)) && Calm(Sib(z.c)) && BlackHeight(Sib(z.c)) == BlackHeight(z.t) + 1
    ensures z.c.red ==> !Red(Sib(z.c))
    ensures Balanced(Near(z.c)) && Balanced(Far(z.c)) && Calm(Near(z.c)) && Calm(Far(z.c))
    ensures BlackHeight(Near(z.c)) == BlackHeight(Far(z.c)) == BlackHeight(z.t) + (if Red(Sib(z.c)) then 1 else 0)
    ensures Red(Sib(z.c)) ==> !Red(Near(z.c)) && !Red(Far(z.c)) && Near(z.c).Int?
  {
    assert BlackHeight(Sib(z.c)) == BlackHeight(z.t) + 1 >= 2;
  }

  /** A node with one child on the side `il` and another on the opposite side. */
  ghost function Join(il: bool, n: RbNode, red: bool, own: Tree, other: Tree): Tree {
    if il then Int(n, red, own, other) else Int(n, red, other, own)
  }

  lemma JoinBalanced(il: bool, n: RbNode, red: bool, own: Tree, other: Tree)
    requires Balanced(own) && Balanced(other) && BlackHeight(own) == BlackHeight(other)
    requires Calm(own) && Calm(other) && (red ==> !Red(own) && !Red(other))
    ensures var t := Join(il, n, red, own, other);
      Balanced(t) && Calm(t) && BlackHeight(t) == BlackHeight(own) + (if red then 0 else 1)
  {}

  /** A subtree that makes up for the missing black node completes the whole tree. */
  lemma Completes(z: Zipper, t: Tree)
    requires Deficient(z) && Balanced(t) && Calm(t)
    requires BlackHeight(t) == BlackHeight(z.t) + (if z.c.red then 1 else 2) && (Red(t) ==> z.c.red)
    ensures RedBlack(Home(Zipper(z.c.up, t, z.head)).t)
  {
    if z.c.red && !Red(t) {
      CCalmBlack(z.c.up);
    }
    if !z.c.up.Top? {
      assert RootRed(z.c) == RootRed(z.c.up);
    }
    Assemble(Zipper(z.c.up, t, z.head));
  }

  // ---------- the loop: the sibling turns red and the deficiency moves up ----------

  ghost predicate AllBlack(c: Ctx) {
    !c.Top? && !c.red && Sib(c).Int? && !Red(Sib(c)) && !Red(Near(c)) && !Red(Far(c))
  }

  ghost function SiblingReddened(z: Zipper): Zipper
    requires !z.c.Top? && Sib(z.c).Int?
  {
    Zipper(z.c.up, Join(z.c.InL?, z.c.n, z.c.red, z.t, Sib(z.c).(red := true)), z.head)
  }

  lemma DeficiencyMovesUp(z: Zipper)
    requires Deficient(z) && AllBlack(z.c)
    ensures var u := SiblingReddened(z);
      if u.c.Top? then RedBlack(u.t) else Deficient(u) && BlackHeight(u.t) == BlackHeight(z.t) + 1
  {
    SiblingInternal(z);
    var s := Sib(z.c);
    JoinBalanced(z.c.InL?, s.n, true, Near(z.c), Far(z.c));
    JoinBalanced(z.c.InL?, z.c.n, false, z.t, s.(red := true));
    if !z.c.up.Top? {
      assert RootRed(z.c) == RootRed(z.c.up);
    }
  }

  // ---------- 2.3b: a red sibling below a black parent is lifted first ----------

  ghost function SiblingLifted(z: Zipper): Zipper
    requires !z.c.Top? && Sib(z.c).Int?
  {
    var s := Sib(z.c);
    var up := if z.c.InL? then InL(s.n, false, z.c.up, Far(z.c)) else InR(s.n, false, Far(z.c), z.c.up);
    Zipper(if z.c.InL? then InL(z.c.n, true, up, Near(z.c)) else InR(z.c.n, true, Near(z.c), up), z.t, z.head)
  }

  lemma StillDeficient(z: Zipper)
    requires Deficient(z) && !z.c.red && Red(Sib(z.c))
    ensures Deficient(SiblingLifted(z)) && Sib(SiblingLifted(z).c).Int? && !Red(Sib(SiblingLifted(z).c))
  {
    SiblingInternal(z);
    var u := SiblingLifted(z);
    assert RootRed(u.c) == RootRed(u.c.up);
    if !z.c.up.Top? {
      assert RootRed(z.c) == RootRed(z.c.up) == RootRed(u.c.up);
    }
    assert CBalanced(u.c.up, BlackHeight(z.t) + 1);
    assert CCalm(u.c.up, true);
  }

  // ---------- the final cases: what the parent's subtree becomes ----------

  /** 2.3f: the far nephew is red. */
  ghost function FarRedFix(z: Zipper): Tree
    requires !z.c.Top? && Sib(z.c).Int? && Far(z.c).Int?
  {
    var il := z.c.InL?;
    Join(il, Sib(z.c).n, z.c.red, Join(il, z.c.n, false, z.t, Near(z.c)), Far(z.c).(red := false))
  }

  /** 2.3c: both nephews are black, so the parent is red. */
  ghost function RecolourFix(z: Zipper): Tree
    requires !z.c.Top? && Sib(z.c).Int?
  {
    Join(z.c.InL?, z.c.n, false, z.t, Sib(z.c).(red := true))
  }

  /** 2.3d and 2.3e: only the near nephew x is red. */
  ghost function NearRedFix(z: Zipper): Tree
    requires !z.c.Top? && Sib(z.c).Int? && Near(z.c).Int?
  {
    var il, x := z.c.InL?, Near(z.c);
    var (own, other) := if il then (x.l, x.r) else (x.r, x.l);
    Join(il, x.n, false, Join(il, z.c.n, z.c.red, z.t, own), Join(il, Sib(z.c).n, z.c.red, other, Far(z.c)))
  }

  lemma FarRedFinal(z: Zipper)
    requires Deficient(z) && !Red(Sib(z.c)) && Sib(z.c).Int? && Red(Far(z.c))
    ensures RedBlack(Home(Zipper(z.c.up, FarRedFix(z), z.head)).t)
  {
    SiblingInternal(z);
    var il, s, x, f := z.c.InL?, Sib(z.c), Near(z.c), Far(z.c).(red := false);
    JoinBalanced(il, z.c.n, false, z.t, x);
    assert Balanced(f) && Calm(f) && BlackHeight(f) == BlackHeight(z.t) + 1;
    JoinBalanced(il, s.n, z.c.red, Join(il, z.c.n, false, z.t, x), f);
    Completes(z, FarRedFix(z));
  }

  /** The assertion of case 2.3c: the sibling is black and the parent red; then recolouring suffices. */
  lemma RecolourFinal(z: Zipper)
    requires Deficient(z) && !Red(Sib(z.c)) && Sib(z.c).Int? && !AllBlack(z.c) && !Red(Near(z.c)) && !Red(Far(z.c))
    ensures z.c.red && RedBlack(Home(Zipper(z.c.up, RecolourFix(z), z.head)).t)
  {
    SiblingInternal(z);
    var il, s := z.c.InL?, Sib(z.c);
    JoinBalanced(il, s.n, true, Near(z.c), Far(z.c));
    JoinBalanced(il, z.c.n, false, z.t, s.(red := true));
    Completes(z, RecolourFix(z));
  }

  lemma NearRedFinal(z: Zipper)
    requires Deficient(z) && !Red(Sib(z.c)) && Sib(z.c).Int? && Red(Near(z.c)) && !Red(Far(z.c))
    ensures RedBlack(Home(Zipper(z.c.up, NearRedFix(z), z.head)).t)
  {
    SiblingInternal(z);
    var il, s, x, f := z.c.InL?, Sib(z.c), Near(z.c), Far(z.c);
    var (own, other) := if il then (x.l, x.r) else (x.r, x.l);
    JoinBalanced(il, z.c.n, z.c.red, z.t, own);
    JoinBalanced(il, s.n, z.c.red, other, f);
    JoinBalanced(il, x.n, false, Join(il, z.c.n, z.c.red, z.t, own), Join(il, s.n, z.c.red, other, f));
    Completes(z, NearRedFix(z));
  }
}
