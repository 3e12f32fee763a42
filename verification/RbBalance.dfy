/** The red-black conditions, on trees and on contexts, and what they say about path lengths. */
module RbBalance {
  import opened RbShape
  import opened RbOrder

  ghost predicate Red(t: Tree) {
    t.Int? && t.red
  }

  /** Number of black nodes on a path from here down to a leaf, along the left edge. */
  ghost function BlackHeight(t: Tree): (h: nat)
    ensures h >= 1
  {
    match t
    case Ext(_) => 1
    case Int(_, red, l, _) => BlackHeight(l) + (if red then 0 else 1)
  }

  ghost predicate Balanced(t: Tree) {
    t.Int? ==> Balanced(t.l) && Balanced(t.r) && BlackHeight(t.l) == BlackHeight(t.r)
  }

  ghost predicate Calm(t: Tree) {
    t.Int? ==> Calm(t.l) && Calm(t.r) && (t.red ==> !Red(t.l) && !Red(t.r))
  }

  /** The colour invariant of a whole tree.  rb_delete_node can leave a red root, but only over two leaves. */
  ghost predicate RedBlack(t: Tree) {
    Balanced(t) && Calm(t) && (Red(t) ==> t.l.Ext? && t.r.Ext?)
  }

  /** A context whose hole expects a subtree of black height h. */
  ghost predicate CBalanced(c: Ctx, h: nat) {
    match c
    case Top => true
    case InL(_, red, up, r) => Balanced(r) && BlackHeight(r) == h && CBalanced(up, h + (if red then 0 else 1))
    case InR(_, red, l, up) => Balanced(l) && BlackHeight(l) == h && CBalanced(up, h + (if red then 0 else 1))
  }

  /** A context that has no red node below a red one when its hole is filled with a tree of the given colour. */
  ghost predicate CCalm(c: Ctx, red: bool) {
    match c
    case Top => true
    case InL(_, cr, up, r) => Calm(r) && (cr ==> !red && !Red(r)) && CCalm(up, cr)
    case InR(_, cr, l, up) => Calm(l) && (cr ==> !red && !Red(l)) && CCalm(up, cr)
  }

  ghost predicate RootRed(c: Ctx) {
    !c.Top? && (if c.up.Top? then c.red else RootRed(c.up))
  }

  lemma CCalmBlack(c: Ctx)
    requires CCalm(c, true)
    ensures CCalm(c, false)
  {}

  lemma {:induction false} Assemble(z: Zipper)
    requires Balanced(z.t) && Calm(z.t) && CBalanced(z.c, BlackHeight(z.t)) && CCalm(z.c, Red(z.t))
    requires if z.c.Top? then !Red(z.t) else !RootRed(z.c)
    ensures RedBlack(Home(z).t) && !Red(Home(z).t)
    decreases z.c
  {
    if !z.c.Top? {
      Assemble(Up(z));
    }
  }

  /** The converse: any subtree of a balanced tree and its context satisfy the local conditions. */
  lemma {:induction false} Disassemble(z: Zipper)
    requires Balanced(Home(z).t) && Calm(Home(z).t)
    ensures Balanced(z.t) && Calm(z.t) && CBalanced(z.c, BlackHeight(z.t)) && CCalm(z.c, Red(z.t))
    ensures Red(Home(z).t) == if z.c.Top? then Red(z.t) else RootRed(z.c)
    decreases z.c
  {
    if !z.c.Top? {
      Disassemble(Up(z));
    }
  }
}
