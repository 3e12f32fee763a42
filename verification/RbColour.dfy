/** setred and setblack, seen as a step on a tree. */
module RbColour {
  import opened RbShape
  import opened RbOrder

  ghost function Paint(t: Tree, n: RbNode, red: bool): (p: Tree)
    ensures p.n == t.n && Nodes(p) == Nodes(t) && Leaves(p) == Leaves(t) && Inner(p) == Inner(t)
    ensures n !in Nodes(t) ==> p == t
  {
    match t
    case Ext(_) => t
    case Int(m, r, lt, rt) => Int(m, if m == n then red else r, Paint(lt, n, red), Paint(rt, n, red))
  }

  datatype Stroke = Stroke(t: Tree, n: RbNode, red: bool)

  lemma PaintDistinct(t: Tree, n: RbNode, red: bool)
    requires Distinct(t)
    ensures Distinct(Paint(t, n, red))
  {}

  twostate lemma {:induction false} Painted(s: Stroke)
    requires Distinct(s.t) && old(Rep(s.t)) && old(allocated(Nodes(s.t)))
    requires unchanged((Nodes(s.t) - {s.n})`red)
    requires unchanged(Nodes(s.t)`internal) && unchanged(Nodes(s.t)`isHead)
    requires unchanged(Nodes(s.t)`flink) && unchanged(Nodes(s.t)`blink)
    requires unchanged(Below(s.t)`parent) && unchanged(Below(s.t)`left) && unchanged(Below(s.t)`isRoot)
    requires s.n.internal && s.n.red == s.red
    ensures Rep(Paint(s.t, s.n, s.red))
    decreases s.t
  {
    if s.t.Int? {
      Painted(s.(t := s.t.l));
      Painted(s.(t := s.t.r));
    }
  }

  datatype Brush = Brush(z: Zipper, n: RbNode, red: bool)

  twostate lemma Repainted(b: Brush)
    requires old(Zip(b.z)) && b.n in Nodes(b.z.t) && old(allocated(AllNodes(b.z))) && old(allocated(b.z.head))
    requires unchanged(AllNodes(b.z) - {b.n}) && unchanged(b.z.head)
    requires unchanged(b.n`internal) && unchanged(b.n`isHead) && unchanged(b.n`flink) && unchanged(b.n`blink)
    requires unchanged(b.n`parent) && unchanged(b.n`left) && unchanged(b.n`isRoot)
    requires b.n.internal && b.n.red == b.red
    ensures Zip(b.z.(t := Paint(b.z.t, b.n, b.red)))
  {
    PaintDistinct(b.z.t, b.n, b.red);
    Painted(Stroke(b.z.t, b.n, b.red));
    CRepSame(b.z);
  }

  /** Two strokes. */
  method SetColours(a: RbNode, ca: bool, b: RbNode, cb: bool, ghost z: Zipper) returns (ghost z': Zipper)
    requires Zip(z) && {a, b} <= Nodes(z.t) && a.internal && b.internal
    modifies a`red, b`red
    ensures z' == z.(t := Paint(Paint(z.t, a, ca), b, cb)) && Zip(z') && SameOrder(z, z')
  {
    z' := SetColour(a, ca, z);
    z' := SetColour(b, cb, z');
  }

  method SetColour(n: RbNode, red: bool, ghost z: Zipper) returns (ghost z': Zipper)
    requires Zip(z) && n in Nodes(z.t) && n.internal
    modifies n`red
    ensures n.red == red
    ensures z' == z.(t := Paint(z.t, n, red)) && Zip(z') && SameOrder(z, z')
  {
    z' := z.(t := Paint(z.t, n, red));
    assert allocated(AllNodes(z));
    n.red := red;
    Repainted(Brush(z, n, red));
  }
}
