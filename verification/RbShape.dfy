/** Nodes of krbtree.cpp, the ghost shape of a tree built from them, and the relation between the two.

    A tree under edit is described as a zipper: the subtree in focus and the context above it. */
module RbShape {

  /** One allocated block.  For internal nodes flink/blink are the left and right child; for external nodes (the
      leaves, which hold the data) and for the head they are the links of the circular list of leaves. */
  class RbNode {
    var red: bool
    var internal: bool
    var left: bool
    var isRoot: bool
    var isHead: bool
    var flink: RbNode?
    var blink: RbNode?
    var parent: RbNode?
    var leftExt: RbNode?
    var rightExt: RbNode?
    var key: int
    var val: int

    /** nd_alloc: nothing is known about the fields of a new block. */
    constructor () {}
  }

  datatype Tree = Ext(n: RbNode) | Int(n: RbNode, red: bool, l: Tree, r: Tree)

  /** A tree with a hole, seen from the hole upward: the hole is the left or the right child of n, or the root. */
  datatype Ctx = Top
               | InL(n: RbNode, red: bool, up: Ctx, r: Tree)
               | InR(n: RbNode, red: bool, l: Tree, up: Ctx)

  datatype Zipper = Zipper(c: Ctx, t: Tree, head: RbNode)

  ghost function Nodes(t: Tree): set<RbNode> {
    match t
    case Ext(n) => {n}
    case Int(n, _, l, r) => {n} + Nodes(l) + Nodes(r)
  }

  ghost function Below(t: Tree): set<RbNode> {
    if t.Ext? then {} else Nodes(t.l) + Nodes(t.r)
  }

  ghost function CNodes(c: Ctx): set<RbNode> {
    match c
    case Top => {}
    case InL(n, _, up, r) => {n} + CNodes(up) + Nodes(r)
    case InR(n, _, l, up) => {n} + Nodes(l) + CNodes(up)
  }

  lemma RootInNodes(t: Tree)
    ensures t.n in Nodes(t)
  {}

  lemma TopInCtx(c: Ctx)
    ensures !c.Top? ==> c.n in CNodes(c)
  {}

  ghost predicate Distinct(t: Tree) {
    t.Int? ==>
      && t.n !in Nodes(t.l) && t.n !in Nodes(t.r) && Nodes(t.l) !! Nodes(t.r)
      && Distinct(t.l) && Distinct(t.r)
  }

  ghost predicate CDistinct(c: Ctx) {
    match c
    case Top => true
    case InL(n, _, up, r) =>
      n !in CNodes(up) && n !in Nodes(r) && CNodes(up) !! Nodes(r) && Distinct(r) && CDistinct(up)
    case InR(n, _, l, up) =>
      n !in CNodes(up) && n !in Nodes(l) && CNodes(up) !! Nodes(l) && Distinct(l) && CDistinct(up)
  }

  ghost predicate Apart(z: Zipper) {
    && Distinct(z.t) && CDistinct(z.c) && Nodes(z.t) !! CNodes(z.c)
    && z.head !in Nodes(z.t) && z.head !in CNodes(z.c)
  }

  // ---------- what the fields of the nodes say about the shape ----------

  ghost predicate Child(m: RbNode, p: RbNode, left: bool)
    reads m`parent, m`left, m`isRoot
  {
    m.parent == p && m.left == left && !m.isRoot
  }

  ghost predicate Joint(n: RbNode, red: bool, ln: RbNode, rn: RbNode)
    reads n`internal, n`isHead, n`red, n`flink, n`blink
    reads ln`parent, ln`left, ln`isRoot, rn`parent, rn`left, rn`isRoot
  {
    && n.internal && !n.isHead && n.red == red && n.flink == ln && n.blink == rn
    && Child(ln, n, true) && Child(rn, n, false)
  }

  ghost predicate Rep(t: Tree)
    reads Nodes(t)`red, Nodes(t)`internal, Nodes(t)`isHead, Nodes(t)`flink, Nodes(t)`blink
    reads Below(t)`parent, Below(t)`left, Below(t)`isRoot
  {
    match t
    case Ext(n) => !n.internal && !n.isHead && !n.red
    case Int(n, red, l, r) =>
      RootInNodes(l);
      RootInNodes(r);
      Joint(n, red, l.n, r.n) && Rep(l) && Rep(r)
  }

  ghost function Above(c: Ctx, head: RbNode): RbNode {
    if c.Top? then head else c.n
  }

  /** The link that points at whatever fills the hole. */
  ghost function Hole(c: Ctx, head: RbNode): RbNode?
    reads (if c.Top? then {head} else {})`parent
    reads (if c.InL? then {c.n} else {})`flink
    reads (if c.InR? then {c.n} else {})`blink
  {
    match c
    case Top => head.parent
    case InL(n, _, _, _) => n.flink
    case InR(n, _, _, _) => n.blink
  }

  ghost predicate Hooked(m: RbNode, c: Ctx, head: RbNode)
    reads m`parent, m`left, m`isRoot
  {
    m.parent == Above(c, head) && m.isRoot == c.Top? && (c.InL? ==> m.left) && (c.InR? ==> !m.left)
  }

  ghost predicate CRep(c: Ctx, head: RbNode)
    reads CNodes(c)`red, CNodes(c)`internal, CNodes(c)`isHead, CNodes(c)`flink, CNodes(c)`blink
    reads CNodes(c)`parent, CNodes(c)`left, CNodes(c)`isRoot
    reads head`isHead, head`parent
  {
    match c
    case Top => head.isHead
    case InL(n, red, up, r) =>
      RootInNodes(r);
      TopInCtx(up);
      && n.internal && !n.isHead && n.red == red && n.blink == r.n && Child(r.n, n, false) && Rep(r)
      && Hooked(n, up, head) && Hole(up, head) == n && CRep(up, head)
    case InR(n, red, l, up) =>
      RootInNodes(l);
      TopInCtx(up);
      && n.internal && !n.isHead && n.red == red && n.flink == l.n && Child(l.n, n, true) && Rep(l)
      && Hooked(n, up, head) && Hole(up, head) == n && CRep(up, head)
  }

  ghost predicate Zip(z: Zipper)
    reads Nodes(z.t)`red, Nodes(z.t)`internal, Nodes(z.t)`isHead, Nodes(z.t)`flink, Nodes(z.t)`blink
    reads Nodes(z.t)`parent, Nodes(z.t)`left, Nodes(z.t)`isRoot
    reads CNodes(z.c)`red, CNodes(z.c)`internal, CNodes(z.c)`isHead, CNodes(z.c)`flink, CNodes(z.c)`blink
    reads CNodes(z.c)`parent, CNodes(z.c)`left, CNodes(z.c)`isRoot
    reads z.head`isHead, z.head`parent
  {
    RootInNodes(z.t);
    TopInCtx(z.c);
    && Apart(z) && Rep(z.t) && CRep(z.c, z.head)
    && Hole(z.c, z.head) == z.t.n && Hooked(z.t.n, z.c, z.head)
  }

  lemma {:induction false} CtxHead(c: Ctx, head: RbNode)
    requires CRep(c, head)
    ensures head.isHead
    decreases c
  {
    if !c.Top? {
      CtxHead(c.up, head);
    }
  }

  // ---------- what may change under a predicate without disturbing it ----------

  twostate lemma RepKept(t: Tree)
    requires old(Rep(t)) && old(allocated(Nodes(t)))
    requires unchanged(Nodes(t)`red) && unchanged(Nodes(t)`internal) && unchanged(Nodes(t)`isHead)
    requires unchanged(Nodes(t)`flink) && unchanged(Nodes(t)`blink)
    requires unchanged(Below(t)`parent) && unchanged(Below(t)`left) && unchanged(Below(t)`isRoot)
    ensures Rep(t)
  {}

  twostate lemma RepSame(t: Tree)
    requires old(Rep(t)) && old(allocated(Nodes(t))) && unchanged(Nodes(t))
    ensures Rep(t)
  {}

  twostate lemma CRepSame(z: Zipper)
    requires old(CRep(z.c, z.head)) && old(allocated(CNodes(z.c))) && old(allocated(z.head))
    requires unchanged(CNodes(z.c)) && unchanged(z.head`isHead) && unchanged(z.head`parent)
    ensures CRep(z.c, z.head)
  {}

  /** A context outlives any change of the one link that points at its hole. */
  twostate lemma CRepKept(z: Zipper)
    requires CDistinct(z.c) && z.head !in CNodes(z.c)
    requires old(CRep(z.c, z.head)) && old(allocated(CNodes(z.c))) && old(allocated(z.head))
    requires unchanged((CNodes(z.c) - {Above(z.c, z.head)}))
    requires !z.c.Top? ==> unchanged(z.c.n`red) && unchanged(z.c.n`internal) && unchanged(z.c.n`isHead)
    requires !z.c.Top? ==> unchanged(z.c.n`parent) && unchanged(z.c.n`left) && unchanged(z.c.n`isRoot)
    requires z.c.InL? ==> unchanged(z.c.n`blink)
    requires z.c.InR? ==> unchanged(z.c.n`flink)
    requires unchanged(z.head`isHead) && (!z.c.Top? ==> unchanged(z.head`parent))
    ensures CRep(z.c, z.head)
  {
    match z.c
    case Top =>
    case InL(n, _, up, r) =>
      RootInNodes(r);
      TopInCtx(up);
      RepSame(r);
      CRepSame(z.(c := up));
    case InR(n, _, l, up) =>
      RootInNodes(l);
      TopInCtx(up);
      RepSame(l);
      CRepSame(z.(c := up));
  }

  /** The subtree in focus hangs in a context of which only the one link to it has changed. */
  twostate lemma Rehung(z: Zipper)
    requires Apart(z) && Rep(z.t) && old(CRep(z.c, z.head)) && old(allocated(CNodes(z.c))) && old(allocated(z.head))
    requires unchanged(CNodes(z.c) - {Above(z.c, z.head)}) && unchanged(z.head`isHead)
    requires !z.c.Top? ==> unchanged(z.c.n`red) && unchanged(z.c.n`internal) && unchanged(z.c.n`isHead)
    requires !z.c.Top? ==> unchanged(z.c.n`parent) && unchanged(z.c.n`left)
    requires !z.c.Top? ==> unchanged(z.c.n`isRoot) && unchanged(z.head`parent)
    requires match z.c
      case Top => z.head.parent == z.t.n
      case InL(n, _, _, _) => n.flink == z.t.n && n.blink == old(n.blink)
      case InR(n, _, _, _) => n.blink == z.t.n && n.flink == old(n.flink)
    requires Hooked(z.t.n, z.c, z.head)
    ensures Zip(z)
  {
    CRepKept(z);
  }

  lemma Parts(t: Tree)
    requires t.Int? && Distinct(t) && Rep(t)
    ensures Distinct(t.l) && Distinct(t.r) && Nodes(t.l) !! Nodes(t.r)
    ensures t.l.n in Nodes(t.l) && t.r.n in Nodes(t.r) && t.n !in Nodes(t.l) && t.n !in Nodes(t.r)
    ensures Nodes(t.l) <= Nodes(t) && Nodes(t.r) <= Nodes(t)
    ensures Joint(t.n, t.red, t.l.n, t.r.n) && Rep(t.l) && Rep(t.r)
  {
    RootInNodes(t.l);
    RootInNodes(t.r);
  }
}
