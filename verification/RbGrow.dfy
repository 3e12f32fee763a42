/** Insertion, the tree part of rb_insert_before: mk_new_ext, mk_new_int, lprev, rprev and the caches. */
module RbGrow {
  import opened Wrappers
  import opened RbShape
  import opened RbOrder
  import opened RbBalance
  import opened RbInsert
  import opened RbList

  lemma LeavesAreNodes(t: Tree)
    ensures forall o :: o in Leaves(t) ==> o in Nodes(t)
    ensures forall o :: o in Inner(t) ==> o in Nodes(t)
  {}

  lemma KindsOfNodes(t: Tree)
    requires Rep(t)
    ensures forall o :: o in Leaves(t) ==> !o.internal && !o.isHead && !o.red
    ensures forall o :: o in Inner(t) ==> o.internal && !o.isHead
  {}

  lemma UniqConcat(a: seq<RbNode>, b: seq<RbNode>)
    requires Uniq(a) && Uniq(b) && forall o :: o in a ==> o !in b
    ensures Uniq(a + b)
  {
    forall i, j | 0 <= i < j < |a + b|
      ensures (a + b)[i] != (a + b)[j]
    {
      if i < |a| <= j {
        assert a[i] in a && b[j - |a|] in b;
      }
    }
  }

  lemma {:induction false} LeavesUniq(t: Tree)
    requires Distinct(t)
    ensures Uniq(Leaves(t))
    decreases t
  {
    if t.Int? {
      LeavesUniq(t.l);
      LeavesUniq(t.r);
      LeavesAreNodes(t.l);
      LeavesAreNodes(t.r);
      UniqConcat(Leaves(t.l), Leaves(t.r));
    }
  }

  /** The internal node before (after) the focus in order, or the head. */
  ghost function Pred(z: Zipper): RbNode {
    if InnerBefore(z.c) == [] then z.head else InnerBefore(z.c)[|InnerBefore(z.c)| - 1]
  }

  ghost function Succ(z: Zipper): RbNode {
    if InnerAfter(z.c) == [] then z.head else InnerAfter(z.c)[0]
  }

  method LPrev(n0: RbNode, ghost z0: Zipper) returns (r: RbNode)
    requires Zip(z0) && n0 == z0.t.n && !n0.isHead
    ensures r == Pred(z0) && (r.isHead <==> InnerBefore(z0.c) == []) && Zip(z0)
  {
    var n := n0;
    ghost var z := z0;
    while !n.isRoot
      invariant Zip(z0) && Zip(z) && z.t.n == n && Pred(z) == Pred(z0)
      invariant (InnerBefore(z.c) == [] <==> InnerBefore(z0.c) == [])
      decreases Depth(z.c)
    {
      Surroundings(z);
      if !n.left {
        return n.parent;
      }
      n := n.parent;
      ZipUp(z);
      z := Up(z);
    }
    return n.parent;
  }

  method RPrev(n0: RbNode, ghost z0: Zipper) returns (r: RbNode)
    requires Zip(z0) && n0 == z0.t.n && !n0.isHead
    ensures r == Succ(z0) && (r.isHead <==> InnerAfter(z0.c) == []) && Zip(z0)
  {
    var n := n0;
    ghost var z := z0;
    while !n.isRoot
      invariant Zip(z0) && Zip(z) && z.t.n == n && Succ(z) == Succ(z0)
      invariant (InnerAfter(z.c) == [] <==> InnerAfter(z0.c) == [])
      decreases Depth(z.c)
    {
      Surroundings(z);
      if n.left {
        return n.parent;
      }
      n := n.parent;
      ZipUp(z);
      z := Up(z);
    }
    return n.parent;
  }

  /** "p = lprev(s); if !ishead(p) setrext(p, e)": the internal node before s caches e as its right neighbour. */
  method TellPred(s: RbNode, e: RbNode, ghost z: Zipper)
    requires Zip(z) && s == z.t.n && !s.isHead
    modifies (if InnerBefore(z.c) == [] then {} else {Pred(z)})`rightExt
    ensures Zip(z) && (InnerBefore(z.c) != [] ==> Pred(z).rightExt == e)
  {
    assert allocated(Nodes(z.t)) && allocated(CNodes(z.c));
    var p := LPrev(s, z);
    if !p.isHead {
      p.rightExt := e;
    }
  }

  method TellSucc(s: RbNode, e: RbNode, ghost z: Zipper)
    requires Zip(z) && s == z.t.n && !s.isHead
    modifies (if InnerAfter(z.c) == [] then {} else {Succ(z)})`leftExt
    ensures Zip(z) && (InnerAfter(z.c) != [] ==> Succ(z).leftExt == e)
  {
    assert allocated(Nodes(z.t)) && allocated(CNodes(z.c));
    var p := RPrev(s, z);
    if !p.isHead {
      p.leftExt := e;
    }
  }

  method MkNewExt(key: int, val: int) returns (n: RbNode)
    ensures fresh(n) && n.key == key && n.val == val
    ensures !n.internal && !n.red && !n.isRoot && !n.isHead
  {
    n := new RbNode();
    n.val := val;
    n.key := key;
    n.internal := false;
    n.red := false;
    n.isRoot := false;
    n.isHead := false;
  }

  /** The first half of mk_new_int: a red internal node over the leaves l and r. */
  method NewInternal(l: RbNode, r: RbNode, p: RbNode) returns (i: RbNode)
    requires l != r && !l.isRoot && !r.isRoot
    modifies l`parent, l`left, r`parent, r`left
    ensures fresh(i) && Joint(i, true, l, r) && i.parent == p && !i.isRoot
    ensures i.leftExt == l && i.rightExt == r
  {
    i := new RbNode();
    i.internal := true;
    i.red := true;
    i.isRoot := false;
    i.isHead := false;
    i.flink := l;
    i.blink := r;
    i.parent := p;
    i.leftExt := l;
    i.rightExt := r;
    l.parent := i;
    r.parent := i;
    l.left := true;
    r.left := false;
  }

  /** The second half of mk_new_int: the link from above. */
  method Hang(i: RbNode, p: RbNode, il: bool)
    requires i != p && !i.isRoot
    modifies i`isRoot, i`left
    modifies (if p.isHead then {p} else {})`parent, (if !p.isHead && il then {p} else {})`flink
    modifies (if !p.isHead && !il then {p} else {})`blink
    ensures i.isRoot == p.isHead && (!p.isHead ==> i.left == il)
    ensures if p.isHead then p.parent == i else if il then p.flink == i else p.blink == i
  {
    if p.isHead {
      p.parent := i;
      i.isRoot := true;
    } else if il {
      i.left := true;
      p.flink := i;
    } else {
      i.left := false;
      p.blink := i;
    }
  }

  method HangThere(i: RbNode, p: RbNode, il: bool, ghost z: Zipper)
    requires Apart(z) && Rep(z.t) && CRep(z.c, z.head) && z.head.isHead && i == z.t.n && !i.isRoot
    requires p == Above(z.c, z.head) && (z.c.InL? ==> il) && (z.c.InR? ==> !il) && i.parent == p
    modifies i`isRoot, i`left
    modifies (if z.c.Top? then {z.head} else {})`parent
    modifies (if z.c.InL? then {z.c.n} else {})`flink, (if z.c.InR? then {z.c.n} else {})`blink
    ensures Zip(z)
  {
    TopInCtx(z.c);
    RootInNodes(z.t);
    AboveHead(z.c, z.head);
    assert allocated(AllNodes(z));
    Hang(i, p, il);
    RepKept(z.t);
    Rehung(z);
  }

  lemma AboveHead(c: Ctx, head: RbNode)
    requires CRep(c, head) && head.isHead
    ensures Above(c, head).isHead <==> c.Top?
  {}

  lemma GraftApart(c: Ctx, head: RbNode, i: RbNode, l: RbNode, r: RbNode)
    requires CDistinct(c) && head !in CNodes(c) && l != r && l !in CNodes(c) && r !in CNodes(c) && l != head
    requires r != head
    requires i !in CNodes(c) && i != head && i != l && i != r
    ensures Apart(Zipper(c, Int(i, true, Ext(l), Ext(r)), head))
  {}

  /** A context in which a leaf may be replaced by a red node over two leaves. */
  ghost predicate Graftable(c: Ctx, head: RbNode, l: RbNode, r: RbNode)
    reads CNodes(c), head, l, r
  {
    && CRep(c, head) && CDistinct(c) && head !in CNodes(c) && head.isHead
    && l != r && l !in CNodes(c) && r !in CNodes(c) && l != head && r != head
    && !l.internal && !l.isHead && !l.red && !l.isRoot && !r.internal && !r.isHead && !r.red && !r.isRoot
    && CBalanced(c, 1) && CCalm(c, false) && (c.Top? || c.up.Top? || !RootRed(c))
  }

  ghost predicate Grafted(c: Ctx, i: RbNode, l: RbNode, r: RbNode, z: Zipper) {
    && AllLeaves(z) == LeavesBefore(c) + [l, r] + LeavesAfter(c)
    && AllInner(z) == InnerBefore(c) + [i] + InnerAfter(c)
    && AllNodes(z) == CNodes(c) + {i, l, r}
  }

  /** mk_new_int up to the call of recolor. */
  method Graft(l: RbNode, r: RbNode, p: RbNode, il: bool, ghost c: Ctx, ghost head: RbNode)
    returns (i: RbNode, ghost z: Zipper)
    requires Graftable(c, head, l, r)
    requires p == Above(c, head) && (c.InL? ==> il) && (c.InR? ==> !il)
    modifies l`parent, l`left, r`parent, r`left
    modifies (if c.Top? then {head} else {})`parent
    modifies (if c.InL? then {c.n} else {})`flink, (if c.InR? then {c.n} else {})`blink
    ensures fresh(i) && z == Zipper(c, Int(i, true, Ext(l), Ext(r)), head) && Zip(z)
    ensures i.leftExt == l && i.rightExt == r
  {
    TopInCtx(c);
    assert allocated(CNodes(c)) && allocated(head);
    i := NewInternal(l, r, p);
    GraftApart(c, head, i, l, r);
    CRepSame(Zipper(c, Ext(l), head));
    z := Zipper(c, Int(i, true, Ext(l), Ext(r)), head);
    HangThere(i, p, il, z);
  }

  lemma NewRedNode(i: RbNode, l: RbNode, r: RbNode)
    ensures var t := Int(i, true, Ext(l), Ext(r));
      && Balanced(t) && Calm(t) && BlackHeight(t) == 1
      && Leaves(t) == [l, r] && Inner(t) == [i] && Nodes(t) == {i, l, r}
  {
    assert BlackHeight(Ext(l)) == 1 == BlackHeight(Ext(r));
    assert Inner(Ext(l)) == [] == Inner(Ext(r));
  }

  lemma GraftPending(c: Ctx, i: RbNode, l: RbNode, r: RbNode, head: RbNode, S: set<RbNode>, I: set<RbNode>)
    requires CBalanced(c, 1) && CCalm(c, false) && (c.Top? || c.up.Top? || !RootRed(c))
    requires CNodes(c) + {l, r} <= S && forall o :: o in InnerBefore(c) + InnerAfter(c) ==> o in I
    ensures var z := Zipper(c, Int(i, true, Ext(l), Ext(r)), head);
      Pending(z) && Room(z, S + {i}, I + {i}) && Grafted(c, i, l, r, z)
  {
    NewRedNode(i, l, r);
  }

  method MkNewInt(l: RbNode, r: RbNode, p: RbNode, il: bool, ghost c: Ctx, ghost head: RbNode, ghost S: set<RbNode>,
      ghost I: set<RbNode>)
    returns (ghost i: RbNode, ghost z: Zipper)
    requires Graftable(c, head, l, r)
    requires p == Above(c, head) && (c.InL? ==> il) && (c.InR? ==> !il)
    requires CNodes(c) + {l, r} <= S && (forall o :: o in InnerBefore(c) + InnerAfter(c) ==> o in I)
    modifies S`red, I`flink, I`blink, S`parent, S`left, S`isRoot, head`parent
    ensures fresh(i) && i.leftExt == l && i.rightExt == r
    ensures z.c == Top && z.head == head && Zip(z) && RedBlack(z.t) && Grafted(c, i, l, r, z)
  {
    var newnode, z1 := Graft(l, r, p, il, c, head);
    GraftPending(c, newnode, l, r, head, S, I);
    z := Recolor(newnode, z1, S + {newnode}, I + {newnode});
    i := newnode;
  }

  /** A red root has only leaves below it, so a deeper context has a black root. */
  lemma {:induction false} RedRootIsShallow(z: Zipper)
    requires RedBlack(Home(z).t) && !z.c.Top? && !z.c.up.Top?
    ensures !RootRed(z.c)
    decreases z.c
  {
    if z.c.up.up.Top? {
      assert Home(Up(Up(z))) == Up(Up(z));
      assert Home(z) == Home(Up(z)) == Home(Up(Up(z)));
      Disassemble(z);
      assert RootRed(z.c) == RootRed(z.c.up);
    } else {
      RedRootIsShallow(Up(z));
    }
  }

  lemma {:induction false} InnerUniq(t: Tree)
    requires Distinct(t)
    ensures Uniq(Inner(t))
    decreases t
  {
    if t.Int? {
      InnerUniq(t.l);
      InnerUniq(t.r);
      LeavesAreNodes(t.l);
      LeavesAreNodes(t.r);
      UniqConcat(Inner(t.l), [t.n]);
      UniqConcat(Inner(t.l) + [t.n], Inner(t.r));
    }
  }

  /** The position of the focus in the sequence of leaves. */
  lemma FocusIndex(z: Zipper, ls: seq<RbNode>, k: nat)
    requires z.t.Ext? && AllLeaves(z) == ls && Uniq(ls) && k < |ls| && ls[k] == z.t.n
    ensures LeavesBefore(z.c) == ls[..k] && LeavesAfter(z.c) == ls[k + 1..]
    ensures InnerBefore(z.c) == AllInner(z)[..k] && InnerAfter(z.c) == AllInner(z)[k..]
  {
    assert Leaves(z.t) == [z.t.n] && Inner(z.t) == [];
    assert ls[|LeavesBefore(z.c)|] == z.t.n;
  }

  lemma InsertedBetween<T>(before: seq<T>, after: seq<T>, s: seq<T>, k: nat, x: T)
    requires k <= |s| && before == s[..k] && after == s[k..]
    ensures before + [x] + after == s[..k] + [x] + s[k..]
  {}

  lemma InsertedBeside<T>(before: seq<T>, after: seq<T>, s: seq<T>, k: nat, x: T)
    requires k < |s| && before == s[..k] && after == s[k + 1..]
    ensures before + [x, s[k]] + after == s[..k] + [x] + s[k..]
    ensures before + [s[k], x] + after == s[..k + 1] + [x] + s[k + 1..]
  {}

  lemma SplitOrder(c: Ctx, ls: seq<RbNode>, ins: seq<RbNode>, e: RbNode, f: RbNode, i: RbNode, k: nat)
    requires k < |ls| && k <= |ins| && ls[k] == e
    requires LeavesBefore(c) == ls[..k] && LeavesAfter(c) == ls[k + 1..]
    requires InnerBefore(c) == ins[..k] && InnerAfter(c) == ins[k..]
    ensures LeavesBefore(c) + [f, e] + LeavesAfter(c) == InsertedAt(ls, k, f)
    ensures LeavesBefore(c) + [e, f] + LeavesAfter(c) == InsertedAt(ls, k + 1, f)
    ensures InnerBefore(c) + [i] + InnerAfter(c) == InsertedAt(ins, k, i)
    ensures forall o :: o in InnerBefore(c) + InnerAfter(c) ==> o in ins
  {
    InsertedBeside(LeavesBefore(c), LeavesAfter(c), ls, k, f);
    InsertedBetween(InnerBefore(c), InnerAfter(c), ins, k, i);
  }

  lemma PredSucc(z: Zipper, ins: seq<RbNode>, k: nat)
    requires k <= |ins| && InnerBefore(z.c) == ins[..k] && InnerAfter(z.c) == ins[k..]
    ensures Pred(z) == (if k == 0 then z.head else ins[k - 1])
    ensures Succ(z) == (if k == |ins| then z.head else ins[k])
  {}

  /** Leaf k in focus, and everything on its left and right. */
  lemma FocusAt(t: Tree, head: RbNode, k: nat) returns (z: Zipper)
    requires Zip(Zipper(Top, t, head)) && k < |Leaves(t)|
    ensures Zip(z) && z.t == Ext(Leaves(t)[k]) && z.head == head && Home(z) == Zipper(Top, t, head)
    ensures LeavesBefore(z.c) == Leaves(t)[..k] && LeavesAfter(z.c) == Leaves(t)[k + 1..]
    ensures InnerBefore(z.c) == Inner(t)[..k] && InnerAfter(z.c) == Inner(t)[k..]
    ensures CNodes(z.c) + {Leaves(t)[k]} == Nodes(t) && AllLeaves(z) == Leaves(t) && AllInner(z) == Inner(t)
  {
    var whole := Zipper(Top, t, head);
    WholeOrder(whole);
    z := FocusLeaf(whole, Leaves(t)[k]);
    LeavesUniq(t);
    FocusIndex(z, Leaves(t), k);
  }

  lemma Neighbours(t: Tree, head: RbNode, k: nat) returns (z: Zipper)
    requires Zip(Zipper(Top, t, head)) && k < |Leaves(t)|
    ensures Zip(z) && z.t.n == Leaves(t)[k]
    ensures Pred(z) == (if k == 0 then head else Inner(t)[k - 1]) && (InnerBefore(z.c) == [] <==> k == 0)
    ensures Succ(z) == (if k == |Inner(t)| then head else Inner(t)[k]) && (InnerAfter(z.c) == [] <==> k == |Inner(t)|)
    ensures !z.t.n.isHead
  {
    z := FocusAt(t, head, k);
    PredSucc(z, Inner(t), k);
  }

  /** What the colours around leaf k allow. */
  lemma LeafContext(z: Zipper)
    requires z.t.Ext? && RedBlack(Home(z).t)
    ensures CBalanced(z.c, 1) && CCalm(z.c, false) && (z.c.Top? || z.c.up.Top? || !RootRed(z.c))
  {
    Disassemble(z);
    if !z.c.Top? && !z.c.up.Top? {
      RedRootIsShallow(z);
    }
  }

  /** setnormal on the leaf e in focus, then mk_new_int over e and the new leaf f. */
  method SplitFocus(l: RbNode, r: RbNode, e: RbNode, ghost f: RbNode, ghost z: Zipper, ghost S: set<RbNode>,
      ghost I: set<RbNode>)
    returns (ghost i: RbNode, ghost z': Zipper)
    requires Zip(z) && z.t == Ext(e)
    requires CBalanced(z.c, 1) && CCalm(z.c, false) && (z.c.Top? || z.c.up.Top? || !RootRed(z.c))
    requires (l == e && r == f) || (l == f && r == e)
    requires f !in CNodes(z.c) && f != e && f != z.head && !f.internal && !f.isHead && !f.red && !f.isRoot
    requires CNodes(z.c) + {e, f} <= S && (forall o :: o in InnerBefore(z.c) + InnerAfter(z.c) ==> o in I)
    modifies S`red, I`flink, I`blink, S`parent, S`left, S`isRoot, e`isHead, z.head`parent
    ensures fresh(i) && i.leftExt == l && i.rightExt == r
    ensures z'.c == Top && z'.head == z.head && Zip(z') && RedBlack(z'.t) && Grafted(z.c, i, l, r, z')
  {
    CtxHead(z.c, z.head);
    e.isRoot := false;
    e.isHead := false;
    CRepSame(z);
    i, z' := MkNewInt(l, r, e.parent, e.left, z.c, z.head, S, I);
  }

  lemma LeafToSplit(t: Tree, head: RbNode, k: nat) returns (z: Zipper)
    requires Zip(Zipper(Top, t, head)) && RedBlack(t) && k < |Leaves(t)|
    ensures Zip(z) && z.t == Ext(Leaves(t)[k]) && z.head == head
    ensures CBalanced(z.c, 1) && CCalm(z.c, false) && (z.c.Top? || z.c.up.Top? || !RootRed(z.c))
    ensures LeavesBefore(z.c) == Leaves(t)[..k] && LeavesAfter(z.c) == Leaves(t)[k + 1..]
    ensures InnerBefore(z.c) == Inner(t)[..k] && InnerAfter(z.c) == Inner(t)[k..] && k <= |Inner(t)|
    ensures CNodes(z.c) + {Leaves(t)[k]} == Nodes(t)
    ensures forall o :: o in InnerBefore(z.c) + InnerAfter(z.c) ==> o in Inner(t)
  {
    z := FocusAt(t, head, k);
    LeafContext(z);
  }

  lemma SplitWhole(c: Ctx, z: Zipper, ls: seq<RbNode>, ins: seq<RbNode>, l: RbNode, r: RbNode, e: RbNode, f: RbNode,
      i: RbNode, k: nat)
    requires z.c.Top? && Grafted(c, i, l, r, z) && ((l == e && r == f) || (l == f && r == e)) && e != f
    requires k < |ls| && k <= |ins| && ls[k] == e
    requires LeavesBefore(c) == ls[..k] && LeavesAfter(c) == ls[k + 1..]
    requires InnerBefore(c) == ins[..k] && InnerAfter(c) == ins[k..]
    ensures Leaves(z.t) == InsertedAt(ls, if f == l then k else k + 1, f)
    ensures Inner(z.t) == InsertedAt(ins, k, i)
    ensures Nodes(z.t) == CNodes(c) + {i, e, f}
  {
    WholeOrder(z);
    SplitOrder(c, ls, ins, e, f, i, k);
  }

  /** The same as a step on a whole tree: one more leaf, and one more internal node beside it. */
  method SplitLeaf(l: RbNode, r: RbNode, e: RbNode, ghost f: RbNode, ghost t: Tree, ghost head: RbNode, ghost k: nat)
    returns (ghost i: RbNode, ghost t': Tree)
    requires Zip(Zipper(Top, t, head)) && RedBlack(t) && k < |Leaves(t)| && Leaves(t)[k] == e
    requires (l == e && r == f) || (l == f && r == e)
    requires f !in Nodes(t) && f != head && !f.internal && !f.isHead && !f.red && !f.isRoot
    modifies (Nodes(t) + {f})`red, (Nodes(t) + {f})`parent, (Nodes(t) + {f})`left, (Nodes(t) + {f})`isRoot
    modifies Elems(Inner(t))`flink, Elems(Inner(t))`blink, e`isHead, head`parent
    ensures fresh(i) && i.leftExt == l && i.rightExt == r
    ensures Zip(Zipper(Top, t', head)) && RedBlack(t') && Nodes(t') == Nodes(t) + {f, i}
    ensures Leaves(t') == InsertedAt(Leaves(t), if f == l then k else k + 1, f)
    ensures Inner(t') == InsertedAt(Inner(t), k, i)
  {
    ghost var z := LeafToSplit(t, head, k);
    ghost var z';
    i, z' := SplitFocus(l, r, e, f, z, Nodes(t) + {f}, Elems(Inner(t)));
    t' := z'.t;
    SplitWhole(z.c, z', Leaves(t), Inner(t), l, r, e, f, i, k);
  }

  /** The leaf before f in the list ends at f now: correct the cache of the internal node between the two. */
  method FixBefore(f: RbNode, ghost t: Tree, ghost head: RbNode, ghost k: nat)
    requires Zip(Zipper(Top, t, head)) && k < |Leaves(t)| && Leaves(t)[k] == f
    modifies (if k > 0 then {Inner(t)[k - 1]} else {})`rightExt
    ensures Zip(Zipper(Top, t, head)) && (k > 0 ==> Inner(t)[k - 1].rightExt == f)
  {
    ghost var z := Neighbours(t, head, k);
    assert allocated(Nodes(t));
    TellPred(f, f, z);
  }

  /** Likewise for the leaf after f. */
  method FixAfter(f: RbNode, ghost t: Tree, ghost head: RbNode, ghost k: nat)
    requires Zip(Zipper(Top, t, head)) && k < |Leaves(t)| && Leaves(t)[k] == f
    modifies (if k < |Inner(t)| then {Inner(t)[k]} else {})`leftExt
    ensures Zip(Zipper(Top, t, head)) && (k < |Inner(t)| ==> Inner(t)[k].leftExt == f)
  {
    ghost var z := Neighbours(t, head, k);
    assert allocated(Nodes(t));
    TellSucc(f, f, z);
  }

  lemma CachesGrown(ls: seq<RbNode>, ins: seq<RbNode>, f: RbNode, i: RbNode, k: nat)
    requires k < |ls| == |ins| + 1
    requires forall j :: 0 <= j < |ins| ==> ins[j].leftExt == ls[j]
    requires forall j :: 0 <= j < |ins| && j != k - 1 ==> ins[j].rightExt == ls[j + 1]
    requires k > 0 ==> ins[k - 1].rightExt == f
    requires i.leftExt == f && i.rightExt == ls[k]
    ensures Caches(InsertedAt(ls, k, f), InsertedAt(ins, k, i))
  {}

  lemma CachesExtended(ls: seq<RbNode>, ins: seq<RbNode>, f: RbNode, i: RbNode)
    requires |ls| > 0 && Caches(ls, ins)
    requires i.leftExt == ls[|ls| - 1] && i.rightExt == f
    ensures Caches(InsertedAt(ls, |ls|, f), InsertedAt(ins, |ls| - 1, i))
  {}

  lemma InsertedDistinct(s: seq<RbNode>, k: nat, x: RbNode)
    requires k <= |s| && Uniq(InsertedAt(s, k, x))
    ensures Uniq(s) && x !in s && (k > 0 ==> InsertedAt(s, k, x)[k - 1] == s[k - 1])
  {
    var w := InsertedAt(s, k, x);
    assert forall j :: 0 <= j < |s| ==> s[j] == w[if j < k then j else j + 1];
    assert w[k] == x;
  }

  /** The caches after a new leaf f and a new internal node i have come in at position k. */
  method FixGrown(f: RbNode, ghost t: Tree, ghost head: RbNode, ghost ls: seq<RbNode>, ghost ins: seq<RbNode>,
      ghost i: RbNode, ghost k: nat)
    requires Zip(Zipper(Top, t, head)) && Caches(ls, ins) && k < |ls|
    requires Leaves(t) == InsertedAt(ls, k, f) && Inner(t) == InsertedAt(ins, k, i)
    requires i.leftExt == f && i.rightExt == ls[k]
    modifies (if k > 0 then {Inner(t)[k - 1]} else {})`rightExt
    ensures Zip(Zipper(Top, t, head)) && Caches(Leaves(t), Inner(t))
  {
    InnerUniq(t);
    InsertedDistinct(ins, k, i);
    assert allocated(ins) && allocated(i);
    FixBefore(f, t, head, k);
    CachesGrown(ls, ins, f, i, k);
  }

  /** rb_insert_before a leaf n, after the new leaf f has entered the list. */
  method GrowBefore(n: RbNode, f: RbNode, ghost t: Tree, ghost head: RbNode, ghost k: nat)
    returns (ghost t': Tree, ghost i: RbNode)
    requires Zip(Zipper(Top, t, head)) && RedBlack(t) && Caches(Leaves(t), Inner(t))
    requires k < |Leaves(t)| && Leaves(t)[k] == n
    requires f !in Nodes(t) && f != head && !f.internal && !f.isHead && !f.red && !f.isRoot
    modifies (Nodes(t) + {f})`red, (Nodes(t) + {f})`parent, (Nodes(t) + {f})`left, (Nodes(t) + {f})`isRoot
    modifies Elems(Inner(t))`flink, Elems(Inner(t))`blink, Elems(Inner(t))`rightExt, n`isHead, head`parent
    ensures Zip(Zipper(Top, t', head)) && RedBlack(t') && Caches(Leaves(t'), Inner(t'))
    ensures Leaves(t') == InsertedAt(Leaves(t), k, f)
    ensures fresh(i) && Nodes(t') == Nodes(t) + {f, i}
  {
    assert allocated(Elems(Inner(t)));
    i, t' := SplitLeaf(f, n, n, f, t, head, k);
    assert Caches(Leaves(t), Inner(t));
    assert k > 0 ==> Inner(t')[k - 1] == Inner(t)[k - 1];
    FixGrown(f, t', head, Leaves(t), Inner(t), i, k);
  }

  method FixExtended(f: RbNode, ghost t: Tree, ghost head: RbNode, ghost ls: seq<RbNode>, ghost ins: seq<RbNode>,
      ghost i: RbNode)
    requires Zip(Zipper(Top, t, head)) && Caches(ls, ins) && |ls| > 0
    requires Leaves(t) == InsertedAt(ls, |ls|, f) && Inner(t) == InsertedAt(ins, |ls| - 1, i)
    requires i.leftExt == ls[|ls| - 1] && i.rightExt == f
    ensures Zip(Zipper(Top, t, head)) && Caches(Leaves(t), Inner(t))
  {
    CachesExtended(ls, ins, f, i);
    assert allocated(Elems(Inner(t)));
    FixAfter(f, t, head, |ls|);
  }

  /** rb_insert_before the head, after the new leaf f has entered the list behind the last leaf e. */
  method GrowLast(e: RbNode, f: RbNode, ghost t: Tree, ghost head: RbNode) returns (ghost t': Tree, ghost i: RbNode)
    requires Zip(Zipper(Top, t, head)) && RedBlack(t) && Caches(Leaves(t), Inner(t))
    requires e == Leaves(t)[|Leaves(t)| - 1]
    requires f !in Nodes(t) && f != head && !f.internal && !f.isHead && !f.red && !f.isRoot
    modifies (Nodes(t) + {f})`red, (Nodes(t) + {f})`parent, (Nodes(t) + {f})`left, (Nodes(t) + {f})`isRoot
    modifies Elems(Inner(t))`flink, Elems(Inner(t))`blink, e`isHead, head`parent
    ensures Zip(Zipper(Top, t', head)) && RedBlack(t') && Caches(Leaves(t'), Inner(t'))
    ensures Leaves(t') == InsertedAt(Leaves(t), |Leaves(t)|, f)
    ensures fresh(i) && Nodes(t') == Nodes(t) + {f, i}
  {
    assert allocated(Elems(Inner(t)));
    i, t' := SplitLeaf(e, f, e, f, t, head, |Leaves(t)| - 1);
    assert Caches(Leaves(t), Inner(t));
    FixExtended(f, t', head, Leaves(t), Inner(t), i);
  }

  lemma InternalsAreInner(t: Tree)
    requires Rep(t)
    ensures forall o :: o in Nodes(t) && o.internal ==> o in Inner(t)
  {}

  /** Zip does not depend on the list links of leaves. */
  twostate lemma ZipRelinked(z: Zipper)
    requires old(Zip(z)) && old(allocated(AllNodes(z))) && old(allocated(z.head))
    requires unchanged(AllNodes(z)`red) && unchanged(AllNodes(z)`internal) && unchanged(AllNodes(z)`isHead)
    requires unchanged(AllNodes(z)`parent) && unchanged(AllNodes(z)`left) && unchanged(AllNodes(z)`isRoot)
    requires unchanged(z.head`isHead) && unchanged(z.head`parent)
    requires forall o :: o in AllNodes(z) && o.internal ==> o.flink == old(o.flink) && o.blink == old(o.blink)
    ensures Zip(z)
  {
    RootInNodes(z.t);
    TopInCtx(z.c);
    RepRelinked(z.t);
    CRepRelinked(z);
    if !z.c.Top? {
      assert z.c.n.internal;
    }
  }
}
