/** Deletion, the tree part of rb_delete_node: splicing out the leaf and its parent, and the caches. */
module RbShrink {
  import opened Wrappers
  import opened RbShape
  import opened RbOrder
  import opened RbColour
  import opened RbBalance
  import opened RbInsert
  import opened RbList
  import opened RbGrow
  import opened RbRepair
  import opened RbDelete

  /** The tree after the leaf in focus and its parent are gone: the sibling stands where the parent stood. */
  ghost function Spliced(z: Zipper): Zipper
    requires !z.c.Top?
  {
    Zipper(z.c.up, Sib(z.c), z.head)
  }

  /** The sibling of a leaf is a leaf or a red node over two leaves. */
  lemma SiblingOfLeaf(z: Zipper)
    requires z.t.Ext? && !z.c.Top? && Balanced(Home(z).t) && Calm(Home(z).t)
    ensures Sib(z.c).Ext? || (Red(Sib(z.c)) && Sib(z.c).l.Ext? && Sib(z.c).r.Ext? && !z.c.red)
    ensures BlackHeight(Sib(z.c)) == 1 && Balanced(Sib(z.c)) && Calm(Sib(z.c))
  {
    Disassemble(z);
  }

  /** The colours after splicing: at the root and below a red parent nothing remains to do; a red sibling has to
      turn black; otherwise one black node is missing. */
  lemma SplicedColours(z: Zipper)
    requires z.t.Ext? && !z.c.Top? && RedBlack(Home(z).t)
    ensures var u := Spliced(z);
      if z.c.up.Top? then RedBlack(u.t)
      else if u.t.Int? then RedBlack(Home(u.(t := u.t.(red := false))).t)
      else if z.c.red then RedBlack(Home(u).t)
      else Deficient(u)
  {
    var u := Spliced(z);
    SiblingOfLeaf(z);
    Disassemble(z);
    if !z.c.up.Top? {
      RedRootIsShallow(z);
      assert RootRed(z.c) == RootRed(z.c.up);
      if u.t.Int? {
        assert BlackHeight(u.t.(red := false)) == 2;
        Assemble(u.(t := u.t.(red := false)));
      } else if z.c.red {
        CCalmBlack(z.c.up);
        Assemble(u);
      }
    }
  }

  lemma RemoveMiddle(a: seq<RbNode>, x: RbNode, b: seq<RbNode>)
    ensures |a| < |a + [x] + b| && (a + [x] + b)[|a|] == x && RemovedAt(a + [x] + b, |a|) == a + b
  {
    var s := a + [x] + b;
    assert s[..|a|] == a && s[|a| + 1..] == b;
  }

  /** Position, among the internal nodes, of the parent that goes together with the leaf in focus. */
  ghost function ParentIndex(z: Zipper): (j: nat)
    requires !z.c.Top?
  {
    if z.c.InL? then |InnerBefore(z.c.up)| else |InnerBefore(z.c.up) + Inner(z.c.l)|
  }

  lemma RemoveFirstOfMany(a: seq<RbNode>, x: RbNode, b: seq<RbNode>, c: seq<RbNode>)
    ensures a + [] + ([x] + b + c) == a + [x] + (b + c) && a + b + c == a + (b + c)
  {}

  lemma SplicedLeaves(z: Zipper)
    requires z.t.Ext? && !z.c.Top?
    ensures var k := |LeavesBefore(z.c)|;
      k < |AllLeaves(z)| && AllLeaves(Spliced(z)) == RemovedAt(AllLeaves(z), k)
  {
    RemoveMiddle(LeavesBefore(z.c), z.t.n, LeavesAfter(z.c));
    if z.c.InL? {
      RemoveFirstOfMany(LeavesBefore(z.c.up), z.t.n, Leaves(z.c.r), LeavesAfter(z.c.up));
    }
  }

  lemma SplicedInner(z: Zipper)
    requires z.t.Ext? && !z.c.Top?
    ensures var j := ParentIndex(z);
      j < |AllInner(z)| && AllInner(z)[j] == z.c.n && AllInner(Spliced(z)) == RemovedAt(AllInner(z), j)
    ensures ParentIndex(z) == if z.c.InL? then |LeavesBefore(z.c)| else |LeavesBefore(z.c)| - 1
  {
    if z.c.InL? {
      RemoveMiddle(InnerBefore(z.c.up), z.c.n, Inner(z.c.r) + InnerAfter(z.c.up));
      RemoveFirstOfMany(InnerBefore(z.c.up), z.c.n, Inner(z.c.r), InnerAfter(z.c.up));
    } else {
      RemoveMiddle(InnerBefore(z.c.up) + Inner(z.c.l), z.c.n, InnerAfter(z.c.up));
      assert AllInner(z) == InnerBefore(z.c) + InnerAfter(z.c.up);
    }
  }

  lemma SplicedApart(z: Zipper)
    requires Apart(z) && z.t.Ext? && !z.c.Top?
    ensures Apart(Spliced(z)) && AllNodes(Spliced(z)) == AllNodes(z) - {z.t.n, z.c.n}
  {}

  // ---------- on the nodes ----------

  lemma SpliceSpot(z: Zipper)
    requires Zip(z) && z.t.Ext? && !z.c.Top?
    ensures var n, p, s := z.t.n, z.c.n, Sib(z.c).n;
      && !n.isRoot && n.parent == p && p.internal && p.isRoot == z.c.up.Top? && p.red == z.c.red
      && Sibling(n) == s && s.internal == Sib(z.c).Int? && !s.isHead && s !in CNodes(z.c.up) && s != z.head && !s.isRoot
      && p.parent == Above(z.c.up, z.head) && (z.c.up.InL? ==> p.left) && (z.c.up.InR? ==> !p.left)
      && p !in CNodes(z.c.up) + {z.head} && Above(z.c.up, z.head) !in Nodes(Sib(z.c))
      && (!z.c.up.Top? ==> p.parent in CNodes(z.c.up))
  {
    RootInNodes(Sib(z.c));
    TopInCtx(z.c.up);
  }

  /** The leaf's parent is the root: the sibling becomes the root. */
  method SpliceRoot(p: RbNode, s: RbNode, ghost z: Zipper)
    requires Zip(z) && z.t.Ext? && !z.c.Top? && z.c.up.Top? && p == z.c.n && s == Sib(z.c).n
    modifies s`parent, s`isRoot, z.head`parent
    ensures Zip(Spliced(z))
  {
    SpliceSpot(z);
    SplicedApart(z);
    s.parent := p.parent;
    s.parent.parent := s;
    s.isRoot := true;
    RepKept(Sib(z.c));
    CRepKept(Spliced(z));
  }

  /** Otherwise the sibling takes the place of the leaf's parent below the grandparent. */
  method SpliceBelow(p: RbNode, s: RbNode, ghost z: Zipper)
    requires Zip(z) && z.t.Ext? && !z.c.Top? && !z.c.up.Top? && p == z.c.n && s == Sib(z.c).n
    modifies s`parent, s`left
    modifies (if z.c.up.InL? then {z.c.up.n} else {})`flink, (if z.c.up.InR? then {z.c.up.n} else {})`blink
    ensures Zip(Spliced(z))
  {
    SpliceSpot(z);
    SplicedApart(z);
    assert allocated(AllNodes(Spliced(z)));
    HangSibling(p, s);
    RepKept(Sib(z.c));
    Rehung(Spliced(z));
  }

  /** The links of the sibling to and from the grandparent. */
  method HangSibling(p: RbNode, s: RbNode)
    requires p.parent != null && p.parent != s
    modifies s`parent, s`left
    modifies (if p.left then {p.parent} else {})`flink, (if p.left then {} else {p.parent})`blink
    ensures s.parent == old(p.parent) && s.left == old(p.left)
    ensures if old(p.left) then old(p.parent).flink == s else old(p.parent).blink == s
  {
    var gp := p.parent;
    s.parent := gp;
    if p.left {
      gp.flink := s;
      s.left := true;
    } else {
      gp.blink := s;
      s.left := false;
    }
  }

  /** Both neighbouring internal nodes of the focus are told its first and its last leaf. */
  method FixEnds(s: RbNode, first: RbNode, last: RbNode, ghost z: Zipper)
    requires Zip(z) && s == z.t.n && !s.isHead
    modifies (if InnerBefore(z.c) == [] then {} else {Pred(z)})`rightExt
    modifies (if InnerAfter(z.c) == [] then {} else {Succ(z)})`leftExt
    ensures Zip(z)
    ensures InnerBefore(z.c) != [] ==> Pred(z).rightExt == first
    ensures InnerAfter(z.c) != [] ==> Succ(z).leftExt == last
  {
    TellPred(s, first, z);
    assert allocated(Pred(z));
    TellSucc(s, last, z);
  }

  /** Where an element of the shortened sequence stood before. */
  ghost function Before(i: nat, j: nat): nat {
    if i < j then i else i + 1
  }

  lemma CachesShrunk(ls: seq<RbNode>, ins: seq<RbNode>, k: nat, j: nat, a: nat, b: nat)
    requires |ls| == |ins| + 1 && k < |ls| && j < |ins| && a <= b < |ls| - 1
    requires (j == k && a == k) || (j + 1 == k && b == j)
    requires var ms, jns := RemovedAt(ls, k), RemovedAt(ins, j);
      && (forall i :: 0 <= i < |jns| ==> jns[i].leftExt == if i == b then ms[b] else ls[Before(i, j)])
      && (forall i :: 0 <= i < |jns| ==> jns[i].rightExt == if i + 1 == a then ms[a] else ls[Before(i, j) + 1])
    ensures Caches(RemovedAt(ls, k), RemovedAt(ins, j))
  {}

  lemma RemovedUniq(s: seq<RbNode>, j: nat)
    requires Uniq(s) && j < |s|
    ensures Uniq(RemovedAt(s, j))
    ensures forall i :: 0 <= i < |s| - 1 ==> RemovedAt(s, j)[i] == s[Before(i, j)]
  {}

  /** The positions of the ends of the focus among all leaves, and of the internal nodes beside them. */
  lemma EndsAt(z: Zipper) returns (a: nat, b: nat)
    ensures a == |InnerBefore(z.c)| && b == |InnerBefore(z.c) + Inner(z.t)| && a <= b < |AllLeaves(z)|
    ensures (InnerBefore(z.c) == [] <==> a == 0) && (InnerAfter(z.c) == [] <==> b == |AllInner(z)|)
    ensures b <= |AllInner(z)|
    ensures a > 0 ==> Pred(z) == AllInner(z)[a - 1]
    ensures b < |AllInner(z)| ==> Succ(z) == AllInner(z)[b]
    ensures Leaves(z.t)[0] == AllLeaves(z)[a] && Leaves(z.t)[|Leaves(z.t)| - 1] == AllLeaves(z)[b]
  {
    a, b := |InnerBefore(z.c)|, |InnerBefore(z.c) + Inner(z.t)|;
  }

  /** FixEnds, in terms of the sequence of internal nodes. */
  method FixAround(s: RbNode, first: RbNode, last: RbNode, ghost z: Zipper, ghost a: nat, ghost b: nat)
    requires Zip(z) && s == z.t.n && !s.isHead && Uniq(AllInner(z))
    requires a == |InnerBefore(z.c)| && b == |InnerBefore(z.c) + Inner(z.t)|
    modifies (if InnerBefore(z.c) == [] then {} else {Pred(z)})`rightExt
    modifies (if InnerAfter(z.c) == [] then {} else {Succ(z)})`leftExt
    ensures Zip(z)
    ensures forall i :: 0 <= i < |AllInner(z)| ==>
      AllInner(z)[i].leftExt == if i == b then last else old(AllInner(z)[i].leftExt)
    ensures forall i :: 0 <= i < |AllInner(z)| ==>
      AllInner(z)[i].rightExt == if i + 1 == a then first else old(AllInner(z)[i].rightExt)
  {
    ghost var a', b' := EndsAt(z);
    assert allocated(AllInner(z)) && allocated(Elems(AllInner(z)));
    FixEnds(s, first, last, z);
  }

  lemma BeforeFix(z: Zipper, ls: seq<RbNode>, ins: seq<RbNode>, k: nat, j: nat) returns (a: nat, b: nat)
    requires Caches(ls, ins) && Uniq(ins) && k < |ls| && j < |ins|
    requires AllLeaves(z) == RemovedAt(ls, k) && AllInner(z) == RemovedAt(ins, j)
    requires (j == k && |InnerBefore(z.c)| == k) || (j + 1 == k && |InnerBefore(z.c) + Inner(z.t)| == j)
    ensures a == |InnerBefore(z.c)| && b == |InnerBefore(z.c) + Inner(z.t)| && Uniq(AllInner(z))
    ensures a <= b < |ls| - 1 == |ins| && ((j == k && a == k) || (j + 1 == k && b == j))
    ensures Leaves(z.t)[0] == AllLeaves(z)[a] && Leaves(z.t)[|Leaves(z.t)| - 1] == AllLeaves(z)[b]
    ensures forall i :: 0 <= i < |AllInner(z)| ==>
      AllInner(z)[i].leftExt == ls[Before(i, j)] && AllInner(z)[i].rightExt == ls[Before(i, j) + 1]
  {
    a, b := EndsAt(z);
    RemovedUniq(ins, j);
  }

  /** The caches once the leaf ls[k] and the internal node ins[j] have been spliced out. */
  method FixShrunk(s: RbNode, first: RbNode, last: RbNode, ghost z: Zipper, ghost ls: seq<RbNode>,
      ghost ins: seq<RbNode>, ghost k: nat, ghost j: nat)
    requires Zip(z) && s == z.t.n && !s.isHead && Caches(ls, ins) && Uniq(ins) && k < |ls| && j < |ins|
    requires first == Leaves(z.t)[0] && last == Leaves(z.t)[|Leaves(z.t)| - 1]
    requires AllLeaves(z) == RemovedAt(ls, k) && AllInner(z) == RemovedAt(ins, j)
    requires (j == k && |InnerBefore(z.c)| == k) || (j + 1 == k && |InnerBefore(z.c) + Inner(z.t)| == j)
    modifies (if InnerBefore(z.c) == [] then {} else {Pred(z)})`rightExt
    modifies (if InnerAfter(z.c) == [] then {} else {Succ(z)})`leftExt
    ensures Zip(z) && Caches(AllLeaves(z), AllInner(z))
  {
    ghost var a, b := BeforeFix(z, ls, ins, k, j);
    FixAround(s, first, last, z, a, b);
    CachesShrunk(ls, ins, k, j, a, b);
  }

  /** The leaf in focus of a whole tree with its list positions: what the removal of that leaf starts from. */
  ghost predicate Doomed(z: Zipper, ls: seq<RbNode>, ins: seq<RbNode>, k: nat, j: nat)
    reads Nodes(z.t), CNodes(z.c), z.head, Elems(ins)
  {
    && Zip(z) && z.t.Ext? && !z.c.Top? && RedBlack(Home(z).t)
    && AllLeaves(z) == ls && AllInner(z) == ins && Caches(ls, ins) && Uniq(ins)
    && k == |LeavesBefore(z.c)| && j == ParentIndex(z)
  }

  /** After splicing: the sibling is in focus, only its colour and the caches around it may be wrong. */
  ghost predicate Orphaned(u: Zipper, ls: seq<RbNode>, ins: seq<RbNode>, k: nat, j: nat)
    reads Nodes(u.t), CNodes(u.c), u.head, Elems(ins)
  {
    && Zip(u) && Caches(ls, ins) && Uniq(ins) && k < |ls| && j < |ins|
    && AllLeaves(u) == RemovedAt(ls, k) && AllInner(u) == RemovedAt(ins, j)
    && ((j == k && |InnerBefore(u.c)| == k) || (j + 1 == k && |InnerBefore(u.c) + Inner(u.t)| == j))
    && (u.t.Ext? || (u.t.red && u.t.l.Ext? && u.t.r.Ext?))
  }

  lemma OrphanFacts(z: Zipper, ls: seq<RbNode>, ins: seq<RbNode>, k: nat, j: nat)
    requires Doomed(z, ls, ins, k, j)
    ensures var u := Spliced(z);
      && k < |ls| && j < |ins|
      && AllLeaves(u) == RemovedAt(ls, k) && AllInner(u) == RemovedAt(ins, j)
      && ((j == k && |InnerBefore(u.c)| == k) || (j + 1 == k && |InnerBefore(u.c) + Inner(u.t)| == j))
      && (u.t.Ext? || (u.t.red && u.t.l.Ext? && u.t.r.Ext?))
      && AllNodes(u) == AllNodes(z) - {z.t.n, z.c.n}
  {
    SplicedLeaves(z);
    SplicedInner(z);
    SiblingOfLeaf(z);
    SplicedApart(z);
  }

  method Orphan(p: RbNode, s: RbNode, ghost z: Zipper, ghost ls: seq<RbNode>, ghost ins: seq<RbNode>, ghost k: nat,
      ghost j: nat)
    requires Doomed(z, ls, ins, k, j) && !z.c.up.Top? && p == z.c.n && s == Sib(z.c).n
    modifies s`parent, s`left
    modifies (if z.c.up.InL? then {z.c.up.n} else {})`flink, (if z.c.up.InR? then {z.c.up.n} else {})`blink
    ensures Orphaned(Spliced(z), ls, ins, k, j)
  {
    OrphanFacts(z, ls, ins, k, j);
    assert allocated(ins) && allocated(Elems(ins));
    SpliceBelow(p, s, z);
  }

  /** "Update proper rext and lext values". */
  method Recache(s: RbNode, ghost u: Zipper, ghost ls: seq<RbNode>, ghost ins: seq<RbNode>, ghost k: nat, ghost j: nat)
    requires Orphaned(u, ls, ins, k, j) && s == u.t.n
    modifies (if InnerBefore(u.c) == [] then {} else {Pred(u)})`rightExt
    modifies (if InnerAfter(u.c) == [] then {} else {Succ(u)})`leftExt
    ensures Zip(u) && Caches(AllLeaves(u), AllInner(u))
  {
    if !s.internal {
      FixShrunk(s, s, s, u, ls, ins, k, j);
    } else if !s.red {
      assert false;
    } else {
      assert Leaves(u.t) == [u.t.l.n, u.t.r.n];
      FixShrunk(s, s.flink, s.blink, u, ls, ins, k, j);
    }
  }

  /** The colours after the caches: setblack(s), nothing, or the recolouring part. */
  method Recompose(s: RbNode, ir: bool, ghost z: Zipper, ghost S: set<RbNode>, ghost I: set<RbNode>)
    returns (ghost u: Zipper)
    requires z.t.Ext? && !z.c.Top? && !z.c.up.Top? && RedBlack(Home(z).t) && ir == z.c.red
    requires Zip(Spliced(z)) && s == Sib(z.c).n && Room(Spliced(z), S, I)
    modifies S`red, I`flink, I`blink, S`parent, S`left, S`isRoot, z.head`parent
    ensures Recoloured(Spliced(z), u)
  {
    SplicedColours(z);
    u := Spliced(z);
    if s.internal {
      SiblingOfLeaf(z);
      Parts(u.t);
      u := SetColour(s, false, u);
      ZipHome(u);
      u := Home(u);
    } else if ir {
      ZipHome(u);
      u := Home(u);
    } else {
      u := Rebalance(s, u, S, I);
    }
  }

  lemma ShrinkRoom(z: Zipper, ls: seq<RbNode>, ins: seq<RbNode>, k: nat, j: nat)
    requires Doomed(z, ls, ins, k, j) && !z.c.up.Top?
    ensures var u := Spliced(z);
      && Room(u, AllNodes(z), Elems(ins)) && u.t.n in AllNodes(z) && z.c.up.n in Elems(ins)
      && (InnerBefore(u.c) != [] ==> Pred(u) in Elems(ins)) && (InnerAfter(u.c) != [] ==> Succ(u) in Elems(ins))
  {
    var u := Spliced(z);
    OrphanFacts(z, ls, ins, k, j);
    RootInNodes(u.t);
    InRoom(u, AllNodes(z), Elems(ins));
    if InnerBefore(u.c) != [] {
      assert Pred(u) in InnerBefore(u.c);
    }
    if InnerAfter(u.c) != [] {
      assert Succ(u) in InnerAfter(u.c);
    }
  }

  lemma RelinkRoom(z: Zipper, ls: seq<RbNode>, ins: seq<RbNode>, k: nat, j: nat)
    requires Doomed(z, ls, ins, k, j) && !z.c.up.Top?
    ensures var u := Spliced(z);
      && u.t.n == Sib(z.c).n && z.c.up.n in Elems(ins)
      && (InnerBefore(u.c) != [] ==> Pred(u) in Elems(ins)) && (InnerAfter(u.c) != [] ==> Succ(u) in Elems(ins))
  {
    ShrinkRoom(z, ls, ins, k, j);
  }

  method Relink(p: RbNode, s: RbNode, ghost z: Zipper, ghost ls: seq<RbNode>, ghost ins: seq<RbNode>, ghost k: nat,
      ghost j: nat)
    requires Doomed(z, ls, ins, k, j) && !z.c.up.Top? && p == z.c.n && s == Sib(z.c).n
    modifies s`parent, s`left, z.c.up.n`flink, z.c.up.n`blink, Elems(ins)`leftExt, Elems(ins)`rightExt
    ensures var u := Spliced(z); Zip(u) && Caches(AllLeaves(u), AllInner(u))
  {
    RelinkRoom(z, ls, ins, k, j);
    Orphan(p, s, z, ls, ins, k, j);
    RecacheInRoom(s, Spliced(z), ls, ins, k, j);
  }

  method RecacheInRoom(s: RbNode, ghost u: Zipper, ghost ls: seq<RbNode>, ghost ins: seq<RbNode>, ghost k: nat,
      ghost j: nat)
    requires Orphaned(u, ls, ins, k, j) && s == u.t.n
    requires (InnerBefore(u.c) != [] ==> Pred(u) in Elems(ins)) && (InnerAfter(u.c) != [] ==> Succ(u) in Elems(ins))
    modifies Elems(ins)`leftExt, Elems(ins)`rightExt
    ensures Zip(u) && Caches(AllLeaves(u), AllInner(u))
  {
    Recache(s, u, ls, ins, k, j);
  }

  /** rb_delete_node for a leaf whose parent is not the root, after unlink_node. */
  method Shrink(p: RbNode, s: RbNode, ghost z: Zipper, ghost ls: seq<RbNode>, ghost ins: seq<RbNode>, ghost k: nat,
      ghost j: nat)
    returns (ghost u: Zipper)
    requires Doomed(z, ls, ins, k, j) && !z.c.up.Top? && p == z.c.n && s == Sib(z.c).n
    modifies AllNodes(z)`red, AllNodes(z)`parent, AllNodes(z)`left, AllNodes(z)`isRoot, z.head`parent
    modifies Elems(ins)`flink, Elems(ins)`blink, Elems(ins)`leftExt, Elems(ins)`rightExt
    ensures Recoloured(Spliced(z), u) && Caches(AllLeaves(u), AllInner(u))
  {
    ShrinkRoom(z, ls, ins, k, j);
    var ir := p.red;
    Relink(p, s, z, ls, ins, k, j);
    u := RecomposeCached(s, ir, z, AllNodes(z), Elems(ins));
  }

  /** Colours and rotations leave the caches right. */
  method RecomposeCached(s: RbNode, ir: bool, ghost z: Zipper, ghost S: set<RbNode>, ghost I: set<RbNode>)
    returns (ghost u: Zipper)
    requires z.t.Ext? && !z.c.Top? && !z.c.up.Top? && RedBlack(Home(z).t) && ir == z.c.red
    requires Zip(Spliced(z)) && s == Sib(z.c).n && Room(Spliced(z), S, I)
    requires Caches(AllLeaves(Spliced(z)), AllInner(Spliced(z)))
    modifies S`red, I`flink, I`blink, S`parent, S`left, S`isRoot, z.head`parent
    ensures Recoloured(Spliced(z), u) && Caches(AllLeaves(u), AllInner(u))
  {
    assert allocated(Elems(AllInner(Spliced(z))));
    u := Recompose(s, ir, z, S, I);
  }

  /** Without the root no cache mentions the leaf any more. */
  lemma CachesBelowRoot(z: Zipper, ls: seq<RbNode>, ins: seq<RbNode>, k: nat, j: nat)
    requires Doomed(z, ls, ins, k, j) && z.c.up.Top?
    ensures var u := Spliced(z); Caches(AllLeaves(u), AllInner(u))
  {
    OrphanFacts(z, ls, ins, k, j);
    RemovedUniq(ins, j);
    var a, b := EndsAt(Spliced(z));
    CachesShrunk(ls, ins, k, j, a, b);
  }

  /** rb_delete_node for a leaf whose parent is the root, after unlink_node. */
  method ShrinkRoot(p: RbNode, s: RbNode, ghost z: Zipper, ghost ls: seq<RbNode>, ghost ins: seq<RbNode>,
      ghost k: nat, ghost j: nat)
    requires Doomed(z, ls, ins, k, j) && z.c.up.Top? && p == z.c.n && s == Sib(z.c).n
    modifies s`parent, s`isRoot, z.head`parent
    ensures var u := Spliced(z); Zip(u) && RedBlack(u.t) && Caches(AllLeaves(u), AllInner(u))
  {
    SplicedColours(z);
    CachesBelowRoot(z, ls, ins, k, j);
    assert allocated(Elems(AllInner(Spliced(z))));
    SpliceRoot(p, s, z);
  }

  lemma IsDoomed(t: Tree, head: RbNode, k: nat) returns (z: Zipper, j: nat)
    requires Zip(Zipper(Top, t, head)) && RedBlack(t) && Caches(Leaves(t), Inner(t)) && k < |Leaves(t)|
    ensures Zip(z) && z.t == Ext(Leaves(t)[k]) && z.head == head && AllNodes(z) == Nodes(t)
    ensures z.c.Top? ==> t == z.t && k == 0
    ensures !z.c.Top? ==> Doomed(z, Leaves(t), Inner(t), k, j)
  {
    z := FocusAt(t, head, k);
    InnerUniq(t);
    j := if z.c.Top? then 0 else ParentIndex(z);
  }
}
