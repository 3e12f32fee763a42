/** Searching, sorted insertion, emptying a tree, and the length of its paths. */
module RbSearch {
  import opened Wrappers
  import opened RbShape
  import opened RbOrder
  import opened RbBalance
  import opened RbList
  import opened RbGrow
  import opened RbTree

  // ---------- path lengths ----------

  ghost function Pow2(n: nat): (p: nat)
    ensures p >= 1
  {
    if n == 0 then 1 else 2 * Pow2(n - 1)
  }

  /** The binary logarithm, rounded down. */
  ghost function Log2(n: nat): nat {
    if n < 2 then 0 else 1 + Log2(n / 2)
  }

  lemma {:induction false} Log2OfPow2(k: nat, n: nat)
    requires Pow2(k) <= n
    ensures k <= Log2(n)
    decreases k
  {
    if k > 0 {
      assert Pow2(k) == 2 * Pow2(k - 1) && Pow2(k - 1) >= 1;
      Log2OfPow2(k - 1, n / 2);
    }
  }

  lemma {:induction false} ManyLeaves(t: Tree)
    requires Balanced(t)
    ensures |Leaves(t)| >= Pow2(BlackHeight(t) - 1)
    decreases t
  {
    if t.Int? {
      ManyLeaves(t.l);
      ManyLeaves(t.r);
    }
  }

  /** Below a black root, at least every other node of a path is black. */
  lemma {:induction false} ShortPath(z: Zipper)
    requires Balanced(z.t) && CBalanced(z.c, BlackHeight(z.t)) && CCalm(z.c, Red(z.t))
    requires if z.c.Top? then !Red(z.t) else !RootRed(z.c)
    ensures Depth(z.c) + 2 * BlackHeight(z.t) + (if Red(z.t) then 1 else 0) <= 2 * BlackHeight(Home(z).t)
    decreases z.c
  {
    if !z.c.Top? {
      ShortPath(Up(z));
    }
  }

  /** Number of nodes on the path from leaf k up to the root. */
  ghost function PathLength(t: Tree, k: nat): nat
    requires k < |Leaves(t)|
  {
    match t
    case Ext(_) => 1
    case Int(_, _, l, r) => 1 + if k < |Leaves(l)| then PathLength(l, k) else PathLength(r, k - |Leaves(l)|)
  }

  lemma {:induction false} PathThroughFocus(z: Zipper, k: nat)
    requires k < |Leaves(z.t)|
    ensures |LeavesBefore(z.c)| + k < |Leaves(Home(z).t)|
    ensures PathLength(Home(z).t, |LeavesBefore(z.c)| + k) == Depth(z.c) + PathLength(z.t, k)
    decreases z.c
  {
    if !z.c.Top? {
      var k' := if z.c.InL? then k else |Leaves(z.c.l)| + k;
      assert PathLength(Up(z).t, k') == 1 + PathLength(z.t, k);
      PathThroughFocus(Up(z), k');
    }
  }

  lemma RedRootPath(z: Zipper)
    requires z.t.Ext? && RedBlack(Home(z).t) && Red(Home(z).t)
    ensures Depth(z.c) <= 1
  {
    Disassemble(z);
    if !z.c.Top? && !z.c.up.Top? {
      RedRootIsShallow(z);
    }
  }

  /** Every path from a leaf to the root of a red-black tree with n leaves has at most 2 log2(n) + 1 nodes. */
  lemma PathBound(z: Zipper)
    requires z.t.Ext? && RedBlack(Home(z).t)
    ensures Depth(z.c) + 1 <= 2 * Log2(|Leaves(Home(z).t)|) + 1
  {
    var t := Home(z).t;
    if Red(t) {
      RedRootPath(z);
      assert Leaves(t) == [t.l.n, t.r.n];
      assert Log2(2) == 1;
    } else {
      Disassemble(z);
      ShortPath(z);
      ManyLeaves(t);
      Log2OfPow2(BlackHeight(t) - 1, |Leaves(t)|);
    }
  }

  lemma OneUp(z: Zipper)
    requires Zip(z)
    ensures !z.t.n.isHead && z.t.n.parent == Above(z.c, z.head)
    ensures if z.c.Top? then z.head.isHead else !z.c.n.isHead
  {}

  method PathNodes(n0: RbNode, ghost z0: Zipper) returns (pl: nat)
    requires Zip(z0) && n0 == z0.t.n
    ensures pl == Depth(z0.c) + 1
  {
    pl := 0;
    var n: RbNode := n0;
    ghost var z := z0;
    OneUp(z);
    while !n.isHead
      invariant if n.isHead then pl == Depth(z0.c) + 1 else Zip(z) && z.t.n == n && pl + Depth(z.c) == Depth(z0.c)
      decreases if n.isHead then 0 else 1 + Depth(z.c)
    {
      OneUp(z);
      pl := pl + 1;
      n := n.parent;
      if !z.c.Top? {
        ZipUp(z);
        z := Up(z);
      }
    }
  }

  lemma FocusPath(z: Zipper)
    requires z.t.Ext?
    ensures |LeavesBefore(z.c)| < |Leaves(Home(z).t)|
    ensures PathLength(Home(z).t, |LeavesBefore(z.c)|) == Depth(z.c) + 1
  {
    PathThroughFocus(z, 0);
  }

  lemma LeafPath(t: Tree, head: RbNode, k: nat) returns (z: Zipper)
    requires Zip(Zipper(Top, t, head)) && RedBlack(t) && k < |Leaves(t)|
    ensures Zip(z) && z.t.n == Leaves(t)[k]
    ensures Depth(z.c) + 1 == PathLength(t, k) <= 2 * Log2(|Leaves(t)|) + 1
  {
    z := FocusAt(t, head, k);
    PathBound(z);
    FocusPath(z);
  }

  /** rb_plength: the number of nodes on the path from the leaf n to the root. */
  method PLength(tree: RedBlackTree, n: RbNode, ghost k: nat) returns (pl: nat)
    requires tree.Valid() && k < |tree.Contents()| && n == tree.Contents()[k]
    ensures pl == PathLength(tree.shape.value, k) && pl <= 2 * Log2(|tree.Contents()|) + 1
  {
    ghost var z := LeafPath(tree.shape.value, tree.head, k);
    pl := PathNodes(n, z);
  }

  // ---------- searching ----------

  /** A comparison function that orders keys, possibly with several keys of one rank. */
  ghost predicate TotalPreorder(cmp: (int, int) -> int) {
    && (forall a, b :: cmp(a, b) < 0 <==> cmp(b, a) > 0)
    && (forall a, b, c :: cmp(a, b) <= 0 && cmp(b, c) <= 0 ==> cmp(a, c) <= 0)
  }

  ghost predicate SortedBy(cmp: (int, int) -> int, ls: seq<RbNode>)
    reads Elems(ls)`key
  {
    forall i, j :: 0 <= i < j < |ls| ==> cmp(ls[i].key, ls[j].key) <= 0
  }

  lemma GreaterBelow(cmp: (int, int) -> int, key: int, x: int, y: int)
    requires TotalPreorder(cmp) && cmp(x, y) <= 0 && cmp(key, y) > 0
    ensures cmp(key, x) > 0
  {
    assert cmp(key, x) <= 0 && cmp(x, y) <= 0 ==> cmp(key, y) <= 0;
  }

  lemma LessAbove(cmp: (int, int) -> int, key: int, x: int, y: int)
    requires TotalPreorder(cmp) && cmp(x, y) <= 0 && cmp(key, x) < 0
    ensures cmp(key, y) < 0
  {
    assert cmp(x, y) <= 0 && cmp(y, key) <= 0 ==> cmp(x, key) <= 0;
  }

  /** Where a search for key must end: at a leaf with an equal key, or before the first leaf with a greater one. */
  ghost predicate Located(cmp: (int, int) -> int, ls: seq<RbNode>, key: int, equal: bool, k: nat)
    reads Elems(ls)`key
  {
    if equal then
      k < |ls| && cmp(key, ls[k].key) == 0
    else
      && k <= |ls|
      && (forall i :: 0 <= i < k ==> cmp(key, ls[i].key) > 0)
      && (forall i :: k <= i < |ls| ==> cmp(key, ls[i].key) < 0)
  }

  /** The branch of the descent: all leaves left of the focus are smaller, its last leaf is greater. */
  ghost predicate Narrowed(cmp: (int, int) -> int, z: Zipper, key: int)
    reads Elems(AllLeaves(z))`key
  {
    && (forall i :: 0 <= i < |LeavesBefore(z.c)| ==> cmp(key, AllLeaves(z)[i].key) > 0)
    && cmp(key, AllLeaves(z)[|LeavesBefore(z.c)| + |Leaves(z.t)| - 1].key) < 0
  }

  lemma LastExt(z: Zipper, ls: seq<RbNode>, ins: seq<RbNode>)
    requires Zip(z) && z.t.Int? && AllLeaves(z) == ls && AllInner(z) == ins && Caches(ls, ins)
    ensures z.t.n.leftExt == Leaves(z.t.l)[|Leaves(z.t.l)| - 1]
    ensures z.t.n.leftExt == ls[|LeavesBefore(z.c)| + |Leaves(z.t.l)| - 1]
    ensures z.t.n.internal && z.t.n.flink == z.t.l.n && z.t.n.blink == z.t.r.n
  {
    var m := |InnerBefore(z.c)| + |Inner(z.t.l)|;
    assert ins[m] == z.t.n;
  }

  /** In a valid tree every internal node caches the last leaf below its left child and the first below its right child;
      the two stand side by side in the list. */
  lemma CachedExtremes(tree: RedBlackTree, z: Zipper)
    requires tree.Valid() && tree.shape.Some? && Zip(z) && z.t.Int? && z.head == tree.head
    requires Home(z).t == tree.shape.value
    ensures z.t.n.leftExt == Leaves(z.t.l)[|Leaves(z.t.l)| - 1]
    ensures z.t.n.rightExt == Leaves(z.t.r)[0]
    ensures z.t.n.leftExt.flink == z.t.n.rightExt && z.t.n.rightExt.blink == z.t.n.leftExt
  {
    var ls, ins := tree.Contents(), tree.Separators();
    ZipHome(z);
    WholeOrder(Home(z));
    LastExt(z, ls, ins);
    var k, m := |InnerBefore(z.c)| + |Inner(z.t.l)|, |LeavesBefore(z.c)| + |Leaves(z.t.l)|;
    assert ins[k] == z.t.n && ls[m] == Leaves(z.t.r)[0];
    assert At(tree.head, ls, k).flink == At(tree.head, ls, k + 1);
  }

  ghost function Left(z: Zipper): Zipper
    requires z.t.Int?
  {
    Zipper(InL(z.t.n, z.t.red, z.c, z.t.r), z.t.l, z.head)
  }

  ghost function Right(z: Zipper): Zipper
    requires z.t.Int?
  {
    Zipper(InR(z.t.n, z.t.red, z.t.l, z.c), z.t.r, z.head)
  }

  lemma StepLeft(cmp: (int, int) -> int, z: Zipper, key: int)
    requires z.t.Int? && Narrowed(cmp, z, key)
    requires cmp(key, AllLeaves(z)[|LeavesBefore(z.c)| + |Leaves(z.t.l)| - 1].key) < 0
    ensures AllLeaves(Left(z)) == AllLeaves(z) && Narrowed(cmp, Left(z), key)
  {
    UpOrder(Left(z));
  }

  lemma StepRight(cmp: (int, int) -> int, z: Zipper, key: int)
    requires TotalPreorder(cmp) && z.t.Int? && Narrowed(cmp, z, key) && SortedBy(cmp, AllLeaves(z))
    requires cmp(key, AllLeaves(z)[|LeavesBefore(z.c)| + |Leaves(z.t.l)| - 1].key) > 0
    ensures AllLeaves(Right(z)) == AllLeaves(z) && Narrowed(cmp, Right(z), key)
  {
    RightOrder(z);
    GreaterUpTo(cmp, AllLeaves(z), key, |LeavesBefore(z.c)| + |Leaves(z.t.l)| - 1);
  }

  lemma RightOrder(z: Zipper)
    requires z.t.Int?
    ensures AllLeaves(Right(z)) == AllLeaves(z) && |LeavesBefore(Right(z).c)| == |LeavesBefore(z.c)| + |Leaves(z.t.l)|
    ensures |LeavesBefore(Right(z).c)| + |Leaves(Right(z).t)| == |LeavesBefore(z.c)| + |Leaves(z.t)|
  {
    UpOrder(Right(z));
  }

  lemma GreaterUpTo(cmp: (int, int) -> int, ls: seq<RbNode>, key: int, m: nat)
    requires TotalPreorder(cmp) && SortedBy(cmp, ls) && m < |ls| && cmp(key, ls[m].key) > 0
    ensures forall i :: 0 <= i <= m ==> cmp(key, ls[i].key) > 0
  {
    forall i | 0 <= i < m
      ensures cmp(key, ls[i].key) > 0
    {
      GreaterBelow(cmp, key, ls[i].key, ls[m].key);
    }
  }

  /** At a leaf the search is over: every later leaf is greater as well. */
  lemma Arrived(cmp: (int, int) -> int, z: Zipper, key: int)
    requires TotalPreorder(cmp) && z.t.Ext? && Narrowed(cmp, z, key) && SortedBy(cmp, AllLeaves(z))
    ensures Located(cmp, AllLeaves(z), key, false, |LeavesBefore(z.c)|) && AllLeaves(z)[|LeavesBefore(z.c)|] == z.t.n
  {
    var ls, k := AllLeaves(z), |LeavesBefore(z.c)|;
    assert Leaves(z.t) == [z.t.n];
    forall i | k <= i < |ls|
      ensures cmp(key, ls[i].key) < 0
    {
      if i > k {
        LessAbove(cmp, key, ls[k].key, ls[i].key);
      }
    }
  }

  ghost function Height(t: Tree): nat {
    if t.Ext? then 0 else 1 + if Height(t.l) < Height(t.r) then Height(t.r) else Height(t.l)
  }

  /** Where the descent of rb_find_gte_gen stands. */
  ghost predicate Descending(cmp: (int, int) -> int, z: Zipper, key: int, ls: seq<RbNode>, ins: seq<RbNode>)
    reads Nodes(z.t), CNodes(z.c), z.head, Elems(ls)`key, Elems(ins)`leftExt, Elems(ins)`rightExt
  {
    Zip(z) && AllLeaves(z) == ls && AllInner(z) == ins && Narrowed(cmp, z, key) && SortedBy(cmp, ls) && Caches(ls, ins)
  }

  lemma GoLeft(cmp: (int, int) -> int, z: Zipper, key: int, ls: seq<RbNode>, ins: seq<RbNode>)
    requires Descending(cmp, z, key, ls, ins) && z.t.Int?
    requires cmp(key, ls[|LeavesBefore(z.c)| + |Leaves(z.t.l)| - 1].key) < 0
    ensures Descending(cmp, Left(z), key, ls, ins) && Height(Left(z).t) < Height(z.t)
  {
    StepLeft(cmp, z, key);
    ZipDown(Left(z));
  }

  lemma GoRight(cmp: (int, int) -> int, z: Zipper, key: int, ls: seq<RbNode>, ins: seq<RbNode>)
    requires TotalPreorder(cmp)
    requires Descending(cmp, z, key, ls, ins) && z.t.Int?
    requires cmp(key, ls[|LeavesBefore(z.c)| + |Leaves(z.t.l)| - 1].key) > 0
    ensures Descending(cmp, Right(z), key, ls, ins) && Height(Right(z).t) < Height(z.t)
  {
    StepRight(cmp, z, key);
    ZipDown(Right(z));
  }

  /** One round of the descent at an internal node: what it reads, and where it goes next. */
  lemma Next(cmp: (int, int) -> int, z: Zipper, key: int, ls: seq<RbNode>, ins: seq<RbNode>)
    returns (m: nat, z': Zipper)
    requires TotalPreorder(cmp)
    requires Descending(cmp, z, key, ls, ins) && z.t.n.internal
    ensures m < |ls| && z.t.n.leftExt == ls[m]
    ensures cmp(key, ls[m].key) != 0 ==>
      && Descending(cmp, z', key, ls, ins) && Height(z'.t) < Height(z.t)
      && z'.t.n == if cmp(key, ls[m].key) < 0 then z.t.n.flink else z.t.n.blink
  {
    LastExt(z, ls, ins);
    m := |LeavesBefore(z.c)| + |Leaves(z.t.l)| - 1;
    if cmp(key, ls[m].key) < 0 {
      GoLeft(cmp, z, key, ls, ins);
      z' := Left(z);
    } else if cmp(key, ls[m].key) > 0 {
      GoRight(cmp, z, key, ls, ins);
      z' := Right(z);
    } else {
      z' := z;
    }
  }

  lemma Final(cmp: (int, int) -> int, z: Zipper, key: int, ls: seq<RbNode>, ins: seq<RbNode>) returns (k: nat)
    requires TotalPreorder(cmp)
    requires Descending(cmp, z, key, ls, ins) && !z.t.n.internal
    ensures Located(cmp, ls, key, false, k) && k < |ls| && z.t.n == ls[k]
  {
    Arrived(cmp, z, key);
    k := |LeavesBefore(z.c)|;
  }

  /** The descent of rb_find_gte_gen below the root. */
  method Descend(root: RbNode, key: int, cmp: (int, int) -> int, ghost z0: Zipper, ghost ls: seq<RbNode>,
      ghost ins: seq<RbNode>)
    returns (equal: bool, r: RbNode, ghost k: nat)
    requires Descending(cmp, z0, key, ls, ins) && z0.t.n == root && TotalPreorder(cmp)
    ensures Located(cmp, ls, key, equal, k) && k < |ls| && r == ls[k]
  {
    ghost var z := z0;
    r := root;
    equal := false;
    while r.internal
      invariant Descending(cmp, z, key, ls, ins) && z.t.n == r
      decreases Height(z.t)
    {
      ghost var m, z' := Next(cmp, z, key, ls, ins);
      var c := cmp(key, r.leftExt.key);
      if c == 0 {
        return true, r.leftExt, m;
      }
      r := if c < 0 then r.flink else r.blink;
      z := z';
    }
    k := Final(cmp, z, key, ls, ins);
  }

  lemma EmptyTree(tree: RedBlackTree)
    requires tree.Valid()
    ensures tree.head.parent == tree.head <==> tree.Contents() == []
  {
    if tree.shape.Some? {
      tree.Layout();
      RootInNodes(tree.shape.value);
    }
  }

  /** rb_find_gte_gen. */
  method FindGteGen(tree: RedBlackTree, key: int, cmp: (int, int) -> int) returns (equal: bool, r: RbNode, ghost k: nat)
    requires tree.Valid() && TotalPreorder(cmp) && SortedBy(cmp, tree.Contents())
    ensures Located(cmp, tree.Contents(), key, equal, k) && r == At(tree.head, tree.Contents(), k)
    ensures equal <==> exists n :: n in tree.Contents() && cmp(key, n.key) == 0
    ensures equal ==> r in tree.Contents() && cmp(key, r.key) == 0
    ensures !equal && r != tree.head ==> r in tree.Contents() && cmp(key, r.key) < 0
  {
    var head := tree.head;
    ghost var ls := tree.Contents();
    equal := false;
    r := head;
    k := |ls|;
    EmptyTree(tree);
    if head.parent == head {
      return;
    }
    var last := head.blink;
    assert At(head, ls, |ls| - 1).flink == At(head, ls, |ls|);
    assert last == ls[|ls| - 1];
    var c := cmp(key, last.key);
    if c == 0 {
      equal := true;
      r := last;
      k := |ls| - 1;
    } else if c < 0 {
      ghost var z := Zipper(Top, tree.shape.value, head);
      WholeOrder(z);
      equal, r, k := Descend(head.parent, key, cmp, z, ls, tree.Separators());
    } else {
      forall i | 0 <= i < |ls|
        ensures cmp(key, ls[i].key) > 0
      {
        if i < |ls| - 1 {
          GreaterBelow(cmp, key, ls[i].key, ls[|ls| - 1].key);
        }
      }
    }
  }

  lemma OrderedByEqual(cmp: (int, int) -> int, key: int, x: int, y: int)
    requires TotalPreorder(cmp) && cmp(key, x) == 0
    ensures cmp(x, y) <= 0 ==> cmp(key, y) <= 0
    ensures cmp(y, x) <= 0 ==> cmp(y, key) <= 0
  {
    assert cmp(x, key) == 0 by {
      assert !(cmp(x, key) < 0) && !(cmp(key, x) < 0);
    }
    assert cmp(key, x) <= 0 && cmp(x, y) <= 0 ==> cmp(key, y) <= 0;
    assert cmp(y, x) <= 0 && cmp(x, key) <= 0 ==> cmp(y, key) <= 0;
  }

  lemma Flip(cmp: (int, int) -> int, x: int, y: int)
    requires TotalPreorder(cmp)
    ensures cmp(x, y) > 0 <==> cmp(y, x) < 0
    ensures cmp(x, y) <= 0 || cmp(y, x) <= 0
  {}

  lemma InsertedSorted(cmp: (int, int) -> int, ls: seq<RbNode>, k: nat, r: RbNode, equal: bool)
    requires TotalPreorder(cmp) && SortedBy(cmp, ls) && k <= |ls| && Located(cmp, ls, r.key, equal, k)
    ensures SortedBy(cmp, InsertedAt(ls, k, r))
  {
    var ms := InsertedAt(ls, k, r);
    forall i, j | 0 <= i < j < |ms|
      ensures cmp(ms[i].key, ms[j].key) <= 0
    {
      assert i < k ==> ms[i] == ls[i];
      assert i > k ==> ms[i] == ls[i - 1];
      assert j < k ==> ms[j] == ls[j];
      assert j > k ==> ms[j] == ls[j - 1];
      if i < k && j == k {
        if equal {
          OrderedByEqual(cmp, r.key, ls[k].key, ls[i].key);
        } else {
          Flip(cmp, r.key, ls[i].key);
        }
      } else if i == k && equal {
        OrderedByEqual(cmp, r.key, ls[k].key, ls[j - 1].key);
      }
    }
  }

  /** rb_insert_gen: the sorted list of leaves gains exactly the new leaf and stays sorted. */
  method InsertGen(tree: RedBlackTree, key: int, cmp: (int, int) -> int, val: int) returns (r: RbNode, ghost k: nat)
    requires tree.Valid() && TotalPreorder(cmp) && SortedBy(cmp, tree.Contents())
    modifies tree`shape, tree.Footprint()`red, tree.Footprint()`parent, tree.Footprint()`left, tree.Footprint()`isRoot
    modifies tree.Footprint()`isHead, tree.Footprint()`flink, tree.Footprint()`blink, tree.Footprint()`rightExt
    ensures tree.Valid() && SortedBy(cmp, tree.Contents())
    ensures k <= |old(tree.Contents())| && tree.Contents() == InsertedAt(old(tree.Contents()), k, r)
    ensures fresh(r) && r.key == key && r.val == val
  {
    var equal, n;
    assert allocated(tree.Footprint()) && allocated(Elems(tree.Contents()));
    equal, n, k := FindGteGen(tree, key, cmp);
    r := InsertLocated(tree, n, key, cmp, val, equal, k);
  }

  method InsertLocated(tree: RedBlackTree, n: RbNode, key: int, cmp: (int, int) -> int, val: int, ghost equal: bool,
      ghost k: nat)
    returns (r: RbNode)
    requires tree.Valid() && TotalPreorder(cmp) && SortedBy(cmp, tree.Contents())
    requires Located(cmp, tree.Contents(), key, equal, k) && k <= |tree.Contents()|
    requires n == At(tree.head, tree.Contents(), k)
    modifies tree`shape, tree.Footprint()`red, tree.Footprint()`parent, tree.Footprint()`left, tree.Footprint()`isRoot
    modifies tree.Footprint()`isHead, tree.Footprint()`flink, tree.Footprint()`blink, tree.Footprint()`rightExt
    ensures tree.Valid() && SortedBy(cmp, tree.Contents()) && tree.Contents() == InsertedAt(old(tree.Contents()), k, r)
    ensures fresh(r) && r.key == key && r.val == val
  {
    ghost var ls := tree.Contents();
    assert allocated(tree.Footprint()) && allocated(Elems(ls));
    r := tree.InsertBefore(n, key, val, k);
    InsertedSorted(cmp, ls, k, r, equal);
  }

  /** rb_find_gen: null exactly when no leaf has an equal key. */
  method FindGen(tree: RedBlackTree, key: int, cmp: (int, int) -> int) returns (r: RbNode?)
    requires tree.Valid() && TotalPreorder(cmp) && SortedBy(cmp, tree.Contents())
    ensures r != null ==> r in tree.Contents() && cmp(key, r.key) == 0
    ensures r == null <==> forall n :: n in tree.Contents() ==> cmp(key, n.key) != 0
  {
    var equal, n;
    ghost var k;
    equal, n, k := FindGteGen(tree, key, cmp);
    r := if equal then n else null;
  }

  /** rb_dealloc_subtree: deleting the first leaf until the head is alone empties any tree. */
  method DeallocSubtree(tree: RedBlackTree)
    requires tree.Valid()
    modifies tree`shape, tree.Footprint()
    ensures tree.Valid() && tree.Contents() == []
  {
    ghost var all := tree.Footprint();
    while tree.head.flink != tree.head
      invariant tree.Valid() && tree.Footprint() <= all
      decreases |tree.Footprint()|
    {
      FirstLeaf(tree);
      ghost var before := tree.Footprint();
      var rv := tree.DeleteNode(tree.head.flink, 0);
      Smaller(tree.Footprint(), before);
    }
    FirstLeaf(tree);
  }

  lemma {:induction false} Smaller<T>(a: set<T>, b: set<T>)
    requires a < b
    ensures |a| < |b|
  {
    var x :| x in b && x !in a;
    assert |b - {x}| == |b| - 1;
    if a != b - {x} {
      Smaller(a, b - {x});
    }
  }

  lemma FirstLeaf(tree: RedBlackTree)
    requires tree.Valid()
    ensures tree.head.flink == tree.head <==> tree.Contents() == []
    ensures tree.Contents() != [] ==> tree.head.flink == tree.Contents()[0]
  {
    var ls := tree.Contents();
    assert At(tree.head, ls, -1).flink == At(tree.head, ls, 0);
    if tree.shape.Some? {
      tree.Layout();
      RootInNodes(tree.shape.value);
      assert ls[0] in ls;
    }
  }
}
