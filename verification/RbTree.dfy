/** The tree object of krbtree.cpp: its invariant, rb_alloc_tree, rb_insert_before and rb_delete_node. */
module RbTree {
  import opened Wrappers
  import opened RbShape
  import opened RbOrder
  import opened RbBalance
  import opened RbList
  import opened RbGrow
  import opened RbRepair
  import opened RbInsert
  import opened RbShrink

  /** A node f enters the circle of leaves of t; the links of the tree are not those of its leaves. */
  method ListLeaf(f: RbNode, n: RbNode, ghost t: Tree, ghost head: RbNode, ghost k: nat)
    requires Zip(Zipper(Top, t, head)) && Ring(head, Leaves(t)) && Uniq(Leaves(t)) && k <= |Leaves(t)|
    requires n == At(head, Leaves(t), k)
    requires head !in Nodes(t) && f !in Nodes(t) && f != head
    requires forall o :: o in Leaves(t) ==> o in Nodes(t) && !o.internal
    modifies f`flink, f`blink, Elems(Leaves(t))`flink, Elems(Leaves(t))`blink, head`flink, head`blink
    ensures Zip(Zipper(Top, t, head)) && Ring(head, InsertedAt(Leaves(t), k, f))
    ensures f.blink == At(head, Leaves(t), k - 1)
  {
    Insert(f, n, head, Leaves(t), k);
    ZipRelinked(Zipper(Top, t, head));
  }

  /** The links form the red-black tree t below the head, with its caches; the list holds the leaves ls. */
  ghost predicate Threaded(t: Tree, head: RbNode, ls: seq<RbNode>)
    reads Nodes(t), head, Elems(ls)
  {
    LeavesAreNodes(t);
    Zip(Zipper(Top, t, head)) && RedBlack(t) && Caches(Leaves(t), Inner(t)) && Ring(head, ls)
  }

  /** The list shares no changing field with the tree. */
  lemma ThreadApart(t: Tree, head: RbNode, ls: seq<RbNode>)
    requires Zip(Zipper(Top, t, head))
    requires forall o :: o in ls ==> o in Leaves(t) || (o !in Nodes(t) && o != head)
    ensures Elems(ls) !! Elems(Inner(t)) && head !in Inner(t) && head !in Nodes(t)
    ensures Elems(Inner(t)) <= Nodes(t) && Elems(Leaves(t)) <= Nodes(t)
  {
    KindsOfNodes(t);
    LeavesAreNodes(t);
  }

  lemma InsertedElems(s: seq<RbNode>, k: nat, f: RbNode)
    requires k <= |s|
    ensures forall o :: o in InsertedAt(s, k, f) ==> o == f || o in s
  {}

  /** rb_insert_before a leaf, after the list has been told of the new leaf f. */
  method ThreadBefore(n: RbNode, f: RbNode, ghost t: Tree, ghost head: RbNode, ghost k: nat)
    returns (ghost t': Tree, ghost i: RbNode)
    requires k < |Leaves(t)| && Leaves(t)[k] == n && Threaded(t, head, InsertedAt(Leaves(t), k, f))
    requires f !in Nodes(t) && f != head && !f.internal && !f.isHead && !f.red && !f.isRoot
    modifies (Nodes(t) + {f})`red, (Nodes(t) + {f})`parent, (Nodes(t) + {f})`left, (Nodes(t) + {f})`isRoot
    modifies Elems(Inner(t))`flink, Elems(Inner(t))`blink, Elems(Inner(t))`rightExt, n`isHead, head`parent
    ensures Threaded(t', head, Leaves(t')) && Leaves(t') == InsertedAt(Leaves(t), k, f)
    ensures fresh(i) && Nodes(t') == Nodes(t) + {f, i}
  {
    ghost var ls := InsertedAt(Leaves(t), k, f);
    InsertedElems(Leaves(t), k, f);
    ThreadApart(t, head, ls);
    assert allocated(Elems(ls));
    t', i := GrowBefore(n, f, t, head, k);
    assert Ring(head, ls);
  }

  /** rb_insert_before the head, after the list has been told of the new leaf f. */
  method ThreadLast(e: RbNode, f: RbNode, ghost t: Tree, ghost head: RbNode) returns (ghost t': Tree, ghost i: RbNode)
    requires e == Leaves(t)[|Leaves(t)| - 1] && Threaded(t, head, InsertedAt(Leaves(t), |Leaves(t)|, f))
    requires f !in Nodes(t) && f != head && !f.internal && !f.isHead && !f.red && !f.isRoot
    modifies (Nodes(t) + {f})`red, (Nodes(t) + {f})`parent, (Nodes(t) + {f})`left, (Nodes(t) + {f})`isRoot
    modifies Elems(Inner(t))`flink, Elems(Inner(t))`blink, e`isHead, head`parent
    ensures Threaded(t', head, Leaves(t')) && Leaves(t') == InsertedAt(Leaves(t), |Leaves(t)|, f)
    ensures fresh(i) && Nodes(t') == Nodes(t) + {f, i}
  {
    ghost var ls := InsertedAt(Leaves(t), |Leaves(t)|, f);
    InsertedElems(Leaves(t), |Leaves(t)|, f);
    ThreadApart(t, head, ls);
    assert allocated(Elems(ls));
    t', i := GrowLast(e, f, t, head);
    assert Ring(head, ls);
  }

  /** rb_delete_node for a leaf whose parent is not the root, after the list has let go of it. */
  method UnthreadBelow(p: RbNode, s: RbNode, ghost z: Zipper, ghost t: Tree, ghost head: RbNode, ghost k: nat,
      ghost j: nat)
    returns (ghost u: Zipper)
    requires k < |Leaves(t)| && Threaded(t, head, RemovedAt(Leaves(t), k))
    requires Doomed(z, Leaves(t), Inner(t), k, j) && AllNodes(z) == Nodes(t) && z.head == head
    requires !z.c.up.Top? && p == z.c.n && s == Sib(z.c).n
    modifies Nodes(t)`red, Nodes(t)`parent, Nodes(t)`left, Nodes(t)`isRoot, head`parent
    modifies Elems(Inner(t))`flink, Elems(Inner(t))`blink, Elems(Inner(t))`leftExt, Elems(Inner(t))`rightExt
    ensures u.c.Top? && Threaded(u.t, head, Leaves(u.t)) && Leaves(u.t) == RemovedAt(Leaves(t), k)
    ensures Nodes(u.t) == Nodes(t) - {z.t.n, p}
  {
    ghost var ls := RemovedAt(Leaves(t), k);
    ThreadApart(t, head, ls);
    OrphanFacts(z, Leaves(t), Inner(t), k, j);
    assert allocated(Elems(ls));
    u := Shrink(p, s, z, Leaves(t), Inner(t), k, j);
    assert Ring(head, ls);
    WholeOrder(u);
  }

  class RedBlackTree {
    const head: RbNode
    ghost var shape: Option<Tree>

    ghost function Footprint(): set<RbNode>
      reads this`shape
    {
      {head} + (if shape.Some? then Nodes(shape.value) else {})
    }

    /** The leaves in order. */
    ghost function Contents(): seq<RbNode>
      reads this`shape
    {
      if shape.Some? then Leaves(shape.value) else []
    }

    ghost function Separators(): seq<RbNode>
      reads this`shape
    {
      if shape.Some? then Inner(shape.value) else []
    }

    /** The nodes form the red-black tree `shape`; the list through the head holds exactly its leaves in order;
        every internal node caches the leaves before and after it. */
    ghost predicate Valid()
      reads this`shape, Footprint()
    {
      head.isHead &&
      match shape
      case None =>
        head.parent == head && Ring(head, [])
      case Some(t) =>
        LeavesAreNodes(t);
        Threaded(t, head, Leaves(t))
    }

    /** rb_alloc_tree with init_rbtreehead. */
    constructor ()
      ensures Valid() && Contents() == [] && fresh(head)
    {
      var tree := new RbNode();
      tree.flink := tree;
      tree.blink := tree;
      tree.parent := tree;
      tree.isHead := true;
      head := tree;
      shape := None;
    }

    method InsertFirst(n: RbNode, key: int, val: int) returns (r: RbNode)
      requires Valid() && shape.None? && n == head
      modifies this`shape, head`flink, head`blink, head`parent
      ensures Valid() && fresh(r) && r.key == key && r.val == val
      ensures Contents() == [r] && fresh(Footprint() - old(Footprint()))
    {
      r := MkNewExt(key, val);
      Insert(r, n, head, [], 0);
      n.parent := r;
      r.parent := n;
      r.isRoot := true;
      shape := Some(Ext(r));
      assert InsertedAt([], 0, r) == [r];
    }

    /** Facts about the nodes of a nonempty tree that the list operations and the tree operations share. */
    lemma Layout()
      requires Valid() && shape.Some?
      ensures var t := shape.value;
        && Uniq(Leaves(t)) && head !in Nodes(t)
        && (forall o :: o in Leaves(t) ==> o in Nodes(t) && !o.internal && !o.isHead && !o.red)
        && (forall o :: o in Inner(t) ==> o in Nodes(t) && o.internal)
        && (forall o :: o in Nodes(t) && o.internal ==> o in Inner(t))
    {
      LeavesUniq(shape.value);
      LeavesAreNodes(shape.value);
      KindsOfNodes(shape.value);
      InternalsAreInner(shape.value);
    }

    /** The new leaf f enters the list at position k; the tree does not notice. */
    method Enlist(f: RbNode, n: RbNode, ghost k: nat)
      requires Valid() && shape.Some? && k <= |Contents()| && n == At(head, Contents(), k)
      requires f !in Footprint() && !f.internal && !f.isHead && !f.red && !f.isRoot
      modifies f`flink, f`blink, Elems(Contents())`flink, Elems(Contents())`blink, head`flink, head`blink
      ensures var t := shape.value;
        Zip(Zipper(Top, t, head)) && RedBlack(t) && Caches(Leaves(t), Inner(t))
          && Ring(head, InsertedAt(Leaves(t), k, f))
      ensures f.blink == At(head, Contents(), k - 1)
    {
      ghost var t := shape.value;
      Layout();
      assert allocated(Elems(Inner(t)));
      ListLeaf(f, n, t, head, k);
    }

    /** Between the list operation and the tree operation: f is in the list at position k, not yet in the tree. */
    ghost predicate Enlisted(f: RbNode, k: nat)
      reads this`shape, Footprint(), f
    {
      && head.isHead && shape.Some? && k <= |Contents()|
      && f !in Footprint() && !f.internal && !f.isHead && !f.red && !f.isRoot
      && var t := shape.value;
         LeavesAreNodes(t);
         Threaded(t, head, InsertedAt(Leaves(t), k, f))
    }

    method AdoptBefore(n: RbNode, f: RbNode, ghost k: nat) returns (ghost i: RbNode)
      requires Enlisted(f, k) && k < |Contents()| && n == Contents()[k]
      modifies this`shape, f`red, f`parent, f`left, f`isRoot
      modifies Footprint()`red, Footprint()`parent, Footprint()`left, Footprint()`isRoot, Footprint()`isHead
      modifies Elems(Separators())`flink, Elems(Separators())`blink, Elems(Separators())`rightExt
      ensures Valid() && Contents() == InsertedAt(old(Contents()), k, f)
      ensures fresh(i) && Footprint() == old(Footprint()) + {f, i}
    {
      ghost var t := shape.value;
      ghost var t';
      InFootprint();
      t', i := ThreadBefore(n, f, t, head, k);
      shape := Some(t');
    }

    method AdoptLast(e: RbNode, f: RbNode) returns (ghost i: RbNode)
      requires Enlisted(f, |Contents()|) && e == Contents()[|Contents()| - 1]
      modifies this`shape, f`red, f`parent, f`left, f`isRoot
      modifies Footprint()`red, Footprint()`parent, Footprint()`left, Footprint()`isRoot, Footprint()`isHead
      modifies Elems(Separators())`flink, Elems(Separators())`blink
      ensures Valid() && Contents() == InsertedAt(old(Contents()), |old(Contents())|, f)
      ensures fresh(i) && Footprint() == old(Footprint()) + {f, i}
    {
      ghost var t := shape.value;
      ghost var t';
      InFootprint();
      t', i := ThreadLast(e, f, t, head);
      shape := Some(t');
    }

    /** mk_new_ext and insert. */
    method NewLeaf(n: RbNode, key: int, val: int, ghost k: nat) returns (f: RbNode)
      requires Valid() && shape.Some? && k <= |Contents()| && n == At(head, Contents(), k)
      modifies Elems(Contents())`flink, Elems(Contents())`blink, head`flink, head`blink
      ensures Enlisted(f, k) && fresh(f) && f.key == key && f.val == val && f.blink == At(head, Contents(), k - 1)
    {
      assert allocated(Footprint()) && allocated(Elems(Contents())) && allocated(Elems(Separators()));
      f := MkNewExt(key, val);
      Enlist(f, n, k);
    }

    lemma InFootprint()
      ensures Elems(Contents()) <= Footprint() && Elems(Separators()) <= Footprint()
    {
      if shape.Some? {
        LeavesAreNodes(shape.value);
      }
    }

    method InsertAtLeaf(n: RbNode, key: int, val: int, ghost k: nat) returns (r: RbNode)
      requires Valid() && shape.Some? && k < |Contents()| && n == Contents()[k]
      modifies this`shape, Footprint()`red, Footprint()`parent, Footprint()`left, Footprint()`isRoot, Footprint()`isHead
      modifies Footprint()`flink, Footprint()`blink, Footprint()`rightExt
      ensures Valid() && Contents() == InsertedAt(old(Contents()), k, r)
      ensures fresh(r) && r.key == key && r.val == val && fresh(Footprint() - old(Footprint()))
    {
      InFootprint();
      r := NewLeaf(n, key, val, k);
      ghost var i := AdoptBefore(n, r, k);
    }

    method InsertAtEnd(n: RbNode, key: int, val: int) returns (r: RbNode)
      requires Valid() && shape.Some? && n == head
      modifies this`shape, Footprint()`red, Footprint()`parent, Footprint()`left, Footprint()`isRoot, Footprint()`isHead
      modifies Footprint()`flink, Footprint()`blink
      ensures Valid() && Contents() == InsertedAt(old(Contents()), |old(Contents())|, r)
      ensures fresh(r) && r.key == key && r.val == val && fresh(Footprint() - old(Footprint()))
    {
      InFootprint();
      r := NewLeaf(n, key, val, |Contents()|);
      var newleft := r.blink;
      ghost var i := AdoptLast(newleft, r);
    }

    lemma Location(n: RbNode, k: nat)
      requires Valid() && k <= |Contents()| && n == At(head, Contents(), k)
      ensures n.isHead <==> k == |Contents()|
      ensures n.isHead ==> n == head && (n.parent == n <==> shape.None?)
    {
      if shape.Some? {
        Layout();
        RootInNodes(shape.value);
        if k < |Contents()| {
          assert Contents()[k] in Contents();
        }
      }
    }

    /** rb_insert_before: the new leaf comes directly before n, or last if n is the head. */
    method InsertBefore(n: RbNode, key: int, val: int, ghost k: nat) returns (r: RbNode)
      requires Valid() && k <= |Contents()| && n == At(head, Contents(), k)
      modifies this`shape, Footprint()`red, Footprint()`parent, Footprint()`left, Footprint()`isRoot, Footprint()`isHead
      modifies Footprint()`flink, Footprint()`blink, Footprint()`rightExt
      ensures Valid() && Contents() == InsertedAt(old(Contents()), k, r)
      ensures fresh(r) && r.key == key && r.val == val && fresh(Footprint() - old(Footprint()))
    {
      Location(n, k);
      if n.isHead {
        if n.parent == n {
          r := InsertFirst(n, key, val);
        } else {
          r := InsertAtEnd(n, key, val);
        }
      } else {
        r := InsertAtLeaf(n, key, val, k);
      }
    }

    // ---------- deletion ----------

    /** Between the list operation and the tree operation: leaf k has left the list, but not yet the tree. */
    ghost predicate Delisted(k: nat)
      reads this`shape, Footprint()
    {
      && head.isHead && shape.Some? && k < |Contents()|
      && var t := shape.value;
         LeavesAreNodes(t);
         Threaded(t, head, RemovedAt(Leaves(t), k))
    }

    method Delist(n: RbNode, ghost k: nat)
      requires Valid() && shape.Some? && k < |Contents()| && n == Contents()[k]
      modifies Elems(Contents())`flink, Elems(Contents())`blink, head`flink, head`blink
      ensures Delisted(k)
    {
      ghost var t := shape.value;
      Layout();
      assert allocated(Elems(Inner(t)));
      UnlinkNode(n, head, Leaves(t), k);
      ZipRelinked(Zipper(Top, t, head));
    }

    /** The leaf's parent is an inner node. */
    method DropBelow(p: RbNode, s: RbNode, ghost z: Zipper, ghost k: nat, ghost j: nat)
      requires Delisted(k) && Doomed(z, Contents(), Separators(), k, j) && AllNodes(z) == Nodes(shape.value)
      requires z.head == head
      requires !z.c.up.Top? && p == z.c.n && s == Sib(z.c).n
      modifies this`shape, Footprint()`red, Footprint()`parent, Footprint()`left, Footprint()`isRoot
      modifies Elems(Separators())`flink, Elems(Separators())`blink, Elems(Separators())`leftExt
      modifies Elems(Separators())`rightExt
      ensures Valid() && Contents() == RemovedAt(old(Contents()), k) && Footprint() == old(Footprint()) - {z.t.n, p}
    {
      ghost var u := UnthreadBelow(p, s, z, shape.value, head, k, j);
      shape := Some(u.t);
    }

    /** The leaf's parent is the root. */
    method DropAtRoot(p: RbNode, s: RbNode, ghost z: Zipper, ghost k: nat, ghost j: nat)
      requires Delisted(k) && Doomed(z, Contents(), Separators(), k, j) && AllNodes(z) == Nodes(shape.value)
      requires z.head == head
      requires z.c.up.Top? && p == z.c.n && s == Sib(z.c).n
      modifies this`shape, s`parent, s`isRoot, head`parent
      ensures Valid() && Contents() == RemovedAt(old(Contents()), k) && Footprint() == old(Footprint()) - {z.t.n, p}
    {
      ghost var ls := RemovedAt(Contents(), k);
      ghost var u := Spliced(z);
      OrphanFacts(z, Contents(), Separators(), k, j);
      assert allocated(Elems(ls));
      ShrinkRoot(p, s, z, Contents(), Separators(), k, j);
      assert Ring(head, ls);
      WholeOrder(u);
      shape := Some(u.t);
    }

    /** The leaf is the whole tree. */
    method DropLast(n: RbNode, p: RbNode)
      requires Delisted(0) && shape.value == Ext(n) && p == head
      modifies this`shape, head`parent
      ensures Valid() && shape.None?
    {
      assert RemovedAt(Leaves(shape.value), 0) == [];
      p.parent := p;
      shape := None;
    }

    /** rb_delete_node after unlink_node. */
    method Drop(n: RbNode, ghost k: nat)
      requires Delisted(k) && n == Contents()[k]
      modifies this`shape, Footprint()`red, Footprint()`parent, Footprint()`left, Footprint()`isRoot
      modifies Elems(Separators())`flink, Elems(Separators())`blink, Elems(Separators())`leftExt
      modifies Elems(Separators())`rightExt
      ensures Valid() && Contents() == RemovedAt(old(Contents()), k)
      ensures Footprint() < old(Footprint()) && n !in Footprint()
    {
      ghost var z, j := IsDoomed(shape.value, head, k);
      var p := n.parent;
      if n.isRoot {
        DropLast(n, p);
        return;
      }
      SpliceSpot(z);
      var s := Sibling(n);
      if p.isRoot {
        DropAtRoot(p, s, z, k, j);
      } else {
        DropBelow(p, s, z, k, j);
      }
    }

    /** rb_delete_node: the leaf n goes, and with it one internal node unless n was alone; returns its value. */
    method DeleteNode(n: RbNode, ghost k: nat) returns (rv: int)
      requires Valid() && k < |Contents()| && n == Contents()[k]
      modifies this`shape, Footprint()`red, Footprint()`parent, Footprint()`left, Footprint()`isRoot
      modifies Footprint()`flink, Footprint()`blink, Footprint()`leftExt, Footprint()`rightExt
      ensures Valid() && Contents() == RemovedAt(old(Contents()), k) && rv == n.val
      ensures Footprint() < old(Footprint()) && n !in Footprint()
    {
      rv := n.val;
      InFootprint();
      Delist(n, k);
      Drop(n, k);
    }
  }
}
