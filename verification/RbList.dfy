/** The circular list of leaves through the head, the caches of the internal nodes, and the walk to a neighbour. */
module RbList {
  import opened Wrappers
  import opened RbShape

  ghost predicate Uniq(s: seq<RbNode>) {
    forall i, j :: 0 <= i < j < |s| ==> s[i] != s[j]
  }

  /** Position k of the circle; the head stands at both ends. */
  ghost function At(head: RbNode, ls: seq<RbNode>, k: int): RbNode {
    if 0 <= k < |ls| then ls[k] else head
  }

  /** The flink/blink links of the leaves and the head are exactly the circle head, ls[0], ls[1], ..., head. */
  ghost predicate Ring(head: RbNode, ls: seq<RbNode>)
    reads head`flink, head`blink, Elems(ls)`flink, Elems(ls)`blink
  {
    forall k :: -1 <= k < |ls| ==>
      At(head, ls, k).flink == At(head, ls, k + 1) && At(head, ls, k + 1).blink == At(head, ls, k)
  }

  ghost function InsertedAt(s: seq<RbNode>, k: nat, x: RbNode): seq<RbNode>
    requires k <= |s|
  {
    s[..k] + [x] + s[k..]
  }

  ghost function RemovedAt(s: seq<RbNode>, k: nat): seq<RbNode>
    requires k < |s|
  {
    s[..k] + s[k + 1..]
  }

  /** insert: puts item before `list` in the circle. */
  method Insert(item: RbNode, list: RbNode, ghost head: RbNode, ghost ls: seq<RbNode>, ghost k: nat)
    requires Ring(head, ls) && Uniq(ls) && head !in ls
    requires k <= |ls| && list == At(head, ls, k) && item !in ls && item != head
    modifies item`flink, item`blink, list`blink, At(head, ls, k - 1)`flink
    ensures Ring(head, InsertedAt(ls, k, item))
    ensures item.blink == At(head, ls, k - 1)
  {
    ghost var old_ := At(head, ls, k - 1);
    assert At(head, ls, k - 1).flink == At(head, ls, k);
    var lastNode := list.blink;
    list.blink := item;
    lastNode.flink := item;
    item.blink := lastNode;
    item.flink := list;
    ghost var ms := InsertedAt(ls, k, item);
    forall j | -1 <= j < |ms|
      ensures At(head, ms, j).flink == At(head, ms, j + 1) && At(head, ms, j + 1).blink == At(head, ms, j)
    {
      if j < k - 1 {
        assert At(head, ls, j).flink == At(head, ls, j + 1);
      } else if j > k {
        assert At(head, ls, j - 1).flink == At(head, ls, j);
      }
    }
  }

  /** unlink_node: takes node out of the circle. */
  method UnlinkNode(node: RbNode, ghost head: RbNode, ghost ls: seq<RbNode>, ghost k: nat)
    requires Ring(head, ls) && Uniq(ls) && head !in ls
    requires k < |ls| && node == ls[k]
    modifies At(head, ls, k + 1)`blink, At(head, ls, k - 1)`flink
    ensures Ring(head, RemovedAt(ls, k))
  {
    assert At(head, ls, k - 1).flink == At(head, ls, k);
    assert At(head, ls, k).flink == At(head, ls, k + 1);
    node.flink.blink := node.blink;
    node.blink.flink := node.flink;
    ghost var ms := RemovedAt(ls, k);
    forall j | -1 <= j < |ms|
      ensures At(head, ms, j).flink == At(head, ms, j + 1) && At(head, ms, j + 1).blink == At(head, ms, j)
    {
      if j < k - 1 {
        assert At(head, ls, j).flink == At(head, ls, j + 1);
      } else if j >= k {
        assert At(head, ls, j + 1).flink == At(head, ls, j + 2);
      }
    }
  }

  /** The internal node in[k], which separates leaf k from leaf k + 1, caches exactly these two. */
  ghost predicate Caches(ls: seq<RbNode>, ins: seq<RbNode>)
    reads Elems(ins)`leftExt, Elems(ins)`rightExt
  {
    |ls| == |ins| + 1 && forall k :: 0 <= k < |ins| ==> ins[k].leftExt == ls[k] && ins[k].rightExt == ls[k + 1]
  }

  // ---------- links of leaves do not matter to the shape ----------

  twostate lemma {:induction false} RepRelinked(t: Tree)
    requires old(Rep(t)) && old(allocated(Nodes(t)))
    requires unchanged(Nodes(t)`red) && unchanged(Nodes(t)`internal) && unchanged(Nodes(t)`isHead)
    requires unchanged(Nodes(t)`parent) && unchanged(Nodes(t)`left) && unchanged(Nodes(t)`isRoot)
    requires forall o :: o in Nodes(t) && o.internal ==> o.flink == old(o.flink) && o.blink == old(o.blink)
    ensures Rep(t)
    decreases t
  {
    if t.Int? {
      RepRelinked(t.l);
      RepRelinked(t.r);
    }
  }

  twostate lemma {:induction false} CRepRelinked(z: Zipper)
    requires old(CRep(z.c, z.head)) && old(allocated(CNodes(z.c))) && old(allocated(z.head))
    requires unchanged(CNodes(z.c)`red) && unchanged(CNodes(z.c)`internal) && unchanged(CNodes(z.c)`isHead)
    requires unchanged(CNodes(z.c)`parent) && unchanged(CNodes(z.c)`left) && unchanged(CNodes(z.c)`isRoot)
    requires unchanged(z.head`isHead) && unchanged(z.head`parent)
    requires forall o :: o in CNodes(z.c) && o.internal ==> o.flink == old(o.flink) && o.blink == old(o.blink)
    ensures CRep(z.c, z.head)
    decreases z.c
  {
    TopInCtx(z.c);
    if !z.c.Top? {
      TopInCtx(z.c.up);
      RepRelinked(if z.c.InL? then z.c.r else z.c.l);
      CRepRelinked(z.(c := z.c.up));
    }
  }
}
