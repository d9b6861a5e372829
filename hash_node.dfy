/** Intrusive doubly-linked chain elements and the primitives that splice
    them (hash_node.c). A chain is described by a ghost sequence of nodes;
    `Linked` ties the `prev`/`next` fields to that sequence. */
module HashNode {

  /** A chain element: the integer key and the two intrusive links.
      `prev == null` marks the head of a chain, `next == null` its tail. */
  class Node {
    var key: int
    var prev: Node?
    var next: Node?

    /** hn_create: a zero-filled node, so its key is 0 and it has no links. */
    constructor ()
      ensures key == 0 && prev == null && next == null
      ensures IsHead() && IsTail()
    {
      key, prev, next := 0, null, null;
    }

    /** hn_is_head */
    predicate IsHead()
      reads this
    {
      prev == null
    }

    /** hn_is_tail */
    predicate IsTail()
      reads this
    {
      next == null
    }
  }

  /** The nodes of `c` currently form a well-formed chain: the first has no
      predecessor, the last no successor, and every neighbouring pair points at
      each other (so `x.next.prev == x` wherever `x.next` is set). */
  ghost predicate Linked(c: seq<Node>)
    reads c
  {
    && (|c| > 0 ==> c[0].prev == null && c[|c| - 1].next == null)
    && (forall j {:trigger c[j].prev} :: 0 < j < |c| ==> c[j].prev == c[j - 1])
    && (forall j {:trigger c[j].next} :: 0 <= j < |c| - 1 ==> c[j].next == c[j + 1])
  }

  /** `s` with its element at position `j` taken out; later elements move down by one. */
  ghost function Delete<T>(s: seq<T>, j: int): (d: seq<T>)
    requires 0 <= j < |s|
    ensures |d| == |s| - 1
    ensures forall m {:trigger d[m]} :: 0 <= m < |d| ==> d[m] == s[if m < j then m else m + 1]
  {
    s[..j] + s[j + 1..]
  }

  /** `s` with `x` placed at position `i`; the elements from `i` on move up by one. */
  ghost function Insert<T>(s: seq<T>, i: int, x: T): (d: seq<T>)
    requires 0 <= i <= |s|
    ensures |d| == |s| + 1
    ensures forall m {:trigger d[m]} :: 0 <= m < |d| ==> d[m] == if m < i then s[m] else if m == i then x else s[m - 1]
  {
    s[..i] + [x] + s[i..]
  }

  /** Inserting at the very end is appending. */
  lemma InsertAtEnd<T>(s: seq<T>, x: T)
    ensures Insert(s, |s|, x) == s + [x]
  {
    assert s[..|s|] == s;
  }

  /** `Linked`, stated of recorded links: `ps[j]` and `ns[j]` are the `prev`
      and `next` of c[j] at some earlier point. The splice lemmas below use it
      to compare the links before an update with those after it. */
  ghost predicate Chain(c: seq<Node>, ps: seq<Node?>, ns: seq<Node?>)
  {
    && |ps| == |c| && |ns| == |c|
    && (|c| > 0 ==> ps[0] == null && ns[|c| - 1] == null)
    && (forall j {:trigger ps[j]} :: 0 < j < |c| ==> ps[j] == c[j - 1])
    && (forall j {:trigger ns[j]} :: 0 <= j < |c| - 1 ==> ns[j] == c[j + 1])
  }

  /** The `prev` links of the nodes of `c`, in order. */
  ghost function Prevs(c: seq<Node>): (ps: seq<Node?>)
    reads c
    ensures |ps| == |c|
    ensures forall j {:trigger ps[j]} :: 0 <= j < |c| ==> ps[j] == c[j].prev
  {
    seq(|c|, j requires 0 <= j < |c| reads c => c[j].prev)
  }

  /** The `next` links of the nodes of `c`, in order. */
  ghost function Nexts(c: seq<Node>): (ns: seq<Node?>)
    reads c
    ensures |ns| == |c|
    ensures forall j {:trigger ns[j]} :: 0 <= j < |c| ==> ns[j] == c[j].next
  {
    seq(|c|, j requires 0 <= j < |c| reads c => c[j].next)
  }

  /** The links of a well-formed chain, once recorded, describe it. */
  lemma LinksOfChain(c: seq<Node>)
    requires Linked(c)
    ensures Chain(c, Prevs(c), Nexts(c))
  {
    var ps, ns := Prevs(c), Nexts(c);
    forall j | 0 < j < |c|
      ensures ps[j] == c[j - 1]
    {
      assert c[j].prev == c[j - 1];
    }
    forall j | 0 <= j < |c| - 1
      ensures ns[j] == c[j + 1]
    {
      assert c[j + 1].prev == c[j];
    }
  }

  /** In a well-formed chain, exactly the first node is a head and exactly the
      last node is a tail. */
  lemma HeadTailOfChain(c: seq<Node>, j: int)
    requires Linked(c) && 0 <= j < |c|
    ensures c[j].IsHead() <==> j == 0
    ensures c[j].IsTail() <==> j == |c| - 1
  {
    if j > 0 {
      assert c[j].prev == c[j - 1];
    }
    if j < |c| - 1 {
      assert c[j + 1].prev == c[j];
    }
  }

  /** Following `prev` links back from two different positions of a
      well-formed chain can never meet, so its nodes are pairwise different:
      a chain has no repeated node and no cycle. */
  lemma {:induction false} LinkedInjective(c: seq<Node>, p: int, q: int)
    requires Linked(c) && 0 <= p < q < |c|
    ensures c[p] != c[q]
    decreases p
  {
    assert c[q].prev == c[q - 1];
    if p > 0 {
      assert c[p].prev == c[p - 1];
      LinkedInjective(c, p - 1, q - 1);
    }
  }

  lemma LinkedDistinct(c: seq<Node>)
    requires Linked(c)
    ensures forall a, b :: 0 <= a < b < |c| ==> c[a] != c[b]
  {
    forall a, b | 0 <= a < b < |c|
      ensures c[a] != c[b]
    {
      LinkedInjective(c, a, b);
    }
  }

  /** In a well-formed chain no other position holds c[j] or one of its neighbours. */
  lemma NeighboursApart(c: seq<Node>, j: int)
    requires Linked(c) && 0 <= j < |c|
    ensures forall m :: 0 <= m < |c| && m != j ==> c[m] != c[j]
    ensures j > 0 ==> forall m :: 0 <= m < |c| && m != j - 1 ==> c[m] != c[j - 1]
    ensures j + 1 < |c| ==> forall m :: 0 <= m < |c| && m != j + 1 ==> c[m] != c[j + 1]
  {
    forall m, p | 0 <= m < |c| && 0 <= p < |c| && m != p && j - 1 <= p <= j + 1
      ensures c[m] != c[p]
    {
      if m < p { LinkedInjective(c, m, p); } else { LinkedInjective(c, p, m); }
    }
  }

  /** hn_insert_after: splice `newNode` right after `node`. Nothing happens
      unless both are non-null; otherwise `newNode` takes `node`'s old
      successor, which (if any) points back at `newNode`. */
  method InsertAfter(node: Node?, newNode: Node?)
    requires node != null && newNode != null ==>
      newNode != node && newNode != node.next && node.next != node
    modifies if node != null && newNode != null then {node, newNode, node.next} else {}
    ensures node != null && newNode != null ==>
      && newNode.prev == node && newNode.next == old(node.next)
      && node.next == newNode && node.prev == old(node.prev)
      && node.key == old(node.key) && newNode.key == old(newNode.key)
    ensures node != null && newNode != null && old(node.next) != null ==>
      && old(node.next).prev == newNode
      && unchanged(old(node.next)`next, old(node.next)`key)
  {
    if node != null && newNode != null {
      newNode.next := node.next;
      newNode.prev := node;
      if node.next != null {
        node.next.prev := newNode;
      }
      node.next := newNode;
    }
  }

  /** hn_insert_before: the mirror image of InsertAfter. */
  method InsertBefore(node: Node?, newNode: Node?)
    requires node != null && newNode != null ==>
      newNode != node && newNode != node.prev && node.prev != node
    modifies if node != null && newNode != null then {node, newNode, node.prev} else {}
    ensures node != null && newNode != null ==>
      && newNode.next == node && newNode.prev == old(node.prev)
      && node.prev == newNode && node.next == old(node.next)
      && node.key == old(node.key) && newNode.key == old(newNode.key)
    ensures node != null && newNode != null && old(node.prev) != null ==>
      && old(node.prev).next == newNode
      && unchanged(old(node.prev)`prev, old(node.prev)`key)
  {
    if node != null && newNode != null {
      newNode.prev := node.prev;
      newNode.next := node;
      if node.prev != null {
        node.prev.next := newNode;
      }
      node.prev := newNode;
    }
  }

  /** hn_remove: connect the neighbours of `node` to each other and clear its
      own links. The node is not freed. The C code does not check for null. */
  method Remove(node: Node)
    requires node.prev != node && node.next != node
    modifies node, node.prev, node.next
    ensures node.prev == null && node.next == null && node.key == old(node.key)
    ensures old(node.prev) != null ==>
      && old(node.prev).next == old(node.next)
      && old(node.prev).key == old(node.prev.key)
      && (old(node.prev) != old(node.next) ==> old(node.prev).prev == old(node.prev.prev))
    ensures old(node.next) != null ==>
      && old(node.next).prev == old(node.prev)
      && old(node.next).key == old(node.next.key)
      && (old(node.prev) != old(node.next) ==> old(node.next).next == old(node.next.next))
  {
    if node.prev != null {
      node.prev.next := node.next;
    }
    if node.next != null {
      node.next.prev := node.prev;
    }
    node.next := null;
    node.prev := null;
  }

  /** The chain-level effect of InsertAfter: if `c` was a well-formed chain
      with links `ps`/`ns` and the links changed as
      InsertAfter(c[i], x) promises, then `c` with `x` placed right after
      position `i` is a well-formed chain. */
  lemma InsertAfterSplices(c: seq<Node>, ps: seq<Node?>, ns: seq<Node?>, i: int, x: Node)
    requires Chain(c, ps, ns) && 0 <= i < |c|
    requires forall j :: 0 <= j < |c| && j != i && j != i + 1 ==> c[j].prev == ps[j] && c[j].next == ns[j]
    requires c[i].prev == ps[i] && c[i].next == x
    requires x.prev == c[i] && x.next == ns[i]
    requires i + 1 < |c| ==> c[i + 1].prev == x && c[i + 1].next == ns[i + 1]
    ensures Linked(Insert(c, i + 1, x))
  {
    var d := Insert(c, i + 1, x);
    forall j | 0 < j < |d|
      ensures d[j].prev == d[j - 1] && d[j - 1].next == d[j]
    {
      if j <= i {
        assert ps[j] == c[j - 1] && ns[j - 1] == c[j];
      } else if j > i + 2 {
        assert ps[j - 1] == c[j - 2] && ns[j - 2] == c[j - 1];
      }
    }
    assert d[0] == c[0];
    assert d[|d| - 1] == if i + 1 < |c| then c[|c| - 1] else x;
  }

  /** The chain-level effect of InsertBefore: `x` lands right before
      position `i`. */
  lemma InsertBeforeSplices(c: seq<Node>, ps: seq<Node?>, ns: seq<Node?>, i: int, x: Node)
    requires Chain(c, ps, ns) && 0 <= i < |c|
    requires forall j :: 0 <= j < |c| && j != i && j != i - 1 ==> c[j].prev == ps[j] && c[j].next == ns[j]
    requires c[i].next == ns[i] && c[i].prev == x
    requires x.next == c[i] && x.prev == ps[i]
    requires i > 0 ==> c[i - 1].next == x && c[i - 1].prev == ps[i - 1]
    ensures Linked(Insert(c, i, x))
  {
    var d := Insert(c, i, x);
    forall j | 0 < j < |d|
      ensures d[j].prev == d[j - 1] && d[j - 1].next == d[j]
    {
      if j < i {
        assert ps[j] == c[j - 1] && ns[j - 1] == c[j];
      } else if j > i + 1 {
        assert ps[j - 1] == c[j - 2] && ns[j - 2] == c[j - 1];
      }
    }
    assert d[0] == if i == 0 then x else c[0];
    assert d[|d| - 1] == c[|c| - 1];
  }

  /** The chain-level effect of unlinking position `k`: if `c` was a
      well-formed chain with links `ps`/`ns`, the neighbours of c[k] now point
      at each other and nothing else in `c` changed, then `c` without c[k] is a
      well-formed chain. Shared by hn_remove and ht_remove. */
  lemma UnlinkSplices(c: seq<Node>, ps: seq<Node?>, ns: seq<Node?>, k: int)
    requires Chain(c, ps, ns) && 0 <= k < |c|
    requires forall j :: 0 <= j < |c| && j != k - 1 && j != k && j != k + 1 ==>
      c[j].prev == ps[j] && c[j].next == ns[j]
    requires k > 0 ==> c[k - 1].next == ns[k] && c[k - 1].prev == ps[k - 1]
    requires k + 1 < |c| ==> c[k + 1].prev == ps[k] && c[k + 1].next == ns[k + 1]
    ensures Linked(Delete(c, k))
  {
    var d := Delete(c, k);
    forall j | 0 < j < |d|
      ensures d[j].prev == d[j - 1] && d[j - 1].next == d[j]
    {
      if j < k {
        assert d[j - 1] == c[j - 1] && d[j] == c[j];
      } else if j == k {
        assert d[j - 1] == c[k - 1] && d[j] == c[k + 1];
      } else {
        assert d[j - 1] == c[j] && d[j] == c[j + 1];
      }
    }
    if |d| > 0 {
      assert d[0] == if k == 0 then c[1] else c[0];
      assert d[|d| - 1] == if k == |c| - 1 then c[|c| - 2] else c[|c| - 1];
    }
  }

  /** hn_insert_after on position i of a well-formed chain, with a node from
      outside it: the chain with `x` right after c[i] is well formed, and no key
      changes. */
  method InsertAfterInChain(ghost c: seq<Node>, ghost i: int, node: Node, x: Node)
    requires Linked(c) && 0 <= i < |c| && c[i] == node && x !in c
    modifies node, node.next, x
    ensures Linked(Insert(c, i + 1, x))
    ensures x.key == old(x.key) && forall j :: 0 <= j < |c| ==> c[j].key == old(c[j].key)
  {
    LinksOfChain(c);
    ghost var ps, ns := Prevs(c), Nexts(c);
    LinkAfterAt(c, i, ps, ns, node, x);
    InsertAfterSplices(c, ps, ns, i, x);
  }

  /** The link updates of InsertAfter at position i, stated against the recorded
      links `ps`/`ns` of the chain, in the form InsertAfterSplices takes them. */
  method LinkAfterAt(ghost c: seq<Node>, ghost i: int, ghost ps: seq<Node?>, ghost ns: seq<Node?>, node: Node, x: Node)
    requires Linked(c) && 0 <= i < |c| && c[i] == node && x !in c
    requires Chain(c, ps, ns) && ps == Prevs(c) && ns == Nexts(c)
    modifies node, node.next, x
    ensures forall j :: 0 <= j < |c| && j != i && j != i + 1 ==> c[j].prev == ps[j] && c[j].next == ns[j]
    ensures node.prev == ps[i] && node.next == x && x.prev == node && x.next == ns[i]
    ensures i + 1 < |c| ==> c[i + 1].prev == x && c[i + 1].next == ns[i + 1]
    ensures x.key == old(x.key) && forall j :: 0 <= j < |c| ==> c[j].key == old(c[j].key)
  {
    NeighboursApart(c, i);
    InsertAfter(node, x);
    forall j | 0 <= j < |c| && j != i && j != i + 1
      ensures c[j].prev == ps[j] && c[j].next == ns[j] && c[j].key == old(c[j].key)
    {
      assert c[j] != node && c[j] != x && (i + 1 < |c| ==> c[j] != c[i + 1]);
    }
  }

  /** hn_insert_before on position i of a well-formed chain, with a node from
      outside it: the chain with `x` right before c[i] is well formed, and no key
      changes. */
  method InsertBeforeInChain(ghost c: seq<Node>, ghost i: int, node: Node, x: Node)
    requires Linked(c) && 0 <= i < |c| && c[i] == node && x !in c
    modifies node, node.prev, x
    ensures Linked(Insert(c, i, x))
    ensures x.key == old(x.key) && forall j :: 0 <= j < |c| ==> c[j].key == old(c[j].key)
  {
    LinksOfChain(c);
    ghost var ps, ns := Prevs(c), Nexts(c);
    LinkBeforeAt(c, i, ps, ns, node, x);
    InsertBeforeSplices(c, ps, ns, i, x);
  }

  /** The link updates of InsertBefore at position i, stated against the recorded
      links `ps`/`ns` of the chain, in the form InsertBeforeSplices takes them. */
  method LinkBeforeAt(ghost c: seq<Node>, ghost i: int, ghost ps: seq<Node?>, ghost ns: seq<Node?>, node: Node, x: Node)
    requires Linked(c) && 0 <= i < |c| && c[i] == node && x !in c
    requires Chain(c, ps, ns) && ps == Prevs(c) && ns == Nexts(c)
    modifies node, node.prev, x
    ensures forall j :: 0 <= j < |c| && j != i && j != i - 1 ==> c[j].prev == ps[j] && c[j].next == ns[j]
    ensures node.next == ns[i] && node.prev == x && x.next == node && x.prev == ps[i]
    ensures i > 0 ==> c[i - 1].next == x && c[i - 1].prev == ps[i - 1]
    ensures x.key == old(x.key) && forall j :: 0 <= j < |c| ==> c[j].key == old(c[j].key)
  {
    NeighboursApart(c, i);
    InsertBefore(node, x);
    forall j | 0 <= j < |c| && j != i && j != i - 1
      ensures c[j].prev == ps[j] && c[j].next == ns[j] && c[j].key == old(c[j].key)
    {
      assert c[j] != node && c[j] != x && (i > 0 ==> c[j] != c[i - 1]);
    }
  }

  /** hn_remove on position k of a well-formed chain: the chain without c[k]
      is well formed, c[k] is left unlinked, and no key changes. */
  method RemoveFromChain(ghost c: seq<Node>, ghost k: int, node: Node)
    requires Linked(c) && 0 <= k < |c| && c[k] == node
    modifies node, node.prev, node.next
    ensures Linked(Delete(c, k))
    ensures node.prev == null && node.next == null
    ensures forall j :: 0 <= j < |c| ==> c[j].key == old(c[j].key)
  {
    NeighboursApart(c, k);
    LinksOfChain(c);
    ghost var ps, ns := Prevs(c), Nexts(c);
    Remove(node);
    UnlinkSplices(c, ps, ns, k);
  }

  /** Inserting `x` after c[i] and then removing it again restores every link
      of the chain, and leaves `x` unlinked. */
  method InsertAfterThenRemove(ghost c: seq<Node>, ghost i: int, node: Node, x: Node)
    requires Linked(c) && 0 <= i < |c| && c[i] == node && x !in c
    modifies node, node.next, x
    ensures Linked(c)
    ensures forall j :: 0 <= j < |c| ==>
      c[j].prev == old(c[j].prev) && c[j].next == old(c[j].next) && c[j].key == old(c[j].key)
    ensures x.prev == null && x.next == null
  {
    LinkedDistinct(c);
    ghost var after := node.next;
    assert after != null ==> i + 1 < |c| && after == c[i + 1];
    InsertAfter(node, x);
    Remove(x);
    assert node.next == after && node.prev == old(node.prev);
    assert after != null ==> after.prev == node && after.next == old(after.next);
  }
}
