/** The intrusive circular doubly linked lists of lib/list.h.

    A `ListNode` is the `List` structure embedded in every queued object. A ring
    is a head node together with the nodes linked behind it. All list operations
    are specified on a whole table of pairwise disjoint rings, so that a client
    with many lists learns at once what happens to the list it touches and that
    every other list keeps its contents. */
module Rings {
  import opened Seqs

  /** `id` names the enclosing structure; reading it is what `container_of` does. */
  class ListNode {
    const id: nat
    var next: ListNode
    var prev: ListNode

    constructor (id: nat)
      ensures this.id == id && Ring(this, [])
    {
      this.id := id;
      next, prev := this, this;
    }
  }

  type RingTable = map<ListNode, seq<ListNode>>

  /** The closed walk of a ring: the head, its elements in order, the head again. */
  ghost function Walk(head: ListNode, s: seq<ListNode>): seq<ListNode> {
    [head] + s + [head]
  }

  /** The nodes at positions `i` and `i + 1` of the walk point at each other. */
  ghost predicate Joined(head: ListNode, s: seq<ListNode>, i: nat)
    requires i <= |s|
    reads {head} + set n | n in s
  {
    var w := Walk(head, s);
    w[i].next == w[i + 1] && w[i + 1].prev == w[i]
  }

  /** `head` and the nodes of `s` are linked both ways in exactly this order. */
  ghost predicate Ring(head: ListNode, s: seq<ListNode>)
    reads {head} + set n | n in s
  {
    && head !in s
    && Distinct(s)
    && forall i: nat :: i <= |s| ==> Joined(head, s, i)
  }

  ghost function RingNodes(table: RingTable): (nodes: set<ListNode>)
    ensures forall h | h in table :: h in nodes
    ensures forall h, n | h in table && n in table[h] :: n in nodes
  {
    table.Keys + set h, n | h in table && n in table[h] :: n
  }

  ghost predicate Disjoint(table: RingTable) {
    && (forall h, k | h in table && k in table :: h !in table[k])
    && (forall h, k, n | h in table && k in table && n in table[h] && n in table[k] :: h == k)
  }

  /** Every entry of the table is a well-formed ring and no node is in two rings. */
  ghost predicate AllRings(table: RingTable)
    reads RingNodes(table)
  {
    && Disjoint(table)
    && forall h :: h in table ==> Ring(h, table[h])
  }

  /** The neighbours of a node in its ring, as the iteration macros read them. */
  lemma RingStep(head: ListNode, s: seq<ListNode>, i: nat)
    requires Ring(head, s) && i <= |s|
    ensures Walk(head, s)[i].next == Walk(head, s)[i + 1]
    ensures Walk(head, s)[i + 1].prev == Walk(head, s)[i]
    ensures i < |s| ==> Walk(head, s)[i + 1] == s[i]
    ensures i == |s| ==> Walk(head, s)[i + 1] == head
    ensures 0 < i ==> Walk(head, s)[i] == s[i - 1]
  {
    assert Joined(head, s, i);
  }

  /** Swapping one ring's contents for its own and foreign nodes keeps rings disjoint. */
  lemma StillDisjoint(table: RingTable, head: ListNode, s: seq<ListNode>)
    requires Disjoint(table) && head in table
    requires forall n :: n in s ==> n in table[head] || n !in RingNodes(table)
    ensures Disjoint(table[head := s])
  {
  }

  lemma NodesChanged(table: RingTable, head: ListNode, s: seq<ListNode>, added: set<ListNode>, gone: set<ListNode>)
    requires Disjoint(table) && head in table
    requires forall n :: n in s <==> (n in table[head] || n in added) && n !in gone
    requires forall n :: n in gone ==> n in table[head]
    ensures RingNodes(table[head := s]) == RingNodes(table) + added - gone
  {
    var t := table[head := s];
    forall n: ListNode | n in RingNodes(table) + added - gone ensures n in RingNodes(t) {
      if n in RingNodes(table) && n !in table {
        var h: ListNode :| h in table && n in table[h];
        assert n in t[h];
      } else if n !in table {
        assert n in t[head];
      }
    }
  }

  method ListInit(list: ListNode)
    modifies list
    ensures Ring(list, [])
  {
    list.next := list;
    list.prev := list;
  }

  method ListAddHead(first: ListNode, node: ListNode, ghost table: RingTable)
    requires AllRings(table) && first in table && node !in RingNodes(table)
    modifies RingNodes(table), node
    ensures AllRings(table[first := [node] + table[first]])
    ensures RingNodes(table[first := [node] + table[first]]) == RingNodes(table) + {node}
  {
    ghost var s := table[first];
    RingStep(first, s, 0);
    var second := first.next;
    second.prev := node;
    node.next := second;
    node.prev := first;
    first.next := node;

    ghost var s' := [node] + s;
    assert Ring(first, s') by {
      forall i: nat | i <= |s'| ensures Joined(first, s', i) {
        if i > 1 {
          assert old(Joined(first, s, i - 1));
          assert Walk(first, s')[i] == Walk(first, s)[i - 1];
          assert Walk(first, s')[i + 1] == Walk(first, s)[i];
        }
      }
    }
    StillDisjoint(table, first, s');
    NodesChanged(table, first, s', {node}, {});
    forall h | h in table && h != first ensures Ring(h, table[h]) {
      assert old(Ring(h, table[h]));
    }
  }

  method ListAddTail(first: ListNode, node: ListNode, ghost table: RingTable)
    requires AllRings(table) && first in table && node !in RingNodes(table)
    modifies RingNodes(table), node
    ensures AllRings(table[first := table[first] + [node]])
    ensures RingNodes(table[first := table[first] + [node]]) == RingNodes(table) + {node}
  {
    ghost var s := table[first];
    RingStep(first, s, |s|);
    var last := first.prev;
    last.next := node;
    node.next := first;
    node.prev := last;
    first.prev := node;

    ghost var s' := s + [node];
    assert Ring(first, s') by {
      forall i: nat | i <= |s'| ensures Joined(first, s', i) {
        if i < |s| {
          assert old(Joined(first, s, i));
          assert Walk(first, s')[i] == Walk(first, s)[i];
          assert Walk(first, s')[i + 1] == Walk(first, s)[i + 1];
        }
      }
    }
    StillDisjoint(table, first, s');
    NodesChanged(table, first, s', {node}, {});
    forall h | h in table && h != first ensures Ring(h, table[h]) {
      assert old(Ring(h, table[h]));
    }
  }

  lemma WithoutFacts(s: seq<ListNode>, i: nat)
    requires i < |s| && Distinct(s)
    ensures |Without(s, i)| == |s| - 1 && Distinct(Without(s, i))
    ensures forall n :: n in Without(s, i) <==> n in s && n != s[i]
  {
    WithoutIsGone(s, i);
    RemoveFacts(s, s[i]);
  }

  lemma WalkWithout(head: ListNode, s: seq<ListNode>, i: nat, k: nat)
    requires i < |s| && k < |s|
    ensures Walk(head, Without(s, i))[k] == Walk(head, s)[if k <= i then k else k + 1]
    ensures Walk(head, Without(s, i))[k + 1] == Walk(head, s)[if k < i then k + 1 else k + 2]
  {
  }

  /** list_remove: unlinks a node from whatever ring it is in, without knowing which one. The
      node keeps its own stale links; a node linked to itself only stays so. */
  method ListRemove(deleteme: ListNode, ghost table: RingTable, ghost linked: bool, ghost head: ListNode, ghost i: nat)
    requires AllRings(table)
    requires linked ==> head in table && i < |table[head]| && table[head][i] == deleteme
    requires !linked ==> Ring(deleteme, []) && deleteme !in RingNodes(table)
    modifies RingNodes(table), deleteme
    ensures linked ==> AllRings(table[head := Without(table[head], i)])
    ensures linked ==> RingNodes(table[head := Without(table[head], i)]) == RingNodes(table) - {deleteme}
    ensures !linked ==> AllRings(table) && Ring(deleteme, [])
  {
    hide RingNodes, Without;
    ghost var s := if linked then table[head] else [];
    if linked {
      RingStep(head, s, i);
      RingStep(head, s, i + 1);
    } else {
      RingStep(deleteme, [], 0);
    }
    var prev := deleteme.prev;
    var next := deleteme.next;
    prev.next := next;
    next.prev := prev;

    if linked {
      ghost var s' := Without(s, i);
      WithoutFacts(s, i);
      assert Ring(head, s') by {
        forall k: nat | k <= |s'| ensures Joined(head, s', k) {
          WalkWithout(head, s, i, k);
          if k < i {
            assert old(Joined(head, s, k));
          } else if k > i {
            assert old(Joined(head, s, k + 1));
          }
        }
      }
      StillDisjoint(table, head, s');
      forall h | h in table && h != head ensures Ring(h, table[h]) {
        assert old(Ring(h, table[h]));
      }
      NodesChanged(table, head, s', {}, {deleteme});
    }
  }

  lemma RingIn(table: RingTable, head: ListNode)
    requires AllRings(table) && head in table
    ensures Ring(head, table[head])
  {
  }

  /** A fresh self-linked node may join the table as an empty ring. */
  lemma JoinRing(table: RingTable, head: ListNode)
    requires AllRings(table) && head !in RingNodes(table) && Ring(head, [])
    ensures AllRings(table[head := []])
    ensures RingNodes(table[head := []]) == RingNodes(table) + {head}
  {
    var t := table[head := []];
    forall n | n in RingNodes(table) ensures n in RingNodes(t) {
      if n !in table {
        var h: ListNode :| h in table && n in table[h];
        assert n in t[h];
      }
    }
  }

  method ListLength(head: ListNode, ghost table: RingTable) returns (n: nat)
    requires AllRings(table) && head in table
    ensures n == |table[head]|
  {
    ghost var s := table[head];
    RingStep(head, s, 0);
    var p := head.next;
    n := 0;
    while p != head
      invariant n <= |s| && p == Walk(head, s)[n + 1]
      invariant p == head ==> n == |s|
      decreases |s| - n
    {
      assert n < |s| && p == s[n];
      RingStep(head, s, n + 1);
      p := p.next;
      n := n + 1;
    }
  }
}
