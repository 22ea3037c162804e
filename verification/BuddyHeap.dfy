/** The buddy allocator in memory: block records, their embedded list nodes and the
    eleven list heads, refining the state machine of module Buddy. */
module BuddyHeap {
  import opened Blocks
  import opened Seqs
  import opened Rings
  import Buddy

  class BuddyBlock {
    var order: nat
    var free: bool
    const pfn: nat
    const free_list: ListNode

    constructor (pfn: nat)
      ensures this.pfn == pfn && order == 0 && !free
      ensures fresh(free_list) && free_list.id == pfn && Ring(free_list, [])
    {
      this.pfn := pfn;
      order, free := 0, false;
      free_list := new ListNode(pfn);
    }
  }

  class BuddyMemDesc {
    const pfn_offset: nat
    const tot_pages: nat
    const all_buddies: seq<BuddyBlock>
    /** List heads; their ids lie above every page number of the zone. */
    const free_lists: seq<ListNode>
    ghost var rings: RingTable
    /** The fields of the records, the page numbers on each list, and the blocks handed out. */
    ghost var orders: seq<nat>
    ghost var frees: seq<bool>
    ghost var lists: seq<seq<nat>>
    ghost var live: map<nat, nat>

    /** All list nodes of this zone: the heads and the node in every block record. */
    ghost const nodes: set<ListNode>
    ghost const blocks: set<BuddyBlock>

    ghost predicate Static() {
      && |all_buddies| == tot_pages
      && (forall i :: 0 <= i < tot_pages ==>
            all_buddies[i].pfn == i && all_buddies[i].free_list.id == i && all_buddies[i].free_list in nodes
                && all_buddies[i] in blocks)
      && |free_lists| == MAX_ORDER + 1
      && (forall o :: 0 <= o <= MAX_ORDER ==> free_lists[o].id == tot_pages + o && free_lists[o] in nodes)
    }

    /** The ring behind a list head holds the nodes of the listed blocks, in order. */
    ghost predicate Matches(o: nat)
      requires Static() && o <= MAX_ORDER
      reads this`rings, this`lists
    {
      && o < |lists| && free_lists[o] in rings
      && var ring := rings[free_lists[o]];
      && |ring| == |lists[o]|
      && forall i :: 0 <= i < |ring| ==> lists[o][i] < tot_pages && ring[i] == all_buddies[lists[o][i]].free_list
    }

    ghost predicate Recorded()
      requires Static()
      reads this`orders, this`frees, blocks
    {
      && |orders| == |frees| == tot_pages
      && forall i :: 0 <= i < tot_pages ==> all_buddies[i].order == orders[i] && all_buddies[i].free == frees[i]
    }

    ghost predicate Valid()
      reads this`rings, this`lists, this`orders, this`frees, blocks, nodes
    {
      && Static()
      && Recorded()
      && |lists| == MAX_ORDER + 1
      && (forall h | h in rings :: tot_pages <= h.id <= tot_pages + MAX_ORDER && free_lists[h.id - tot_pages] == h)
      && (forall o: nat :: o <= MAX_ORDER ==> Matches(o))
      && RingNodes(rings) <= nodes
      && AllRings(rings)
    }

    /** The state that the records, the lists and the outstanding blocks represent. */
    ghost function View(): Buddy.State
      reads this
    {
      Buddy.State(tot_pages, orders, frees, lists, live)
    }

    /** The node of a block on no list is outside every ring. */
    lemma Unlinked(p: nat)
      requires Valid() && p < tot_pages && forall o: nat :: o <= MAX_ORDER ==> p !in lists[o]
      ensures all_buddies[p].free_list !in RingNodes(rings)
    {
      forall h, n | h in rings && n in rings[h] ensures n != all_buddies[p].free_list {
        var o := h.id - tot_pages;
        assert Matches(o);
        var i :| 0 <= i < |rings[h]| && rings[h][i] == n;
        assert lists[o][i] in lists[o];
      }
    }

    constructor (records: seq<BuddyBlock>, heads: seq<ListNode>, ghost table: RingTable, ghost all: set<ListNode>,
                 ghost init: Buddy.State, pfn_offset: nat)
      ensures this.pfn_offset == pfn_offset && tot_pages == |records| && all_buddies == records
      ensures free_lists == heads && rings == table && nodes == all && blocks == set b | b in records
      ensures orders == init.order && frees == init.free && lists == init.lists && live == init.live
    {
      this.pfn_offset, tot_pages, all_buddies, free_lists := pfn_offset, |records|, records, heads;
      rings, nodes, blocks := table, all, set b | b in records;
      orders, frees, lists, live := init.order, init.free, init.lists, init.live;
    }

    /** init_buddy_new. `null` is its panic on a zone smaller than one block of the largest order. */
    static method InitBuddy(num_pages: nat, pfn_offset: nat) returns (d: BuddyMemDesc?)
      ensures d == null <==> num_pages < TOP
      ensures d != null ==>
                && fresh(d) && fresh(d.nodes) && fresh(d.blocks)
                && d.Valid() && d.View() == Buddy.Init(num_pages / TOP) && d.pfn_offset == pfn_offset
    {
      hide AllRings, RingNodes, BuddyMemDesc.Valid, Buddy.Init;
      TopPages();
      RoundedDown(num_pages);
      var rounded_down_pages := num_pages / Pages(MAX_ORDER) * Pages(MAX_ORDER);
      if rounded_down_pages == 0 {
        return null;
      }
      var heads, table := NewHeads(rounded_down_pages);
      var records, recordNodes := NewRecords(rounded_down_pages);
      ghost var all := table.Keys + recordNodes;
      ghost var first;
      table, first := LinkTopBlocks(records, heads, table, recordNodes);
      d := Assemble(records, heads, table, all, num_pages / TOP, first, pfn_offset);
    }

    static lemma RoundedDown(n: nat)
      ensures n / TOP * TOP == 0 <==> n < TOP
      ensures n / TOP * TOP / TOP == n / TOP && n / TOP * TOP % TOP == 0
    {
    }

    /** The descriptor over records and lists that are already linked. */
    static method Assemble(records: seq<BuddyBlock>, heads: seq<ListNode>, ghost table: RingTable,
                           ghost all: set<ListNode>,
                           ghost blocks: nat, ghost first: seq<nat>, pfn_offset: nat) returns (d: BuddyMemDesc)
      requires |records| == blocks * TOP && |heads| == MAX_ORDER + 1 && RingNodes(table) <= all && AllRings(table)
      requires forall i :: 0 <= i < |records| ==>
        records[i].pfn == i && records[i].free_list.id == i && records[i].free_list in all
      requires forall o :: 0 <= o <= MAX_ORDER ==> heads[o].id == |records| + o && heads[o] in all && heads[o] in table
      requires forall h | h in table :: h in heads
      requires forall h | h in table && h != heads[MAX_ORDER] :: table[h] == []
      requires |table[heads[MAX_ORDER]]| == |first| == blocks
      requires forall j :: 0 <= j < blocks ==>
                 first[j] == j * TOP && table[heads[MAX_ORDER]][j] == records[first[j]].free_list
      requires forall x :: 0 <= x < |records| ==> InitRecord(records[x], TopBelow(x, |records|))
      ensures fresh(d) && d.nodes == all && d.all_buddies == records && d.blocks == set b | b in records
      ensures d.Valid() && d.View() == Buddy.Init(blocks) && d.pfn_offset == pfn_offset
    {
      d := new BuddyMemDesc(records, heads, table, all, Buddy.Init(blocks), pfn_offset);
      assert d.Static();
      d.MatchesAfterInit(blocks, first);
      d.RecordedAfterInit(blocks);
    }

    lemma MatchesAfterInit(blocks: nat, first: seq<nat>)
      requires Static() && tot_pages == blocks * TOP && lists == Buddy.Init(blocks).lists
      requires forall h | h in rings && h != free_lists[MAX_ORDER] :: rings[h] == []
      requires forall o :: 0 <= o <= MAX_ORDER ==> free_lists[o] in rings
      requires |rings[free_lists[MAX_ORDER]]| == |first| == blocks
      requires forall j :: 0 <= j < blocks ==>
        first[j] == j * TOP && rings[free_lists[MAX_ORDER]][j] == all_buddies[first[j]].free_list
      ensures forall o: nat :: o <= MAX_ORDER ==> Matches(o)
    {
      forall o: nat | o <= MAX_ORDER ensures Matches(o) {
        assert free_lists[o].id == tot_pages + o && free_lists[MAX_ORDER].id == tot_pages + MAX_ORDER;
        if o == MAX_ORDER {
          assert lists[o] == first;
        }
      }
    }

    lemma RecordedAfterInit(blocks: nat)
      requires Static() && tot_pages == blocks * TOP
      requires orders == Buddy.Init(blocks).order && frees == Buddy.Init(blocks).free
      requires forall x :: 0 <= x < tot_pages ==> InitRecord(all_buddies[x], TopBelow(x, tot_pages))
      ensures Recorded()
    {
    }

    /** The second loop of init_buddy_new. */
    static method LinkTopBlocks(records: seq<BuddyBlock>, heads: seq<ListNode>,
                                ghost before: RingTable, ghost recordNodes: set<ListNode>)
      returns (ghost table: RingTable, ghost first: seq<nat>)
      requires |records| % TOP == 0 && |heads| == MAX_ORDER + 1
      requires AllRings(before) && RingNodes(before) !! recordNodes
      requires forall h | h in before :: before[h] == []
      requires forall o :: 0 <= o <= MAX_ORDER ==> heads[o] in before
      requires forall i :: 0 <= i < |records| ==>
        && records[i].pfn == i && records[i].order == 0 && !records[i].free
        && records[i].free_list.id == i && records[i].free_list in recordNodes
      modifies records, RingNodes(before), recordNodes
      ensures AllRings(table) && RingNodes(table) <= RingNodes(before) + recordNodes
      ensures table.Keys == before.Keys && forall h | h in table && h != heads[MAX_ORDER] :: table[h] == []
      ensures |table[heads[MAX_ORDER]]| == |first| == |records| / TOP
      ensures forall j :: 0 <= j < |first| ==>
        first[j] == j * TOP && table[heads[MAX_ORDER]][j] == records[first[j]].free_list
      ensures forall x :: 0 <= x < |records| ==> InitRecord(records[x], TopBelow(x, |records|))
    {
      hide AllRings, RingNodes;
      table, first := before, [];
      ghost var top := heads[MAX_ORDER];
      var i := 0;
      ghost var k := 0;
      ghost var done := seq(|records|, _ => false);
      while i < |records|
        invariant i == k * TOP && i <= |records|
        invariant AllRings(table) && RingNodes(table) <= RingNodes(before) + recordNodes
        invariant table.Keys == before.Keys && forall h | h in table && h != top :: table[h] == []
        invariant |table[top]| == |first| == k
        invariant forall j :: 0 <= j < k ==> first[j] == j * TOP && table[top][j] == records[first[j]].free_list
        invariant |done| == |records|
        invariant forall x :: 0 <= x < |records| ==> InitRecord(records[x], done[x])
        invariant forall x :: 0 <= x < |records| ==> done[x] == TopBelow(x, i)
      {
        var top_order_block := records[i];
        assert top_order_block.free_list !in RingNodes(table) by {
          assert forall j :: 0 <= j < k ==> table[top][j].id == j * TOP;
          OnlyTopFilled(table, top, top_order_block.free_list);
        }
        LinkTop(top_order_block, heads[MAX_ORDER], table);
        table := table[top := table[top] + [top_order_block.free_list]];
        first := first + [i];
        done := done[i := true];
        forall x | 0 <= x < |records| ensures done[x] == TopBelow(x, i + TOP) {
          OneMoreTop(x, k);
        }
        i, k := i + TOP, k + 1;
      }
    }

    /** Make a block one of the largest order and link it at the tail of its list. */
    static method LinkTop(top_order_block: BuddyBlock, head: ListNode, ghost table: RingTable)
      requires AllRings(table) && head in table && top_order_block.free_list !in RingNodes(table)
      modifies top_order_block, RingNodes(table), top_order_block.free_list
      ensures AllRings(table[head := table[head] + [top_order_block.free_list]])
      ensures RingNodes(table[head := table[head] + [top_order_block.free_list]]) ==
                RingNodes(table) + {top_order_block.free_list}
      ensures InitRecord(top_order_block, true)
    {
      hide AllRings, RingNodes;
      top_order_block.free := true;
      ListAddTail(head, top_order_block.free_list, table);
      top_order_block.order := MAX_ORDER;
    }

    static lemma OnlyTopFilled(table: RingTable, top: ListNode, n: ListNode)
      requires top in table && n !in table && (forall h | h in table && h != top :: table[h] == [])
      requires forall j :: 0 <= j < |table[top]| ==> table[top][j].id != n.id
      ensures n !in RingNodes(table)
    {
    }

    static predicate TopBelow(x: nat, i: nat) {
      x % TOP == 0 && x < i
    }

    static lemma OneMoreTop(x: nat, k: nat)
      ensures TopBelow(x, k * TOP + TOP) <==> TopBelow(x, k * TOP) || x == k * TOP
    {
    }

    /** The record of a page after boot; `top` marks the first page of a largest block. */
    static ghost predicate InitRecord(b: BuddyBlock, top: bool)
      reads b
    {
      b.order == (if top then MAX_ORDER else 0) && b.free == top
    }

    static method NewHeads(tot: nat) returns (heads: seq<ListNode>, ghost table: RingTable)
      ensures |heads| == MAX_ORDER + 1 && AllRings(table)
      ensures forall o :: 0 <= o <= MAX_ORDER ==> heads[o].id == tot + o && fresh(heads[o])
      ensures table.Keys == (set h | h in heads) && forall h :: h in table ==> table[h] == []
      ensures RingNodes(table) == table.Keys
    {
      heads, table := [], map[];
      for o := 0 to MAX_ORDER + 1
        invariant |heads| == o && AllRings(table)
        invariant forall i :: 0 <= i < o ==> heads[i].id == tot + i && fresh(heads[i])
        invariant table.Keys == (set h | h in heads) && forall h :: h in table ==> table[h] == []
        invariant RingNodes(table) == table.Keys
      {
        var h := new ListNode(tot + o);
        JoinRing(table, h);
        table := table[h := []];
        heads := heads + [h];
      }
    }

    static method NewRecords(tot: nat) returns (records: seq<BuddyBlock>, ghost recordNodes: set<ListNode>)
      ensures |records| == tot && fresh(recordNodes)
      ensures forall i :: 0 <= i < tot ==>
        && fresh(records[i]) && records[i].pfn == i && records[i].order == 0 && !records[i].free
        && records[i].free_list.id == i && records[i].free_list in recordNodes
    {
      records, recordNodes := [], {};
      for i := 0 to tot
        invariant |records| == i && fresh(recordNodes)
        invariant forall k :: 0 <= k < i ==>
          && fresh(records[k]) && records[k].pfn == k && records[k].order == 0 && !records[k].free
          && records[k].free_list.id == k && records[k].free_list in recordNodes
      {
        var b := new BuddyBlock(i);
        records := records + [b];
        recordNodes := recordNodes + {b.free_list};
      }
    }

    /** `b->order = o`. */
    method SetOrder(b: BuddyBlock, o: nat)
      requires Valid() && b in all_buddies
      modifies this`orders, b`order
      ensures Valid() && orders == old(orders)[b.pfn := o]
    {
      b.order := o;
      orders := orders[b.pfn := o];
    }

    /** `b->free = f`. */
    method SetFree(b: BuddyBlock, f: bool)
      requires Valid() && b in all_buddies
      modifies this`frees, b`free
      ensures Valid() && frees == old(frees)[b.pfn := f]
    {
      b.free := f;
      frees := frees[b.pfn := f];
    }

    /** `list_add_head(&free_lists[o], &b->free_list)`. */
    method Link(b: BuddyBlock, o: nat)
      requires Valid() && o <= MAX_ORDER && b in all_buddies && b.free_list !in RingNodes(rings)
      modifies this`rings, this`lists, nodes
      ensures Valid()
      ensures lists == old(lists)[o := [b.pfn] + old(lists)[o]]
    {
      hide AllRings, RingNodes, Ring, Recorded;
      assert Matches(o);
      ListAddHead(free_lists[o], b.free_list, rings);
      rings := rings[free_lists[o] := [b.free_list] + rings[free_lists[o]]];
      lists := lists[o := [b.pfn] + lists[o]];
      forall k: nat | k <= MAX_ORDER && k != o ensures Matches(k) {
        assert old(Matches(k)) && free_lists[k].id == tot_pages + k;
      }
    }

    /** `list_remove(&b->free_list)`. */
    method Unlink(b: BuddyBlock, ghost o: nat, ghost i: nat)
      requires Valid() && o <= MAX_ORDER && b in all_buddies
      requires i < |lists[o]| && lists[o][i] == b.pfn
      modifies this`rings, this`lists, nodes
      ensures Valid() && b.free_list !in RingNodes(rings)
      ensures lists == old(lists)[o := Without(old(lists)[o], i)]
    {
      hide AllRings, RingNodes, Ring, Recorded;
      assert Matches(o);
      ListRemove(b.free_list, rings, true, free_lists[o], i);
      rings := rings[free_lists[o] := Without(rings[free_lists[o]], i)];
      lists := lists[o := Without(lists[o], i)];
      forall k: nat | k <= MAX_ORDER ensures Matches(k) {
        if k != o {
          assert old(Matches(k)) && free_lists[k].id == tot_pages + k;
        }
      }
    }

    /** The loop of get_buddy_new that takes the first block of a list, if any. */
    method TakeFirst(order: nat) returns (found: BuddyBlock?)
      requires Valid() && order <= MAX_ORDER
      modifies this, blocks, nodes
      ensures Valid()
      ensures var s := old(View());
              if Buddy.ListOf(s, order) == [] then found == null && View() == s
              else var p := Buddy.ListOf(s, order)[0];
                p < tot_pages && found == all_buddies[p] && View() == Buddy.Take(s, order)
    {
      assert Matches(order);
      RingStep(free_lists[order], rings[free_lists[order]], 0);
      var l := free_lists[order].next;
      if l == free_lists[order] {
        return null;
      }
      found := all_buddies[l.id];
      assert Without(lists[order], 0) == lists[order][1..];
      SetFree(found, false);
      Unlink(found, order, 0);
      live := live[found.pfn := order];
    }

    /** The part of get_buddy_new that breaks a block of the next order in two. */
    method Break(found: BuddyBlock, order: nat)
      requires Valid() && order < MAX_ORDER && found in all_buddies
      requires found.pfn + Pages(order) < tot_pages
      requires forall k: nat :: k <= MAX_ORDER ==> found.pfn + Pages(order) !in lists[k]
      modifies this, blocks, nodes
      ensures Valid() && View() == Buddy.Split(old(View()), found.pfn, order)
    {
      hide Valid, Buddy.Split, Pages;
      RecordKnown(found);
      Sizes();
      PagesHalve(order);
      HalfKnown(found.pfn + Pages(order));
      Unlinked(found.pfn + Pages(order));
      SplitShape(View(), found.pfn, order);
      SetOrder(found, order);
      var b_pfn := found.pfn + Pages(order + 1) / 2;
      var my_buddy := all_buddies[b_pfn];
      SetFree(my_buddy, true);
      SetOrder(my_buddy, order);
      Link(my_buddy, order);
      SetFree(found, false);
      live := live[found.pfn := order];
    }

    static lemma PagesHalve(order: nat)
      ensures Pages(order + 1) / 2 == Pages(order)
    {
    }

    lemma HalfKnown(p: nat)
      requires Valid() && p < tot_pages
      ensures p < |all_buddies| && all_buddies[p] in all_buddies && all_buddies[p].pfn == p && all_buddies[p] in blocks
    {
    }

    /** The split of the value machine, field by field, in the order of the assignments. */
    static lemma SplitShape(s: Buddy.State, p: nat, o: nat)
      requires |s.order| == |s.free| == s.tot && |s.lists| == MAX_ORDER + 1 && p + Pages(o) < s.tot && o < MAX_ORDER
      ensures var b := p + Pages(o);
              Buddy.Split(s, p, o) == s.(order := s.order[p := o][b := o], free := s.free[b := true][p := false],
                                         lists := s.lists[o := [b] + s.lists[o]], live := s.live[p := o])
    {
    }

    /** After the recursive call the upper half is inside the zone and on no list. */
    static lemma UpperHalfReady(s: Buddy.State, order: nat, t: Buddy.State, p: nat)
      requires Buddy.Inv(s) && order < MAX_ORDER && Buddy.Get(s, order + 1) == Buddy.Got(t, p)
      ensures p + Pages(order) < t.tot
      ensures forall k: nat :: k <= MAX_ORDER && k < |t.lists| ==> p + Pages(order) !in t.lists[k]
    {
      hide Buddy.Inv, Buddy.Get, Buddy.IsFree, Pages;
      Buddy.GetKeeps(s, order + 1);
      Buddy.GetEffect(s, order + 1);
      Buddy.SplitInBounds(t, p, order);
      assert forall k: nat :: k < |t.lists| ==> t.lists[k] == Buddy.ListOf(t, k);
    }

    lemma RecordKnown(b: BuddyBlock)
      requires Valid() && b in all_buddies
      ensures b.pfn < tot_pages && all_buddies[b.pfn] == b && b in blocks
      ensures Buddy.OrderOf(View(), b.pfn) == b.order && Buddy.IsFree(View(), b.pfn) == b.free
    {
    }

    /** get_buddy_new. `null` stands for a panic, which changes nothing before it stops. */
    method GetBuddy(order: nat) returns (found: BuddyBlock?)
      requires Valid() && Buddy.Inv(View())
      modifies this, blocks, nodes
      ensures Valid()
      ensures match Buddy.Get(old(View()), order)
              case Panic => found == null && View() == old(View())
              case Got(t, p) => p < tot_pages && found == all_buddies[p] && View() == t
      ensures found != null ==> found in all_buddies && Buddy.Get(old(View()), order) == Buddy.Got(View(), found.pfn)
      ensures found == null ==> Buddy.Get(old(View()), order) == Buddy.Panic && View() == old(View())
      decreases MAX_ORDER + 1 - order
    {
      hide Buddy.Inv, Buddy.Take, Buddy.Split;
      if order > MAX_ORDER {
        return null;
      }
      ghost var s := View();
      found := TakeFirst(order);
      if found != null || order == MAX_ORDER {
        return;
      }
      found := GetBuddy(order + 1);
      if found != null {
        UpperHalfReady(s, order, View(), found.pfn);
        Break(found, order);
      }
    }

    /** calc_my_buddy_new_pfn. */
    method CalcMyBuddyPfn(b: BuddyBlock, order: nat) returns (buddy_pfn: nat)
      requires Aligned(b.pfn, order)
      ensures buddy_pfn == BuddyOf(b.pfn, order)
    {
      ParityTest(b.pfn, order);
      hide Aligned, Pages;
      if (b.pfn / Pages(order)) % 2 == 0 {
        buddy_pfn := b.pfn + Pages(order);
      } else {
        buddy_pfn := b.pfn - Pages(order);
      }
    }

    /** calc_free_buddy. Its index is in bounds and its PFN panic cannot happen. */
    method CalcFreeBuddy(b: BuddyBlock) returns (found: BuddyBlock?)
      requires Valid() && b in all_buddies && Aligned(b.pfn, b.order) && Aligned(tot_pages, MAX_ORDER)
      ensures b.order < MAX_ORDER && Buddy.FreeBuddy(View(), b.pfn, b.order) ==>
                BuddyOf(b.pfn, b.order) < tot_pages && found == all_buddies[BuddyOf(b.pfn, b.order)]
      ensures !(b.order < MAX_ORDER && Buddy.FreeBuddy(View(), b.pfn, b.order)) ==> found == null
    {
      if b.order >= MAX_ORDER {
        return null;
      }
      var buddy_pfn := CalcMyBuddyPfn(b, b.order);
      BuddyInZone(b.pfn, b.order, tot_pages);
      var found_buddy := all_buddies[buddy_pfn];
      if found_buddy.pfn != buddy_pfn {
        assert false;
      }
      if found_buddy.free && found_buddy.order == b.order {
        found := found_buddy;
      } else {
        found := null;
      }
    }

    /** Take a free block off its list. */
    method UnlinkFree(b: BuddyBlock, ghost o: nat)
      requires Valid() && b in all_buddies && o <= MAX_ORDER
      requires b.pfn in lists[o] && Distinct(lists[o])
      modifies this`rings, this`lists, this`frees, b`free, nodes
      ensures Valid()
      ensures frees == old(frees)[b.pfn := false] && lists == old(lists)[o := Remove(old(lists)[o], b.pfn)]
    {
      ghost var i :| 0 <= i < |lists[o]| && lists[o][i] == b.pfn;
      RemoveAtIndex(lists[o], i);
      SetFree(b, false);
      Unlink(b, o, i);
    }

    /** The branch of free_buddy_new that joins a block with its free buddy. */
    method Join(b: BuddyBlock, my_buddy: BuddyBlock) returns (base: BuddyBlock)
      requires Valid() && b in all_buddies && my_buddy in all_buddies && !b.free && b.order < MAX_ORDER
      requires my_buddy.pfn == BuddyOf(b.pfn, b.order) && my_buddy.pfn != b.pfn
      requires my_buddy.pfn in lists[b.order] && Distinct(lists[b.order])
      modifies this, blocks, nodes
      ensures Valid() && View() == Buddy.Merge(old(View()), b.pfn)
      ensures base in all_buddies && base.pfn == Buddy.MergeBase(old(View()), b.pfn)
    {
      hide Valid, Remove, Distinct, BuddyOf, Buddy.OrderOf, Buddy.IsFree, Buddy.Merge, Buddy.MergeBase;
      RecordKnown(b);
      RecordKnown(my_buddy);
      Sizes();
      MergeShape(View(), b.pfn, my_buddy.pfn);
      SetFree(b, false);
      UnlinkFree(my_buddy, b.order);
      base := b;
      var upper_order := b.order + 1;
      if b.pfn > my_buddy.pfn {
        base := my_buddy;
      }
      SetOrder(base, upper_order);
      SetFree(base, false);
      live := (live - {b.pfn})[base.pfn := upper_order];
    }

    lemma Sizes()
      requires Valid()
      ensures |orders| == |frees| == tot_pages && |lists| == MAX_ORDER + 1
    {
    }

    /** The merge of the value machine, field by field, in the order of the assignments. */
    static lemma MergeShape(s: Buddy.State, p: nat, q: nat)
      requires |s.order| == |s.free| == s.tot && |s.lists| == MAX_ORDER + 1 && p < s.tot && q < s.tot
      requires Buddy.OrderOf(s, p) < MAX_ORDER && q == BuddyOf(p, Buddy.OrderOf(s, p)) && !Buddy.IsFree(s, p)
      ensures var o := Buddy.OrderOf(s, p);
              var base := if p > q then q else p;
              && base == Buddy.MergeBase(s, p)
              && Buddy.Merge(s, p) == s.(order := s.order[base := o + 1],
                                         free := s.free[p := false][q := false][base := false],
                                         lists := s.lists[o := Remove(s.lists[o], q)],
                                         live := (s.live - {p})[base := o + 1])
    {
      hide BuddyOf, Remove;
      assert s.free[p := false] == s.free;
      assert s.free[q := false][if p > q then q else p := false] == s.free[q := false];
    }

    /** What free_buddy_new finds for a block in hand. */
    static lemma InHandFacts(s: Buddy.State, p: nat)
      requires Buddy.Inv(s) && p in s.live
      ensures p < s.tot && !Buddy.IsFree(s, p) && Buddy.OrderOf(s, p) <= MAX_ORDER
      ensures Aligned(p, Buddy.OrderOf(s, p)) && Aligned(s.tot, MAX_ORDER)
      ensures forall k: nat :: k < |s.lists| ==> p !in s.lists[k] && Distinct(s.lists[k])
      ensures Buddy.FreeBuddy(s, p, Buddy.OrderOf(s, p)) ==>
                BuddyOf(p, Buddy.OrderOf(s, p)) in Buddy.ListOf(s, Buddy.OrderOf(s, p))
    {
      assert Buddy.Head(s, p);
      forall k: nat | k < |s.lists| ensures p !in s.lists[k] && Distinct(s.lists[k]) {
        assert s.lists[k] == Buddy.ListOf(s, k);
        Buddy.NotFreeNotListed(s, p, k);
      }
    }

    /** Joining a block in hand with its free buddy leaves the joined block in hand. */
    static lemma JoinedInHand(s: Buddy.State, p: nat)
      requires Buddy.Inv(s) && p in s.live && Buddy.OrderOf(s, p) < MAX_ORDER
      requires Buddy.FreeBuddy(s, p, Buddy.OrderOf(s, p))
      ensures var t, base := Buddy.Merge(s, p), Buddy.MergeBase(s, p);
              && Buddy.Inv(t) && base in t.live && Buddy.OrderOf(t, base) == Buddy.OrderOf(s, p) + 1
              && Buddy.Release(s, p) == Buddy.Release(t, base) && Buddy.Release(s, p).Freed?
    {
      Buddy.MergeKeeps(s, p);
      Buddy.MergeEffect(s, p);
      Buddy.LiveOrder(Buddy.Merge(s, p), Buddy.MergeBase(s, p));
    }

    static lemma ReleasePuts(s: Buddy.State, p: nat)
      requires !Buddy.IsFree(s, p) && Buddy.OrderOf(s, p) <= MAX_ORDER
      requires !(Buddy.OrderOf(s, p) < MAX_ORDER && Buddy.FreeBuddy(s, p, Buddy.OrderOf(s, p)))
      ensures Buddy.Release(s, p) == Buddy.Freed(Buddy.Put(s, p))
    {
    }

    /** The branch of free_buddy_new that links a block as free. */
    method PutBack(b: BuddyBlock)
      requires Valid() && b in all_buddies && b.order <= MAX_ORDER
      requires forall k: nat :: k <= MAX_ORDER ==> b.pfn !in lists[k]
      modifies this, blocks, nodes
      ensures Valid() && View() == Buddy.Put(old(View()), b.pfn)
    {
      Unlinked(b.pfn);
      SetFree(b, true);
      Link(b, b.order);
      live := live - {b.pfn};
    }

    /** free_buddy_new. `ok` is false when it panics; it panics only on a block that is
        already free, before changing anything. */
    method FreeBuddy(b: BuddyBlock) returns (ok: bool)
      requires Valid() && Buddy.Inv(View()) && b in all_buddies
      requires b.pfn in live || b.free
      modifies this, blocks, nodes
      ensures Valid()
      ensures match Buddy.Release(old(View()), b.pfn)
              case FreePanic => !ok && View() == old(View())
              case Freed(t) => ok && View() == t
      decreases if b.order <= MAX_ORDER then MAX_ORDER - b.order else 0
    {
      hide Buddy.Inv, Buddy.Merge, Buddy.Put;
      if b.order > MAX_ORDER {
        return false;
      }
      if b.free {
        return false;
      }
      InHandFacts(View(), b.pfn);
      var list_my_buddy := CalcFreeBuddy(b);
      if list_my_buddy != null {
        JoinedInHand(View(), b.pfn);
        var base_bigger_block := Join(b, list_my_buddy);
        ok := FreeBuddy(base_bigger_block);
      } else {
        ReleasePuts(View(), b.pfn);
        PutBack(b);
        ok := true;
      }
    }

    /** calc_buddy_phys, as a frame number rather than a byte address. */
    function FrameOf(b: BuddyBlock): nat {
      pfn_offset + b.pfn
    }

    /** buddy_new_from_phys: the record of the block that starts at a frame. */
    method BuddyFromFrame(frame: nat) returns (b: BuddyBlock)
      requires Valid() && pfn_offset <= frame < pfn_offset + tot_pages
      ensures b in all_buddies && FrameOf(b) == frame
    {
      b := all_buddies[frame - pfn_offset];
    }
  }
}
