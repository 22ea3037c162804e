/** Threads, the three thread queues and the timer list in memory, refining module Sched. */
module SchedHeap {
  import opened Machine
  import opened Seqs
  import opened Rings
  import Sched
  import SchedTheorems

  /** The scheduling fields of a `Thread`, with its embedded list node. */
  class KThread {
    const pid: nat
    const head: ListNode
    var nice: nat
    var runtime: nat
    var last_activation: nat
    var timeslice: nat
    var state: Sched.TaskState

    constructor (pid: nat)
      ensures this.pid == pid && fresh(head) && head.id == pid && Ring(head, [])
      ensures nice == 0 && runtime == 0 && last_activation == 0 && timeslice == 0 && state == Sched.Runnable
    {
      this.pid := pid;
      head := new ListNode(pid);
      nice, runtime, last_activation, timeslice, state := 0, 0, 0, 0, Sched.Runnable;
    }

    ghost function View(): Sched.Thread
      reads this
    {
      Sched.Thread(nice, runtime, last_activation, timeslice, state)
    }
  }

  /** A `Timer`, with its embedded list node. */
  class KTimer {
    const expiration: nat
    const thread: nat
    const q: ListNode

    constructor (id: nat, expiration: nat, thread: nat)
      ensures this.expiration == expiration && this.thread == thread
      ensures fresh(q) && q.id == id && Ring(q, [])
    {
      this.expiration, this.thread := expiration, thread;
      q := new ListNode(id);
    }
  }

  datatype Name = Running | Sleeping | Stopped

  /** No thread is on two lists, or twice on one. */
  ghost predicate Once(lists: map<Name, seq<nat>>) {
    && (forall name: Name :: name in lists)
    && (forall name: Name :: Distinct(lists[name]))
    && forall t: nat, a: Name, b: Name :: t in lists[a] && t in lists[b] ==> a == b
  }

  ghost predicate Queued(lists: map<Name, seq<nat>>, t: nat)
    requires forall name: Name :: name in lists
  {
    exists name: Name :: t in lists[name]
  }

  /** Taking a thread off the list it is on. */
  lemma TakenOff(lists: map<Name, seq<nat>>, name: Name, k: nat)
    requires Once(lists) && k < |lists[name]|
    ensures var t, after := lists[name][k], lists[name := Without(lists[name], k)];
            && Once(after) && !Queued(after, t)
            && (forall n: Name :: after[n] == Remove(lists[n], t))
            && (forall u :: u != t ==> (Queued(after, u) <==> Queued(lists, u)))
  {
    var t, after := lists[name][k], lists[name := Without(lists[name], k)];
    WithoutIsGone(lists[name], k);
    RemoveFacts(lists[name], t);
    assert t in lists[name];
    forall n: Name | n != name ensures after[n] == Remove(lists[n], t) {
      RemoveAbsent(lists[n], t);
    }
    forall u | u != t ensures Queued(after, u) <==> Queued(lists, u) {
      forall n: Name | true ensures u in after[n] <==> u in lists[n] {
      }
    }
  }

  lemma NotOn(lists: map<Name, seq<nat>>, t: nat)
    requires Once(lists) && !Queued(lists, t)
    ensures forall n: Name :: lists[n] == Remove(lists[n], t)
  {
    forall n: Name | true ensures lists[n] == Remove(lists[n], t) {
      RemoveAbsent(lists[n], t);
    }
  }

  /** Putting a thread that is on no list on one. */
  lemma PutOn(lists: map<Name, seq<nat>>, name: Name, t: nat)
    requires Once(lists) && !Queued(lists, t)
    ensures Once(lists[name := [t] + lists[name]]) && Once(lists[name := lists[name] + [t]])
    ensures forall u :: u != t ==> (Queued(lists[name := [t] + lists[name]], u) <==> Queued(lists, u))
    ensures forall u :: u != t ==> (Queued(lists[name := lists[name] + [t]], u) <==> Queued(lists, u))
    ensures Queued(lists[name := [t] + lists[name]], t) && Queued(lists[name := lists[name] + [t]], t)
  {
    DistinctExtended(lists[name], t);
    var a, b := lists[name := [t] + lists[name]], lists[name := lists[name] + [t]];
    assert t in a[name] && t in b[name];
    forall u | u != t ensures (Queued(a, u) <==> Queued(lists, u)) && (Queued(b, u) <==> Queued(lists, u)) {
      forall n: Name | true ensures (u in a[n] <==> u in lists[n]) && (u in b[n] <==> u in lists[n]) {
      }
    }
  }

  /** The records are those of the threads, which are among `objects`. */
  ghost predicate RecordsShown(threads: map<nat, KThread>, records: map<nat, Sched.Thread>, objects: set<KThread>)
    reads objects
  {
    && threads.Keys == records.Keys
    && forall t :: t in threads ==> threads[t] in objects && threads[t].pid == t && threads[t].View() == records[t]
  }

  lemma RecordsMore(threads: map<nat, KThread>, records: map<nat, Sched.Thread>, objects: set<KThread>, t: KThread)
    requires RecordsShown(threads, records, objects) && t.pid !in threads
    ensures RecordsShown(threads[t.pid := t], records[t.pid := t.View()], objects + {t})
  {
  }

  /** The nodes of a ring are those of the threads of a list, in order. */
  ghost predicate Shown(xs: seq<nat>, ring: seq<ListNode>, threads: map<nat, KThread>) {
    |ring| == |xs| && forall i :: 0 <= i < |xs| ==> xs[i] in threads && ring[i] == threads[xs[i]].head
  }

  /** The nodes of a ring are those of the timers of a list, in order. */
  ghost predicate TimersShown(xs: seq<Sched.Timer>, ring: seq<ListNode>, timers: map<nat, KTimer>) {
    && |ring| == |xs|
    && forall i :: 0 <= i < |xs| ==>
         var x := xs[i];
         && x.id in timers && ring[i] == timers[x.id].q
         && timers[x.id].expiration == x.expiration && timers[x.id].thread == x.thread
  }

  lemma TimersWithout(xs: seq<Sched.Timer>, ring: seq<ListNode>, timers: map<nat, KTimer>, k: nat)
    requires TimersShown(xs, ring, timers) && k < |xs|
    requires forall j :: 0 <= j < |xs| && j != k ==> xs[j].id != xs[k].id
    ensures TimersShown(Without(xs, k), Without(ring, k), timers - {xs[k].id})
  {
  }

  lemma ShownWithout(xs: seq<nat>, ring: seq<ListNode>, threads: map<nat, KThread>, k: nat)
    requires Shown(xs, ring, threads) && k < |xs|
    ensures Shown(Without(xs, k), Without(ring, k), threads)
  {
  }

  lemma ShownMore(xs: seq<nat>, ring: seq<ListNode>, threads: map<nat, KThread>, t: nat)
    requires Shown(xs, ring, threads) && t in threads
    ensures Shown([t] + xs, [threads[t].head] + ring, threads) && Shown(xs + [t], ring + [threads[t].head], threads)
  {
  }

  class RunQueues {
    const running_queue: ListNode
    const sleep_queue: ListNode
    const stopped_queue: ListNode
    const kernel_timers: ListNode
    var threads: map<nat, KThread>
    var timers: map<nat, KTimer>
    var tick_count: nat
    var current_thread: nat
    ghost var records: map<nat, Sched.Thread>
    /** Thread numbers in list order. */
    ghost var lists: map<Name, seq<nat>>
    /** The timers in list order. */
    ghost var pending: seq<Sched.Timer>
    ghost var rings: RingTable
    ghost var nodes: set<ListNode>
    ghost var objects: set<KThread>

    constructor (r: ListNode, s: ListNode, p: ListNode, t: ListNode, ghost table: RingTable)
      ensures running_queue == r && sleep_queue == s && stopped_queue == p && kernel_timers == t
      ensures rings == table && nodes == {r, s, p, t} && objects == {}
      ensures threads == map[] && timers == map[] && tick_count == 0 && current_thread == 0
      ensures records == map[] && pending == [] && lists == map[Running := [], Sleeping := [], Stopped := []]
    {
      running_queue, sleep_queue, stopped_queue, kernel_timers := r, s, p, t;
      threads, timers, tick_count, current_thread := map[], map[], 0, 0;
      records, pending, lists := map[], [], map[Running := [], Sleeping := [], Stopped := []];
      rings, nodes, objects := table, {r, s, p, t}, {};
    }

    // -------------------------------------------------------------- invariant

    ghost function List(name: Name): ListNode {
      match name case Running => running_queue case Sleeping => sleep_queue case Stopped => stopped_queue
    }

    ghost predicate ListOk(name: Name)
      reads this`threads, this`lists, this`rings
    {
      name in lists && List(name) in rings && Shown(lists[name], rings[List(name)], threads)
    }

    ghost predicate TimersOk()
      reads this`timers, this`pending, this`rings
    {
      kernel_timers in rings && TimersShown(pending, rings[kernel_timers], timers)
    }

    ghost predicate ListsOk()
      reads this`threads, this`lists, this`rings, this`nodes, nodes
    {
      && running_queue != sleep_queue && running_queue != stopped_queue && sleep_queue != stopped_queue
      && kernel_timers !in {running_queue, sleep_queue, stopped_queue}
      && (forall name: Name :: name in lists)
      && rings.Keys == {running_queue, sleep_queue, stopped_queue, kernel_timers} && RingNodes(rings) <= nodes
      && AllRings(rings)
      && forall name: Name :: ListOk(name)
    }

    ghost predicate RingsOk()
      reads this`threads, this`timers, this`lists, this`pending, this`rings, this`nodes, nodes
    {
      ListsOk() && TimersOk()
    }

    /** Nodes name their owners; the node of a thread on no list is linked to itself. */
    ghost predicate NodesOk(but: set<nat>)
      requires forall name: Name :: name in lists
      reads this`threads, this`timers, this`lists, this`rings, this`nodes, nodes
    {
      && (forall t :: t in threads ==> threads[t].head in nodes && threads[t].head.id == t)
      && (forall x :: x in timers ==> timers[x].q in nodes && timers[x].q.id == x)
      && forall t :: t in threads && t !in but && !Queued(lists, t) ==> Alone(threads[t].head)
    }

    ghost predicate Alone(n: ListNode)
      requires n in nodes
      reads this`rings, this`nodes, nodes
    {
      n !in RingNodes(rings) && Ring(n, [])
    }

    ghost predicate RecordsOk()
      reads this`threads, this`records, this`objects, objects
    {
      RecordsShown(threads, records, objects)
    }

    ghost predicate Valid()
      reads this, nodes, objects
    {
      Linked() && RecordsOk()
    }

    /** Every queue and the timer list are well formed, and no thread is queued twice. */
    ghost predicate Linked()
      reads this`threads, this`timers, this`lists, this`pending, this`rings, this`nodes, nodes
    {
      RingsOk() && NodesOk({}) && Once(lists)
    }

    ghost function View(): Sched.State
      requires forall name: Name :: name in lists
      reads this
    {
      Sched.State(records, lists[Running], lists[Sleeping], lists[Stopped], pending, tick_count, current_thread)
    }

    // -------------------------------------------------------------- queue moves

    /** Where a thread is. */
    lemma Place(t: nat) returns (name: Name, k: nat)
      requires RingsOk() && NodesOk({}) && t in threads
      ensures Queued(lists, t) ==> k < |lists[name]| && lists[name][k] == t && List(name) in rings
                                   && k < |rings[List(name)]| && rings[List(name)][k] == threads[t].head
      ensures !Queued(lists, t) ==> threads[t].head !in RingNodes(rings) && Ring(threads[t].head, [])
    {
      hide AllRings, RingNodes, Ring;
      name, k := Running, 0;
      if Queued(lists, t) {
        name :| t in lists[name];
        k :| 0 <= k < |lists[name]| && lists[name][k] == t;
        assert ListOk(name);
      } else {
        assert Alone(threads[t].head);
      }
    }

    /** `list_remove(&p->head)` on the rings, for a node at a position of a list or alone. */
    method Unlink(node: ListNode, ghost linked: bool, ghost head: ListNode, ghost k: nat)
      requires AllRings(rings) && RingNodes(rings) <= nodes && node in nodes
      requires linked ==> head in rings && k < |rings[head]| && rings[head][k] == node
      requires !linked ==> Alone(node)
      modifies this`rings, nodes
      ensures AllRings(rings) && RingNodes(rings) <= nodes && node !in RingNodes(rings)
      ensures rings == if linked then old(rings)[head := Without(old(rings)[head], k)] else old(rings)
      ensures forall m: ListNode :: m in nodes && old(Alone(m)) ==> Alone(m)
    {
      hide AllRings, RingNodes, Ring;
      ListRemove(node, rings, linked, head, k);
      if linked {
        rings := rings[head := Without(rings[head], k)];
      }
    }

    /** `list_add_head` on the rings, for a node on no list. */
    method LinkHead(node: ListNode, head: ListNode)
      requires AllRings(rings) && RingNodes(rings) <= nodes && node in nodes && node !in RingNodes(rings)
      requires head in rings
      modifies this`rings, nodes
      ensures AllRings(rings) && RingNodes(rings) <= nodes
      ensures rings == old(rings)[head := [node] + old(rings)[head]]
      ensures forall m: ListNode :: m in nodes && m != node && old(Alone(m)) ==> Alone(m)
    {
      hide AllRings, RingNodes, Ring;
      ListAddHead(head, node, rings);
      rings := rings[head := [node] + rings[head]];
    }

    /** `list_add_tail` on the rings, likewise. */
    method LinkTail(node: ListNode, head: ListNode)
      requires AllRings(rings) && RingNodes(rings) <= nodes && node in nodes && node !in RingNodes(rings)
      requires head in rings
      modifies this`rings, nodes
      ensures AllRings(rings) && RingNodes(rings) <= nodes
      ensures rings == old(rings)[head := old(rings)[head] + [node]]
      ensures forall m: ListNode :: m in nodes && m != node && old(Alone(m)) ==> Alone(m)
    {
      hide AllRings, RingNodes, Ring;
      ListAddTail(head, node, rings);
      rings := rings[head := rings[head] + [node]];
    }

    /** `list_remove(&p->head)`. */
    method Detach(t: nat)
      requires RingsOk() && NodesOk({}) && Once(lists) && t in threads
      modifies this`lists, this`rings, nodes
      ensures RingsOk() && NodesOk({t}) && Once(lists) && !Queued(lists, t) && threads[t].head !in RingNodes(rings)
      ensures forall name: Name :: lists[name] == Remove(old(lists)[name], t)
    {
      hide AllRings, RingNodes, Ring, Once, Remove, Queued, Alone, Without, Shown;
      ghost var linked := Queued(lists, t);
      ghost var name, k := Place(t);
      if linked {
        assert ListOk(name);
        TakenOff(lists, name, k);
        ShownWithout(lists[name], rings[List(name)], threads, k);
      }
      Unlink(threads[t].head, linked, List(name), k);
      if linked {
        lists := lists[name := Without(lists[name], k)];
        forall other: Name | true ensures ListOk(other) {
          assert old(ListOk(other));
        }
      } else {
        NotOn(lists, t);
      }
      forall u | u in threads && u != t && !Queued(lists, u) ensures Alone(threads[u].head) {
        assert old(Alone(threads[u].head));
      }
    }

    /** `list_add_head(&queue, &p->head)`. */
    method PushHead(t: nat, head: ListNode, ghost name: Name)
      requires RingsOk() && NodesOk({t}) && Once(lists) && t in threads && !Queued(lists, t)
      requires threads[t].head !in RingNodes(rings) && head == List(name)
      modifies this`lists, this`rings, nodes
      ensures RingsOk() && NodesOk({}) && Once(lists) && lists == old(lists)[name := [t] + old(lists)[name]]
    {
      hide AllRings, RingNodes, Ring, Once, Queued, Alone, Shown;
      assert ListOk(name);
      PutOn(lists, name, t);
      ShownMore(lists[name], rings[head], threads, t);
      LinkHead(threads[t].head, head);
      lists := lists[name := [t] + lists[name]];
      forall other: Name | true ensures ListOk(other) {
        assert old(ListOk(other));
      }
      forall u | u in threads && u != t && !Queued(lists, u) ensures Alone(threads[u].head) {
        assert old(Alone(threads[u].head));
      }
    }

    /** `list_add_tail(&queue, &p->head)`. */
    method PushTail(t: nat, head: ListNode, ghost name: Name)
      requires RingsOk() && NodesOk({t}) && Once(lists) && t in threads && !Queued(lists, t)
      requires threads[t].head !in RingNodes(rings) && head == List(name)
      modifies this`lists, this`rings, nodes
      ensures RingsOk() && NodesOk({}) && Once(lists) && lists == old(lists)[name := old(lists)[name] + [t]]
    {
      hide AllRings, RingNodes, Ring, Once, Queued, Alone, Shown;
      assert ListOk(name);
      PutOn(lists, name, t);
      ShownMore(lists[name], rings[head], threads, t);
      LinkTail(threads[t].head, head);
      lists := lists[name := lists[name] + [t]];
      forall other: Name | true ensures ListOk(other) {
        assert old(ListOk(other));
      }
      forall u | u in threads && u != t && !Queued(lists, u) ensures Alone(threads[u].head) {
        assert old(Alone(threads[u].head));
      }
    }

    /** `p->state = st`. */
    method SetState(t: nat, st: Sched.TaskState)
      requires RecordsOk() && t in threads
      modifies this`records, objects
      ensures RecordsOk() && records == old(records)[t := old(records)[t].(state := st)]
    {
      threads[t].state := st;
      records := records[t := records[t].(state := st)];
    }

    lemma Known(p: nat)
      requires Valid()
      ensures (forall name: Name :: name in lists) && threads.Keys == records.Keys
    {
    }

    /** `list_remove(&p->head)` and `list_add_head(&queue, &p->head)`. */
    method MoveToHead(p: nat, head: ListNode, ghost name: Name)
      requires Linked() && p in threads && head == List(name)
      modifies this`lists, this`rings, nodes
      ensures Linked() && (forall other: Name :: other in lists) && (forall other: Name :: other in old(lists))
      ensures forall other: Name :: lists[other] == (if other == name then [p] else []) + Remove(old(lists)[other], p)
    {
      hide RingsOk, NodesOk, Once, Queued, Remove;
      NamesLinked();
      Detach(p);
      NamesInRings();
      PushHead(p, head, name);
      NamesLinked();
    }

    /** `list_remove(&p->head)` and `list_add_tail(&queue, &p->head)`. */
    method MoveToTail(p: nat, head: ListNode, ghost name: Name)
      requires Linked() && p in threads && head == List(name)
      modifies this`lists, this`rings, nodes
      ensures Linked() && (forall other: Name :: other in lists) && (forall other: Name :: other in old(lists))
      ensures forall other: Name :: lists[other] == Remove(old(lists)[other], p) + if other == name then [p] else []
    {
      hide RingsOk, NodesOk, Once, Queued, Remove;
      NamesLinked();
      Detach(p);
      NamesInRings();
      PushTail(p, head, name);
      NamesLinked();
    }

    lemma NamesInRings()
      requires RingsOk()
      ensures forall name: Name :: name in lists
    {
    }

    lemma NamesLinked()
      requires Linked()
      ensures forall name: Name :: name in lists
    {
    }

    /** sleep_thread. */
    method SleepThread(p: nat)
      requires Valid() && p in threads
      modifies this`lists, this`rings, this`records, nodes, objects
      ensures Valid() && View() == Sched.Sleep(old(View()), p)
    {
      hide Linked, RecordsOk, Remove, Sched.Sleep;
      Known(p);
      MoveShapes(View(), p);
      if p == Sched.IDLE {
        return;
      }
      SetState(p, Sched.Interruptible);
      MoveToHead(p, sleep_queue, Sleeping);
    }

    /** What the three moves leave of the queues and the record of the thread. */
    static lemma MoveShapes(s: Sched.State, p: nat)
      requires p in s.threads
      ensures p == Sched.IDLE ==> Sched.Sleep(s, p) == s && Sched.Stop(s, p) == s
      ensures var r, e, f := Remove(s.running, p), Remove(s.sleeping, p), Remove(s.stopped, p);
              && (p != Sched.IDLE ==>
                    && Sched.Sleep(s, p) ==
                         s.(threads := s.threads[p := s.threads[p].(state := Sched.Interruptible)],
                            running := [] + r, sleeping := [p] + e, stopped := [] + f)
                    && Sched.Stop(s, p) ==
                         s.(threads := s.threads[p := s.threads[p].(state := Sched.Stopped)],
                            running := [] + r, sleeping := [] + e, stopped := [p] + f))
              && Sched.Wake(s, p) ==
                   s.(threads := s.threads[p := s.threads[p].(state := Sched.Runnable)],
                      running := r + [p], sleeping := e + [], stopped := f + [])
    {
      hide Remove;
      var r, e, f := Remove(s.running, p), Remove(s.sleeping, p), Remove(s.stopped, p);
      assert [] + r == r && [] + e == e && [] + f == f && e + [] == e && f + [] == f;
    }

    /** stop_thread. */
    method StopThread(p: nat)
      requires Valid() && p in threads
      modifies this`lists, this`rings, this`records, nodes, objects
      ensures Valid() && View() == Sched.Stop(old(View()), p)
    {
      hide Linked, RecordsOk, Remove, Sched.Stop;
      Known(p);
      MoveShapes(View(), p);
      if p == Sched.IDLE {
        return;
      }
      SetState(p, Sched.Stopped);
      MoveToHead(p, stopped_queue, Stopped);
    }

    /** wake_up_thread. */
    method WakeUpThread(p: nat)
      requires Valid() && p in threads
      modifies this`lists, this`rings, this`records, nodes, objects
      ensures Valid() && View() == Sched.Wake(old(View()), p)
    {
      hide Linked, RecordsOk, Remove, Sched.Wake;
      Known(p);
      MoveShapes(View(), p);
      SetState(p, Sched.Runnable);
      MoveToTail(p, running_queue, Running);
    }

    // -------------------------------------------------------------- start

    /** The empty queues that init_kernel_proc sets up. */
    static method Init() returns (q: RunQueues)
      ensures fresh(q) && fresh(q.nodes) && q.Valid()
      ensures q.View() == Sched.State(map[], [], [], [], [], 0, 0)
    {
      hide AllRings, RingNodes, Ring, RunQueues.RingsOk, RunQueues.NodesOk, RunQueues.RecordsOk, Once;
      var r := new ListNode(0);
      var s := new ListNode(1);
      var p := new ListNode(2);
      var t := new ListNode(3);
      ghost var table := FourRings(r, s, p, t);
      q := new RunQueues(r, s, p, t, table);
      q.EmptyIsValid();
    }

    static lemma FourRings(r: ListNode, s: ListNode, p: ListNode, t: ListNode) returns (table: RingTable)
      requires r != s && r != p && r != t && s != p && s != t && p != t
      requires Ring(r, []) && Ring(s, []) && Ring(p, []) && Ring(t, [])
      ensures table == map[r := [], s := [], p := [], t := []] && AllRings(table) && RingNodes(table) == {r, s, p, t}
    {
      table := map[r := [], s := [], p := [], t := []];
    }

    lemma EmptyIsValid()
      requires running_queue != sleep_queue && running_queue != stopped_queue && sleep_queue != stopped_queue
      requires kernel_timers !in {running_queue, sleep_queue, stopped_queue}
      requires rings == map[running_queue := [], sleep_queue := [], stopped_queue := [], kernel_timers := []]
      requires AllRings(rings) && RingNodes(rings) <= nodes
      requires threads == map[] && timers == map[] && records == map[] && pending == []
      requires lists == map[Running := [], Sleeping := [], Stopped := []]
      ensures Valid()
    {
      hide AllRings, RingNodes;
      forall name: Name | true ensures name in lists && lists[name] == [] && ListOk(name) {
        match name case Running => case Sleeping => case Stopped =>
      }
    }

    lemma NotQueued(t: nat)
      requires RingsOk() && t !in threads
      ensures !Queued(lists, t)
    {
      forall name: Name | true ensures t !in lists[name] {
        assert ListOk(name);
      }
    }

    /** A new thread joins the table; it is on no queue. */
    method Enter(t: KThread)
      requires Linked() && t.pid !in threads && t.head !in nodes && t.head.id == t.pid && Ring(t.head, [])
      modifies this`threads, this`nodes
      ensures Linked() && threads == old(threads)[t.pid := t] && nodes == old(nodes) + {t.head}
    {
      hide AllRings, RingNodes, Ring, Queued, Once;
      NotQueued(t.pid);
      NewIsAlone(t.head, nodes);
      threads := threads[t.pid := t];
      nodes := nodes + {t.head};
      forall name: Name | true ensures ListOk(name) {
        assert old(ListOk(name));
      }
      forall u | u in threads && u != t.pid && !Queued(lists, u) ensures Alone(threads[u].head) {
        assert old(Alone(threads[u].head));
      }
    }

    /** create_kernel_thread and create_user_thread, as far as scheduling goes: a new thread, on no queue yet. */
    method AddThread(pid: nat, nice: nat)
      requires Valid() && pid !in threads
      modifies this`threads, this`records, this`nodes, this`objects
      ensures Valid() && fresh(nodes - old(nodes)) && fresh(objects - old(objects)) && pid in threads
      ensures View() == Sched.Create(old(View()), pid, nice)
    {
      hide Linked, Ring, RecordsShown;
      Known(pid);
      var t := new KThread(pid);
      t.nice := nice;
      RecordsMore(threads, records, objects, t);
      Enter(t);
      records := records[pid := Sched.Thread(nice, 0, 0, 0, Sched.Runnable)];
      objects := objects + {t};
    }

    lemma NewIsAlone(n: ListNode, before: set<ListNode>)
      requires RingNodes(rings) <= before && n !in before
      ensures n !in RingNodes(rings)
    {
    }

    // -------------------------------------------------------------- timers

    /** The first part of sleep_ms, for a timer at the new address `id`. */
    method SleepMs(id: nat, ms: nat)
      requires Valid() && current_thread in threads && id !in timers
      modifies this`lists, this`rings, this`records, this`timers, this`pending, this`nodes, nodes, objects
      ensures Valid() && fresh(nodes - old(nodes)) && View() == Sched.SleepMs(old(View()), id, ms)
    {
      hide Valid, Sched.Sleep, Sched.MillisToTicks;
      Known(current_thread);
      StartTimer(id, (Sched.MillisToTicks(ms) + tick_count) % U32);
      Known(current_thread);
      SleepThread(current_thread);
    }

    /** `list_add_head(&kernel_timers, &t->q)`, for a new node. */
    method LinkTimer(q: ListNode)
      requires ListsOk() && NodesOk({}) && q !in nodes
      modifies this`rings, this`nodes, nodes, q
      ensures ListsOk() && NodesOk({}) && nodes == old(nodes) + {q}
      ensures kernel_timers in old(rings) && rings == old(rings)[kernel_timers := [q] + old(rings)[kernel_timers]]
    {
      hide AllRings, RingNodes, Ring, Queued;
      NewIsAlone(q, nodes);
      ListAddHead(kernel_timers, q, rings);
      rings := rings[kernel_timers := [q] + rings[kernel_timers]];
      nodes := nodes + {q};
      forall name: Name | true ensures ListOk(name) {
        assert old(ListOk(name));
      }
      forall u | u in threads && !Queued(lists, u) ensures Alone(threads[u].head) {
        assert old(Alone(threads[u].head));
      }
    }

    /** A new timer at the front of the list. */
    method AddTimer(id: nat, t: KTimer)
      requires RingsOk() && NodesOk({}) && id !in timers && t.q !in nodes && t.q.id == id
      modifies this`rings, this`timers, this`pending, this`nodes, nodes, t.q
      ensures RingsOk() && NodesOk({}) && nodes == old(nodes) + {t.q}
      ensures pending == [Sched.Timer(id, t.expiration, t.thread)] + old(pending) && timers == old(timers)[id := t]
    {
      hide ListsOk, Queued, Alone;
      NamesKnown();
      LinkTimer(t.q);
      timers := timers[id := t];
      pending := [Sched.Timer(id, t.expiration, t.thread)] + pending;
    }

    /** A new timer of the current thread. */
    method StartTimer(id: nat, expiration: nat)
      requires Valid() && current_thread in threads && id !in timers && (forall name: Name :: name in lists)
      modifies this`rings, this`timers, this`pending, this`nodes, nodes
      ensures Valid() && fresh(nodes - old(nodes)) && (forall name: Name :: name in lists)
      ensures View() == old(View()).(timers := [Sched.Timer(id, expiration, current_thread)] + old(pending))
    {
      hide RingsOk, NodesOk, RecordsOk, Once;
      var t := new KTimer(id, expiration, current_thread);
      AddTimer(id, t);
    }

    lemma NamesKnown()
      requires ListsOk()
      ensures forall name: Name :: name in lists
    {
    }

    /** `list_remove(&activeT->q)` and `ffree(activeT)`, for the timer at position `k`. */
    method FreeTimer(id: nat, ghost k: nat)
      requires RingsOk() && NodesOk({}) && k < |pending| && pending[k].id == id
      modifies this`rings, this`timers, this`pending, nodes
      ensures RingsOk() && NodesOk({}) && pending == Without(old(pending), k) && timers == old(timers) - {id}
    {
      hide AllRings, RingNodes, Ring, Queued, Alone, Shown;
      TimerIds(k);
      TimersWithout(pending, rings[kernel_timers], timers, k);
      assert k < |rings[kernel_timers]| && id in timers && rings[kernel_timers][k] == timers[id].q;
      hide TimersShown, Without;
      Unlink(timers[id].q, true, kernel_timers, k);
      timers := timers - {id};
      pending := Without(pending, k);
      forall name: Name | true ensures ListOk(name) {
        assert old(ListOk(name));
      }
      forall u | u in threads && !Queued(lists, u) ensures Alone(threads[u].head) {
        assert old(Alone(threads[u].head));
      }
    }

    /** No two timers of the list share an address. */
    lemma TimerIds(k: nat)
      requires RingsOk() && k < |pending|
      ensures forall j :: 0 <= j < |pending| && j != k ==> pending[j].id != pending[k].id
    {
      hide AllRings;
      RingIn(rings, kernel_timers);
      forall j | 0 <= j < |pending| && j != k ensures pending[j].id != pending[k].id {
        assert rings[kernel_timers][j] != rings[kernel_timers][k];
      }
    }

    /** The node at position `k` of the timer list, or the head behind its end. */
    ghost function TimerAt(k: nat): ListNode
      requires forall i :: 0 <= i < |pending| ==> pending[i].id in timers
      reads this`timers, this`pending
    {
      if k < |pending| then timers[pending[k].id].q else kernel_timers
    }

    /** What `list_for_each_safe` reads along the timer list. */
    lemma TimerWalk(k: nat)
      requires Valid()
      ensures forall i :: 0 <= i < |pending| ==> pending[i].id in timers
      ensures kernel_timers.next == TimerAt(0)
      ensures TimerAt(k) != kernel_timers <==> k < |pending|
      ensures k < |pending| ==> TimerAt(k).next == TimerAt(k + 1) && TimerAt(k).id == pending[k].id
      ensures k < |pending| ==>
                && timers[pending[k].id].expiration == pending[k].expiration
                && timers[pending[k].id].thread == pending[k].thread
    {
      hide AllRings, Ring, RingNodes;
      RingIn(rings, kernel_timers);
      RingStep(kernel_timers, rings[kernel_timers], 0);
      if k < |pending| {
        RingStep(kernel_timers, rings[kernel_timers], k + 1);
      }
    }

    /** The body of wake_up_timers for the timer at position `k`, if it is due. */
    method Fire(id: nat, ghost k: nat)
      requires Valid() && k < |pending| && pending[k].id == id && id in timers && timers[id].thread == pending[k].thread
      requires timers[id].thread in threads
      modifies this`lists, this`rings, this`records, this`timers, this`pending, nodes, objects
      ensures Valid() && pending == Without(old(pending), k)
      ensures View() == Sched.Wake(old(View()), old(pending)[k].thread).(timers := pending)
      ensures timers == old(timers) - {id}
    {
      hide Valid, Without, Sched.Wake;
      Known(0);
      var thread := timers[id].thread;
      DropTimer(id, k);
      WakeTimers(old(View()), pending, thread);
      WakeUpThread(thread);
    }

    /** The timer at position `k` leaves the machine. */
    method DropTimer(id: nat, ghost k: nat)
      requires Valid() && (forall name: Name :: name in lists) && k < |pending| && pending[k].id == id
      modifies this`rings, this`timers, this`pending, nodes
      ensures Valid() && pending == Without(old(pending), k) && timers == old(timers) - {id}
      ensures View() == old(View()).(timers := pending)
    {
      hide RingsOk, NodesOk, RecordsOk, Once, Without;
      FreeTimer(id, k);
    }

    static lemma WakeTimers(s: Sched.State, x: seq<Sched.Timer>, t: nat)
      ensures Sched.Wake(s.(timers := x), t) == Sched.Wake(s, t).(timers := x)
    {
    }

    /** The loop does not look at the timers that the state still records. */
    static lemma {:induction false} LoopIgnoresTimers(s: Sched.State, x: seq<Sched.Timer>, left: seq<Sched.Timer>,
                                                      rest: seq<Sched.Timer>)
      ensures Sched.WakeLoop(s.(timers := x), left, rest) == Sched.WakeLoop(s, left, rest)
      decreases |rest|
    {
      hide Sched.Wake;
      if rest != [] {
        if s.tick >= rest[0].expiration {
          WakeTimers(s, x, rest[0].thread);
          WakeTick(s, rest[0].thread);
          LoopIgnoresTimers(Sched.Wake(s, rest[0].thread), x, left, rest[1..]);
        } else {
          LoopIgnoresTimers(s, x, left + [rest[0]], rest[1..]);
        }
      }
    }

    static lemma WakeTick(s: Sched.State, t: nat)
      ensures Sched.Wake(s, t).tick == s.tick && Sched.Wake(s, t).threads.Keys == s.threads.Keys
    {
    }

    /** One turn of the loop over a list of timers, at position `k`. */
    static lemma LoopTurn(s: Sched.State, xs: seq<Sched.Timer>, k: nat)
      requires k < |xs|
      ensures xs[k..] != [] && Sched.Expired(xs[k..], s.tick) ==
                (if s.tick >= xs[k].expiration then [xs[k]] else []) + Sched.Expired(xs[k + 1..], s.tick)
      ensures s.tick >= xs[k].expiration ==>
                var ys := Without(xs, k);
                && ys[k..] == xs[k + 1..]
                && Sched.WakeLoop(s, xs[..k], xs[k..]) ==
                     Sched.WakeLoop(Sched.Wake(s, xs[k].thread).(timers := ys), ys[..k], ys[k..])
      ensures s.tick < xs[k].expiration ==>
                Sched.WakeLoop(s, xs[..k], xs[k..]) == Sched.WakeLoop(s, xs[..k + 1], xs[k + 1..])
    {
      hide Sched.Wake;
      var rest := xs[k..];
      assert rest[0] == xs[k] && rest[1..] == xs[k + 1..];
      if s.tick >= xs[k].expiration {
        var ys := Without(xs, k);
        assert ys[..k] == xs[..k] && ys[k..] == xs[k + 1..];
        LoopIgnoresTimers(Sched.Wake(s, xs[k].thread), ys, xs[..k], xs[k + 1..]);
      } else {
        assert xs[..k] + [xs[k]] == xs[..k + 1];
      }
    }

    ghost predicate TimersKnown()
      reads this`threads, this`timers, this`pending
    {
      forall i :: 0 <= i < |pending| ==> pending[i].thread in threads && pending[i].id in timers
    }

    /** The loop of wake_up_timers stands at position `k`: `freed` are the timers given back so far,
        `goal` and `due` what will have become of the state and the timers. */
    ghost predicate AtTimer(tlist: ListNode, k: nat, goal: Sched.State, freed: seq<Sched.Timer>, due: seq<Sched.Timer>)
      reads this, nodes, objects
    {
      && Valid() && TimersKnown() && (forall name: Name :: name in lists) && k <= |pending| && tlist == TimerAt(k)
      && goal == Sched.WakeLoop(View(), pending[..k], pending[k..])
      && freed + Sched.Expired(pending[k..], tick_count) == due
    }

    lemma LoopBegins()
      requires Valid() && forall i :: 0 <= i < |pending| ==> pending[i].thread in threads
      ensures forall name: Name :: name in lists
      ensures AtTimer(kernel_timers.next, 0, Sched.WakeUpTimers(View()), [], Sched.Expired(pending, tick_count))
    {
      hide Valid, Sched.Wake, Sched.WakeLoop, Sched.Expired, Sched.WakeUpTimers;
      Known(0);
      TimerWalk(0);
      LoopStart(View());
      Assoc([], [], Sched.Expired(pending, tick_count));
    }

    lemma LoopGoesOn(tlist: ListNode, k: nat, goal: Sched.State, freed: seq<Sched.Timer>, due: seq<Sched.Timer>)
      requires AtTimer(tlist, k, goal, freed, due)
      ensures tlist != kernel_timers <==> k < |pending|
      ensures Valid() && (forall name: Name :: name in lists)
      ensures tlist == kernel_timers ==> View() == goal && freed == due
    {
      hide Valid, Sched.Wake, Sched.WakeLoop, Sched.Expired;
      TimerWalk(k);
      if tlist == kernel_timers {
        LoopEnd(View(), pending, k);
      }
    }

    /** One turn of the loop at list position `k`; the walk goes on at position `next`. */
    method TimerTurn(tlist: ListNode, ghost k: nat, ghost goal: Sched.State,
                     ghost before: seq<Sched.Timer>, ghost due: seq<Sched.Timer>)
      returns (temp: ListNode, ghost next: nat, ghost freed: seq<Sched.Timer>)
      requires AtTimer(tlist, k, goal, before, due) && k < |pending|
      modifies this`lists, this`rings, this`records, this`timers, this`pending, nodes, objects
      ensures AtTimer(temp, next, goal, freed, due) && |pending| - next == |old(pending)| - k - 1
    {
      hide Valid, Sched.Wake, Sched.WakeLoop, Sched.Expired, Without;
      TimerWalk(k);
      LoopTurn(View(), pending, k);
      temp := tlist.next;
      var id := tlist.id;
      ghost var xs := pending;
      if tick_count >= timers[id].expiration {
        freed, next := before + [pending[k]], k;
        Assoc(before, [pending[k]], Sched.Expired(pending[k + 1..], tick_count));
        Remaining(pending, k);
        Fire(id, k);
        Known(0);
        TimerWalk(k);
        StillKnown(xs, k);
      } else {
        freed, next := before, k + 1;
        Assoc([], [], Sched.Expired(pending[k + 1..], tick_count));
      }
    }

    /** The timers that stay are known and their threads still exist. */
    lemma StillKnown(xs: seq<Sched.Timer>, k: nat)
      requires k < |xs| && pending == Without(xs, k) && (forall i :: 0 <= i < |pending| ==> pending[i].id in timers)
      requires forall i :: 0 <= i < |xs| ==> xs[i].thread in threads
      ensures TimersKnown()
    {
      Remaining(xs, k);
    }

    /** wake_up_timers; `freed` lists the timers given back, each once. */
    method WakeUpTimers() returns (ghost freed: seq<Sched.Timer>)
      requires Valid() && forall i :: 0 <= i < |pending| ==> pending[i].thread in threads
      modifies this`lists, this`rings, this`records, this`timers, this`pending, nodes, objects
      ensures Valid() && View() == Sched.WakeUpTimers(old(View()))
      ensures freed == Sched.Expired(old(pending), tick_count)
    {
      hide Valid, AtTimer, Sched.Expired, Sched.WakeUpTimers;
      Known(0);
      ghost var k: nat := 0;
      ghost var goal, due := Sched.WakeUpTimers(View()), Sched.Expired(pending, tick_count);
      freed := [];
      LoopBegins();
      var tlist := kernel_timers.next;
      while tlist != kernel_timers
        invariant AtTimer(tlist, k, goal, freed, due)
        decreases |pending| - k
      {
        LoopGoesOn(tlist, k, goal, freed, due);
        tlist, k, freed := TimerTurn(tlist, k, goal, freed, due);
      }
      LoopGoesOn(tlist, k, goal, freed, due);
    }

    static lemma LoopStart(s: Sched.State)
      ensures s.timers[0..] == s.timers
      ensures Sched.WakeUpTimers(s) == Sched.WakeLoop(s, s.timers[..0], s.timers[0..])
    {
      assert s.timers[..0] == [];
    }

    static lemma Remaining(xs: seq<Sched.Timer>, k: nat)
      requires k < |xs|
      ensures |Without(xs, k)| == |xs| - 1 && Without(xs, k)[k..] == xs[k + 1..]
      ensures forall i :: 0 <= i < |xs| - 1 ==> Without(xs, k)[i] == if i < k then xs[i] else xs[i + 1]
    {
    }

    static lemma LoopEnd(s: Sched.State, xs: seq<Sched.Timer>, k: nat)
      requires k == |xs| && s.timers == xs
      ensures Sched.WakeLoop(s, xs[..k], xs[k..]) == s && Sched.Expired(xs[k..], s.tick) == []
    {
      assert xs[k..] == [] && xs[..k] == xs;
    }

    // -------------------------------------------------------------- the scheduler

    /** The node at position `k` of the running queue, or the head behind its end. */
    ghost function RunningAt(k: nat): ListNode
      requires Running in lists && forall t :: t in lists[Running] ==> t in threads
      reads this`threads, this`lists
    {
      if k < |lists[Running]| then threads[lists[Running][k]].head else running_queue
    }

    /** What `list_for_each` reads along the running queue. */
    lemma RunningWalk(k: nat)
      requires RingsOk() && NodesOk({}) && RecordsOk()
      ensures Running in lists && forall t :: t in lists[Running] ==> t in threads
      ensures running_queue.next == RunningAt(0)
      ensures RunningAt(k) != running_queue <==> k < |lists[Running]|
      ensures k < |lists[Running]| ==>
                var t := lists[Running][k];
                && RunningAt(k).next == RunningAt(k + 1) && RunningAt(k).id == t
                && t in records && threads[t].runtime == records[t].runtime && threads[t].nice == records[t].nice
    {
      hide AllRings, Ring, RingNodes;
      assert ListOk(Running);
      RingIn(rings, running_queue);
      RingStep(running_queue, rings[running_queue], 0);
      if k < |lists[Running]| {
        RingStep(running_queue, rings[running_queue], k + 1);
        assert lists[Running][k] in threads;
        assert threads[lists[Running][k]].View() == records[lists[Running][k]];
      }
    }

    /** The loop of pick_next_thread: the first thread of least runtime, how many threads there
        are, and the sum of their nicenesses. */
    method Scan() returns (next: nat, proc_num: nat, pTot: nat)
      requires Valid() && (forall name: Name :: name in lists) && lists[Running] != []
      ensures next == Sched.Next(View()) && next in threads && next in lists[Running] && proc_num == |lists[Running]|
      ensures pTot == Sched.NiceSum(View(), lists[Running], |lists[Running]|)
    {
      hide RingsOk, NodesOk, RecordsOk, Once, Sched.FirstMin, Sched.NiceSum;
      RunningWalk(0);
      ScanStep(View(), lists[Running], 0);
      ghost var s, xs := View(), lists[Running];
      var l := running_queue.next;
      var min_runtime := 0;
      next, proc_num, pTot := 0, 0, 0;
      while l != running_queue
        invariant proc_num <= |xs| && l == RunningAt(proc_num)
        invariant proc_num > 0 ==>
                    next == xs[Sched.FirstMin(s, xs, proc_num)] && min_runtime == Sched.RuntimeOf(s, next)
        invariant pTot == Sched.NiceSum(s, xs, proc_num)
        decreases |xs| - proc_num
      {
        RunningWalk(proc_num);
        ScanStep(s, xs, proc_num);
        var p := threads[l.id];
        if proc_num == 0 {
          min_runtime := p.runtime;
          next := l.id;
        } else if p.runtime < min_runtime {
          min_runtime := p.runtime;
          next := l.id;
        }
        pTot := pTot + p.nice;
        proc_num := proc_num + 1;
        l := l.next;
      }
      RunningWalk(proc_num);
    }

    /** One thread more for the scan. */
    static lemma ScanStep(s: Sched.State, xs: seq<nat>, n: nat)
      requires n < |xs|
      ensures Sched.NiceSum(s, xs, 0) == 0
      ensures Sched.NiceSum(s, xs, n + 1) == Sched.NiceSum(s, xs, n) + Sched.NiceOf(s, xs[n])
      ensures n == 0 ==> Sched.FirstMin(s, xs, 1) == 0
      ensures n > 0 ==>
                var k := Sched.FirstMin(s, xs, n);
                Sched.FirstMin(s, xs, n + 1) == if Sched.RuntimeOf(s, xs[n]) < Sched.RuntimeOf(s, xs[k]) then n else k
    {
    }

    /** pick_next_thread. */
    method PickNextThread() returns (next: nat)
      requires Valid() && (forall name: Name :: name in lists) && lists[Running] != []
      modifies this`records, objects
      ensures Valid() && next == Sched.Next(old(View())) && View() == Sched.Pick(old(View()))
      ensures next in threads && next in lists[Running]
    {
      hide Linked, Sched.FirstMin, Sched.NiceSum, Sched.MillisToTicks;
      var proc_num, pTot;
      next, proc_num, pTot := Scan();
      var pAvg := pTot / proc_num;
      var q := Sched.MAX_QUANTUM_MS / proc_num;
      var penalty := (pAvg - threads[next].nice) * Sched.P_PENALTY;
      q := q + penalty;
      var ticks: nat;
      if q <= 0 {
        ticks := Sched.MillisToTicks(Sched.MIN_QUANTUM_MS);
      } else {
        ticks := Sched.MillisToTicks(q);
      }
      SetTimes(next, threads[next].runtime, threads[next].last_activation, ticks);
    }

    /** Assign the times of a thread. */
    method SetTimes(t: nat, runtime: nat, last_activation: nat, timeslice: nat)
      requires RecordsOk() && t in threads
      modifies this`records, objects
      ensures RecordsOk() && t in old(records)
      ensures records == old(records)[t := old(records)[t].(runtime := runtime, activated := last_activation,
                                                            timeslice := timeslice)]
    {
      assert threads[t].View() == records[t];
      var p := threads[t];
      p.runtime, p.last_activation, p.timeslice := runtime, last_activation, timeslice;
      records := records[t := records[t].(runtime := runtime, activated := last_activation, timeslice := timeslice)];
    }

    lemma TimesKnown(t: nat)
      requires RecordsOk()
      ensures t in threads <==> t in records
      ensures t in threads ==>
                && threads[t].runtime == records[t].runtime && threads[t].last_activation == records[t].activated
                && threads[t].timeslice == records[t].timeslice && threads[t].nice == records[t].nice
    {
      if t in threads {
        assert threads[t].View() == records[t];
      }
    }

    /** `p->runtime += now - p->last_activation`, in 64 bits. */
    method Charge(t: nat, now: nat)
      requires RecordsOk() && t in threads && threads[t].last_activation < U64
      modifies this`records, objects
      ensures RecordsOk() && t in old(records) && old(records)[t].activated < U64
      ensures records == old(records)[t := old(records)[t].(runtime := Sched.Charged(old(records)[t], now))]
    {
      TimesKnown(t);
      var p := threads[t];
      SetTimes(t, (p.runtime + (now + U64 - p.last_activation) % U64) % U64, p.last_activation, p.timeslice);
    }

    /** The part of scheduler_handler behind `no_resched`. */
    method KeepRunning(now: nat)
      requires Valid() && (forall name: Name :: name in lists)
      requires current_thread in threads && threads[current_thread].last_activation < U64
      modifies this`records, objects
      ensures Valid() && old(View()).current in old(View()).threads
      ensures old(View()).threads[old(View()).current].activated < U64
      ensures View() == Sched.KeepRunning(old(View()), now)
    {
      hide Linked, RecordsOk, Sched.Charged;
      TimesKnown(current_thread);
      var c := current_thread;
      if c != Sched.IDLE {
        Charge(c, now);
      }
      TimesKnown(c);
      var slice := threads[c].timeslice;
      SetTimes(c, threads[c].runtime, now, if slice > 0 then slice - 1 else slice);
    }

    /** The switch of scheduler_handler to a thread just picked. */
    method SwitchTo(next: nat, now: nat)
      requires Valid() && (forall name: Name :: name in lists) && next in threads && next != current_thread
      requires current_thread in threads && threads[current_thread].last_activation < U64
      modifies this`records, this`current_thread, objects
      ensures Valid() && next in old(View()).threads && old(View()).current in old(View()).threads
      ensures old(View()).threads[old(View()).current].activated < U64
      ensures View() == Sched.SwitchTo(old(View()), next, now)
    {
      hide Linked, RecordsOk, Sched.Charged;
      TimesKnown(current_thread);
      TimesKnown(next);
      var slice := threads[next].timeslice;
      SetTimes(next, threads[next].runtime, now, if slice > 0 then slice - 1 else slice);
      TimesKnown(current_thread);
      if current_thread != Sched.IDLE {
        Charge(current_thread, now);
      }
      current_thread := next;
    }

    /** scheduler_handler behind its wake-ups. */
    method Dispatch(now: nat)
      requires Valid() && (forall name: Name :: name in lists) && Sched.CanSchedule(View())
      requires var p := Sched.Pick(View()); p.current in p.threads && p.threads[p.current].activated < U64
      modifies this`records, this`current_thread, objects
      ensures Valid() && (forall name: Name :: name in lists) && Sched.CanSchedule(old(View()))
      ensures var u, p := old(View()), Sched.Pick(old(View()));
              && Sched.Next(u) in p.threads && p.current in p.threads && p.threads[p.current].activated < U64
              && View() == if u.threads[u.current].timeslice > 0 then Sched.KeepRunning(u, now)
                           else if Sched.Next(u) == u.current then Sched.KeepRunning(p, now)
                               else Sched.SwitchTo(p, Sched.Next(u), now)
    {
      hide Linked, RecordsOk, Sched.KeepRunning, Sched.SwitchTo, Sched.Pick, Sched.Next;
      NextPicked(View());
      RunningWalkOk();
      TimesKnown(current_thread);
      if threads[current_thread].timeslice > 0 {
        KeepRunning(now);
        return;
      }
      var next_thread := PickNextThread();
      TimesKnown(current_thread);
      if current_thread == next_thread {
        KeepRunning(now);
      } else {
        SwitchTo(next_thread, now);
      }
    }

    lemma RunningWalkOk()
      requires Valid() && (forall name: Name :: name in lists)
      ensures threads.Keys == records.Keys && forall t :: t in lists[Running] ==> t in records
    {
      RunningWalk(0);
    }

    static lemma NextPicked(s: Sched.State)
      requires s.running != []
      ensures Sched.Next(s) in s.running && Sched.Pick(s).current == s.current
      ensures Sched.Pick(s).threads.Keys == s.threads.Keys
    {
    }

    /** scheduler_handler, without pending signals; `now` is the time stamp counter. */
    method SchedulerHandler(now: nat)
      requires Valid() && (forall name: Name :: name in lists) && SchedTheorems.RunInv(View()) && now < U64
      modifies this, nodes, objects
      ensures Valid() && (forall name: Name :: name in lists) && Sched.CanSchedule(old(View()))
      ensures View() == Sched.Handler(old(View()), now) && SchedTheorems.RunInv(View())
    {
      hide Linked, RecordsOk, SchedTheorems.RunInv, Sched.WakeUpTimers, Sched.Handler, Sched.KeepRunning,
           Sched.SwitchTo, Sched.Pick,
           Sched.Next;
      HandlerShape(View(), now);
      TimersOwned(View());
      Known(0);
      tick_count := tick_count + 1;
      ghost var freed := WakeUpTimers();
      Known(0);
      Dispatch(now);
    }

    static lemma TimersOwned(s: Sched.State)
      requires SchedTheorems.RunInv(s)
      ensures forall i :: 0 <= i < |s.timers| ==> s.timers[i].thread in s.threads
    {
    }

    /** The paths through scheduler_handler. */
    static lemma HandlerShape(s: Sched.State, now: nat)
      requires SchedTheorems.RunInv(s) && now < U64
      ensures Sched.CanSchedule(s) && SchedTheorems.RunInv(Sched.Handler(s, now))
      ensures var u := Sched.WakeUpTimers(s.(tick := s.tick + 1));
              && Sched.CanSchedule(u)
              && var p := Sched.Pick(u);
              && Sched.Next(u) in p.threads && p.current == u.current && p.current in p.threads
                 && p.threads[p.current].activated < U64
              && Sched.Handler(s, now) == if u.threads[u.current].timeslice > 0 then Sched.KeepRunning(u, now)
                                          else if Sched.Next(u) == u.current then Sched.KeepRunning(p, now)
                                              else Sched.SwitchTo(p, Sched.Next(u), now)
    {
      hide Sched.WakeUpTimers, Sched.KeepRunning, Sched.SwitchTo;
      SchedTheorems.WakeUpRunInv(s);
      var u := Sched.WakeUpTimers(s.(tick := s.tick + 1));
      SchedTheorems.PickEffect(u);
      SchedTheorems.HandlerSame(s, now);
      SchedTheorems.SwitchRunInv(u, Sched.Handler(s, now));
    }

    /** What reschedule does to the thread it leaves, which is not idle. */
    method LeaveCurrent(now: nat)
      requires RecordsOk() && current_thread in threads && threads[current_thread].last_activation < U64
      modifies this`records, objects
      ensures RecordsOk() && current_thread in old(records) && old(records)[current_thread].activated < U64
      ensures var c := old(records)[current_thread];
              records == old(records)[current_thread :=
                c.(runtime := Sched.Charged(c, now), timeslice := (c.timeslice + U32 - 1) % U32)]
    {
      hide RecordsOk, Sched.Charged;
      TimesKnown(current_thread);
      Charge(current_thread, now);
      TimesKnown(current_thread);
      var c := threads[current_thread];
      SetTimes(current_thread, c.runtime, c.last_activation, (c.timeslice + U32 - 1) % U32);
    }

    static lemma HandOverShape(s: Sched.State, next: nat, now: nat)
      requires next in s.threads && s.current in s.threads && s.threads[s.current].activated < U64 && now < U64
      ensures var ts := s.threads[next := s.threads[next].(activated := now)];
              var c := ts[s.current];
              && c.activated < U64
              && Sched.HandOver(s, next, now) ==
                   s.(threads := if s.current == Sched.IDLE then ts
                                 else ts[s.current := c.(runtime := Sched.Charged(c, now),
                                                         timeslice := (c.timeslice + U32 - 1) % U32)],
                      current := next)
    {
      hide Sched.Charged;
    }

    /** reschedule behind its pick. */
    method HandOver(next: nat, now: nat)
      requires Valid() && (forall name: Name :: name in lists) && next in threads && now < U64
      requires current_thread in threads && threads[current_thread].last_activation < U64
      modifies this`records, this`current_thread, objects
      ensures Valid() && (forall name: Name :: name in lists)
      ensures next in old(View()).threads && old(View()).current in old(View()).threads
      ensures old(View()).threads[old(View()).current].activated < U64
      ensures View() == Sched.HandOver(old(View()), next, now)
    {
      hide Linked, RecordsOk, Sched.Charged, Sched.HandOver;
      TimesKnown(next);
      TimesKnown(current_thread);
      HandOverShape(View(), next, now);
      SetTimes(next, threads[next].runtime, now, threads[next].timeslice);
      TimesKnown(current_thread);
      if current_thread != Sched.IDLE {
        LeaveCurrent(now);
      }
      current_thread := next;
    }

    /** reschedule, without pending signals. */
    method Reschedule(now: nat)
      requires Valid() && (forall name: Name :: name in lists) && SchedTheorems.RunInv(View()) && now < U64
      modifies this`records, this`current_thread, objects
      ensures Valid() && (forall name: Name :: name in lists) && Sched.CanSchedule(old(View()))
      ensures View() == Sched.Reschedule(old(View()), now) && SchedTheorems.RunInv(View())
    {
      hide Linked, RecordsOk, SchedTheorems.RunInv, Sched.Pick, Sched.Next, Sched.HandOver;
      RescheduleShape(View(), now);
      Known(0);
      var next := PickNextThread();
      TimesKnown(current_thread);
      HandOver(next, now);
    }

    static lemma RescheduleShape(s: Sched.State, now: nat)
      requires SchedTheorems.RunInv(s) && now < U64
      ensures Sched.CanSchedule(s) && SchedTheorems.RunInv(Sched.Reschedule(s, now))
      ensures var p := Sched.Pick(s);
              Sched.Next(s) in p.threads && p.current == s.current && p.current in p.threads
                  && p.threads[p.current].activated < U64
    {
      SchedTheorems.PickEffect(s);
      SchedTheorems.RescheduleSame(s, now);
      SchedTheorems.SwitchRunInv(s, Sched.Reschedule(s, now));
    }
  }
}
