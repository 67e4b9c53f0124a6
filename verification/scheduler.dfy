/**
 * Topological scheduler: Kahn's algorithm over dependency nodes, splitting them into an order
 * that is safe to evaluate and a residual set of nodes that could not be ordered.
 */
module Scheduler {
  import opened Values

  /** One cell or variable and the identities of the nodes whose values it reads. */
  datatype Node = Node(id: string, deps: set<string>)

  /** The scheduler's result: `topologicallySortedNodes` and `recursiveNodes`. */
  datatype Schedule = Schedule(sorted: seq<Node>, residual: seq<Node>)

  ghost predicate UniqueIds(nodes: seq<Node>) {
    forall i, j :: 0 <= i < |nodes| && 0 <= j < |nodes| && nodes[i].id == nodes[j].id ==> i == j
  }

  function IdSet(nodes: seq<Node>): set<string> {
    set n | n in nodes :: n.id
  }

  /** The identities of `nodes`, as a set. */
  function SetOf(ids: seq<string>): set<string> {
    set id | id in ids
  }

  /** Nodes that carry `ids`, position by position, carry exactly the identities listed in `ids`. */
  lemma IdSetOfIds(nodes: seq<Node>, ids: seq<string>)
    requires |nodes| == |ids| && forall k :: 0 <= k < |nodes| ==> nodes[k].id == ids[k]
    ensures IdSet(nodes) == SetOf(ids)
  {
    forall id | id in IdSet(nodes) ensures id in ids {
      var n :| n in nodes && n.id == id;
      var k :| 0 <= k < |nodes| && nodes[k] == n;
    }
    forall id | id in ids ensures id in IdSet(nodes) {
      var k :| 0 <= k < |ids| && ids[k] == id;
      assert nodes[k] in nodes;
    }
  }

  // ---------------------------------------------------------------------------------------------
  // The indexes the algorithm builds.

  /** `unmodifiedIndexedDependencies`: identity -> node; a later node replaces an earlier one. */
  function IndexById(nodes: seq<Node>): (index: map<string, Node>)
    ensures index.Keys == IdSet(nodes)
    ensures forall id :: id in index ==> index[id] in nodes && index[id].id == id
    ensures UniqueIds(nodes) ==> forall i :: 0 <= i < |nodes| ==> index[nodes[i].id] == nodes[i]
  {
    if |nodes| == 0 then map[]
    else
      var init := nodes[..|nodes| - 1];
      var last := nodes[|nodes| - 1];
      assert nodes == init + [last];
      assert UniqueIds(nodes) ==> UniqueIds(init);
      IndexById(init)[last.id := last]
  }

  /** `indexedDependencies`: a private working copy of every node's dependency set. */
  function WorkingCopies(index: map<string, Node>): (working: map<string, set<string>>)
    ensures working.Keys == index.Keys
    ensures forall id :: id in index ==> working[id] == index[id].deps
  {
    map id | id in index :: index[id].deps
  }

  /** The identities of the nodes that read `x`, in node order: a reference definition. */
  function DependentsOf(nodes: seq<Node>, x: string): seq<string> {
    if |nodes| == 0 then []
    else (if x in nodes[0].deps then [nodes[0].id] else []) + DependentsOf(nodes[1..], x)
  }

  lemma {:induction false} DependentsOfSnoc(nodes: seq<Node>, n: Node, x: string)
    ensures DependentsOf(nodes + [n], x) == DependentsOf(nodes, x) + (if x in n.deps then [n.id] else [])
    decreases |nodes|
  {
    if |nodes| > 0 {
      assert (nodes + [n])[1..] == nodes[1..] + [n];
      DependentsOfSnoc(nodes[1..], n, x);
    } else {
      assert nodes + [n] == [n];
    }
  }

  lemma {:induction false} DependentsOfMembers(nodes: seq<Node>, x: string)
    ensures forall y :: y in DependentsOf(nodes, x) <==> exists n :: n in nodes && n.id == y && x in n.deps
    ensures UniqueIds(nodes) ==> NoDup(DependentsOf(nodes, x))
    decreases |nodes|
  {
    if |nodes| > 0 {
      var head := if x in nodes[0].deps then [nodes[0].id] else [];
      var rest := DependentsOf(nodes[1..], x);
      DependentsOfMembers(nodes[1..], x);
      assert forall n :: n in nodes <==> n == nodes[0] || n in nodes[1..];
      if UniqueIds(nodes) {
        assert UniqueIds(nodes[1..]);
        TailIdsDiffer(nodes);
        NoDupAppend(head, rest);
      }
    }
  }

  /** With distinct identities, no later node shares the first node's identity. */
  lemma TailIdsDiffer(nodes: seq<Node>)
    requires UniqueIds(nodes) && |nodes| > 0
    ensures forall n :: n in nodes[1..] ==> n.id != nodes[0].id
  {
    forall n | n in nodes[1..] ensures n.id != nodes[0].id {
      var k :| 0 <= k < |nodes[1..]| && nodes[1..][k] == n;
      assert nodes[k + 1] == n;
    }
  }

  /** Some node reads `x`. */
  ghost predicate Reads(nodes: seq<Node>, x: string) {
    exists n :: n in nodes && x in n.deps
  }

  /** One more node adds itself to the dependents of what it reads, and nothing else. */
  lemma ReverseSnoc(init: seq<Node>, last: Node)
    ensures forall x :: DependentsOf(init + [last], x) == DependentsOf(init, x) + (if x in last.deps then [last.id] else [])
    ensures forall x :: Reads(init + [last], x) <==> Reads(init, x) || x in last.deps
  {
    forall x ensures DependentsOf(init + [last], x) == DependentsOf(init, x) + (if x in last.deps then [last.id] else []) {
      DependentsOfSnoc(init, last, x);
    }
    assert forall n :: n in init + [last] <==> n in init || n == last;
  }

  /**
   * `_buildReverseDependencyMappings`: for every identity that some node reads, the identities
   * of the nodes that read it, in node order.
   */
  function BuildReverse(nodes: seq<Node>): (rev: map<string, seq<string>>)
    ensures forall x :: x in rev <==> Reads(nodes, x)
    ensures forall x :: x in rev ==> rev[x] == DependentsOf(nodes, x)
    ensures forall x :: x !in rev ==> DependentsOf(nodes, x) == []
  {
    if |nodes| == 0 then map[]
    else
      var init := nodes[..|nodes| - 1];
      var last := nodes[|nodes| - 1];
      var rev := BuildReverse(init);
      var r := map x | x in rev.Keys + last.deps :: (if x in rev then rev[x] else []) + (if x in last.deps then [last.id] else []);
      ReverseStep(nodes, init, last, rev, r);
      r
  }

  /** Adding the readers of `last` to the reverse mapping of `init` gives that of `init + [last]`. */
  lemma ReverseStep(nodes: seq<Node>, init: seq<Node>, last: Node, rev: map<string, seq<string>>, r: map<string, seq<string>>)
    requires |nodes| > 0 && init == nodes[..|nodes| - 1] && last == nodes[|nodes| - 1]
    requires forall x :: x in rev <==> Reads(init, x)
    requires forall x :: x in rev ==> rev[x] == DependentsOf(init, x)
    requires forall x :: x !in rev ==> DependentsOf(init, x) == []
    requires r == map x | x in rev.Keys + last.deps :: (if x in rev then rev[x] else []) + (if x in last.deps then [last.id] else [])
    ensures forall x :: x in r <==> Reads(nodes, x)
    ensures forall x :: x in r ==> r[x] == DependentsOf(nodes, x)
    ensures forall x :: x !in r ==> DependentsOf(nodes, x) == []
  {
    assert nodes == init + [last];
    ReverseSnoc(init, last);
  }

  /** The identities of the nodes without dependencies, in node order: the first queue. */
  function InitiallyReady(nodes: seq<Node>): seq<string> {
    if |nodes| == 0 then []
    else (if nodes[0].deps == {} then [nodes[0].id] else []) + InitiallyReady(nodes[1..])
  }

  /** The nodes without dependencies, in node order. */
  function ReadyNodes(nodes: seq<Node>): seq<Node> {
    if |nodes| == 0 then []
    else (if nodes[0].deps == {} then [nodes[0]] else []) + ReadyNodes(nodes[1..])
  }

  // ---------------------------------------------------------------------------------------------
  // Kahn's loop.

  /** The dependents of `done` whose working set becomes empty once `done` is removed from it. */
  function Unblocked(working: map<string, set<string>>, done: string, dependents: seq<string>): seq<string> {
    if |dependents| == 0 then []
    else
      var id := dependents[0];
      (if id in working && working[id] - {done} == {} then [id] else []) + Unblocked(working, done, dependents[1..])
  }

  lemma {:induction false} UnblockedMembers(working: map<string, set<string>>, done: string, dependents: seq<string>)
    ensures forall id :: id in Unblocked(working, done, dependents) <==>
      id in dependents && id in working && working[id] - {done} == {}
    ensures NoDup(dependents) ==> NoDup(Unblocked(working, done, dependents))
    decreases |dependents|
  {
    if |dependents| > 0 {
      UnblockedMembers(working, done, dependents[1..]);
      assert forall x :: x in dependents <==> x == dependents[0] || x in dependents[1..];
    }
  }

  lemma {:induction false} UnblockedFrame(working: map<string, set<string>>, done: string, id: string, dependents: seq<string>)
    requires id in working
    ensures Unblocked(working[id := working[id] - {done}], done, dependents) == Unblocked(working, done, dependents)
    decreases |dependents|
  {
    if |dependents| > 0 {
      UnblockedFrame(working, done, id, dependents[1..]);
    }
  }

  /**
   * The inner loop over the dependents of the node just sorted: remove its identity from each
   * dependent's working set and enqueue the dependent when that set has become empty.
   */
  function Relax(working: map<string, set<string>>, queue: seq<string>, done: string, dependents: seq<string>)
    : (r: (map<string, set<string>>, seq<string>))
    ensures r.0.Keys == working.Keys
    ensures forall id :: id in working ==> r.0[id] == if id in dependents then working[id] - {done} else working[id]
    ensures r.1 == queue + Unblocked(working, done, dependents)
    decreases |dependents|
  {
    if |dependents| == 0 then (working, queue)
    else
      var id := dependents[0];
      assert forall x :: x in dependents <==> x == id || x in dependents[1..];
      if id !in working then
        Relax(working, queue, done, dependents[1..])
      else
        var rest := working[id] - {done};
        var queue' := if rest == {} then queue + [id] else queue;
        UnblockedFrame(working, done, id, dependents[1..]);
        var r := Relax(working[id := rest], queue', done, dependents[1..]);
        RelaxWorking(working, done, dependents, r.0);
        r
  }

  /** Relaxing the first dependent, then the others, relaxes each dependent once. */
  lemma RelaxWorking(working: map<string, set<string>>, done: string, dependents: seq<string>, w': map<string, set<string>>)
    requires |dependents| > 0 && dependents[0] in working && w'.Keys == working.Keys
    requires var w1 := working[dependents[0] := working[dependents[0]] - {done}];
      forall id :: id in w1 ==> w'[id] == if id in dependents[1..] then w1[id] - {done} else w1[id]
    ensures forall id :: id in working ==> w'[id] == if id in dependents then working[id] - {done} else working[id]
  {
    assert forall x :: x in dependents <==> x == dependents[0] || x in dependents[1..];
  }

  /** The reverse mapping lists, for each identity, exactly the nodes that read it, once each. */
  ghost predicate ReverseOk(index: map<string, Node>, rev: map<string, seq<string>>) {
    && (forall x :: x in rev ==> NoDup(rev[x]))
    && (forall x, y :: x in rev && y in rev[x] ==> y in index && x in index[y].deps)
    && (forall x, y :: y in index && x in index[y].deps ==> x in rev && y in rev[x])
  }

  /** The dependents of `x` according to the reverse mapping. */
  function DependentsIn(rev: map<string, seq<string>>, x: string): seq<string> {
    if x in rev then rev[x] else []
  }

  /** Each working set is the node's dependencies minus the identities popped so far. */
  ghost predicate WorkingOk(index: map<string, Node>, working: map<string, set<string>>, sorted: seq<string>) {
    && working.Keys == index.Keys
    && (forall id :: id in working ==> working[id] == index[id].deps - SetOf(sorted))
  }

  /** The queue holds, once each, exactly the unpopped nodes whose working set is empty. */
  ghost predicate QueueOk(working: map<string, set<string>>, queue: seq<string>, sorted: seq<string>) {
    && NoDup(queue)
    && (forall k :: 0 <= k < |queue| ==> queue[k] in working && working[queue[k]] == {} && queue[k] !in sorted)
    && (forall id :: id in working && working[id] == {} && id !in sorted ==> id in queue)
  }

  /** Every popped node was popped once, after all of its dependencies. */
  ghost predicate SortedOk(index: map<string, Node>, sorted: seq<string>) {
    && NoDup(sorted)
    && (forall k :: 0 <= k < |sorted| ==> sorted[k] in index && index[sorted[k]].deps <= SetOf(sorted[..k]))
  }

  /** What holds between iterations of Kahn's loop, for the identities `sorted` popped so far. */
  ghost predicate Inv(index: map<string, Node>, working: map<string, set<string>>, queue: seq<string>, sorted: seq<string>) {
    WorkingOk(index, working, sorted) && QueueOk(working, queue, sorted) && SortedOk(index, sorted)
  }

  lemma SetOfSnoc(s: seq<string>, x: string)
    ensures SetOf(s + [x]) == SetOf(s) + {x}
  {
  }

  /** Relaxing the dependents of the popped node keeps the working sets exact. */
  lemma StepWorking(index: map<string, Node>, rev: map<string, seq<string>>, working: map<string, set<string>>,
                    sorted: seq<string>, cur: string, w': map<string, set<string>>)
    requires ReverseOk(index, rev) && WorkingOk(index, working, sorted)
    requires w'.Keys == working.Keys
    requires forall id :: id in working ==>
      w'[id] == if id in DependentsIn(rev, cur) then working[id] - {cur} else working[id]
    ensures WorkingOk(index, w', sorted + [cur])
  {
    SetOfSnoc(sorted, cur);
    forall id | id in w' ensures w'[id] == index[id].deps - SetOf(sorted + [cur]) {
      if id !in DependentsIn(rev, cur) {
        assert cur !in index[id].deps;
      }
    }
  }

  /** The popped node's dependencies were all popped before it. */
  lemma StepSorted(index: map<string, Node>, working: map<string, set<string>>, queue: seq<string>, sorted: seq<string>)
    requires Inv(index, working, queue, sorted) && |queue| > 0
    ensures SortedOk(index, sorted + [queue[0]])
    ensures queue[0] in index && queue[0] !in sorted
  {
    var cur := queue[0];
    var s' := sorted + [cur];
    DifferenceEmpty(index[cur].deps, SetOf(sorted));
    assert NoDup(s');
    forall k | 0 <= k < |s'| ensures s'[k] in index && index[s'[k]].deps <= SetOf(s'[..k]) {
      if k < |sorted| {
        assert s'[..k] == sorted[..k];
      } else {
        assert s'[..k] == sorted;
      }
    }
  }

  /** No node still waiting in the queue reads the node just popped. */
  lemma QueueTailNotDependent(index: map<string, Node>, rev: map<string, seq<string>>,
                              working: map<string, set<string>>, queue: seq<string>, sorted: seq<string>)
    requires ReverseOk(index, rev) && Inv(index, working, queue, sorted) && |queue| > 0
    ensures forall x :: x in queue[1..] ==> x !in DependentsIn(rev, queue[0])
  {
    var cur := queue[0];
    assert cur !in SetOf(sorted);
    forall x | x in queue[1..] ensures x !in DependentsIn(rev, cur) {
      var k :| 0 <= k < |queue[1..]| && queue[1..][k] == x;
      assert x == queue[k + 1] && working[x] == {};
      assert working[x] == index[x].deps - SetOf(sorted);
      var d := index[x].deps;
      assert cur in d ==> cur in d - SetOf(sorted);
      assert cur !in d;
      if cur in rev {
        assert DependentsIn(rev, cur) == rev[cur];
      }
    }
  }

  /** Every popped node's dependencies are among the popped identities. */
  lemma PoppedDependencies(index: map<string, Node>, sorted: seq<string>)
    requires SortedOk(index, sorted)
    ensures forall y :: y in sorted ==> y in index && index[y].deps <= SetOf(sorted)
  {
    forall y | y in sorted ensures y in index && index[y].deps <= SetOf(sorted) {
      var k :| 0 <= k < |sorted| && sorted[k] == y;
      assert SetOf(sorted[..k]) <= SetOf(sorted);
    }
  }

  /** A dependent unblocked by the pop was neither popped before nor is it the popped node. */
  lemma UnblockedFresh(index: map<string, Node>, rev: map<string, seq<string>>,
                       working: map<string, set<string>>, queue: seq<string>, sorted: seq<string>)
    requires ReverseOk(index, rev) && Inv(index, working, queue, sorted) && |queue| > 0
    ensures forall x :: x in Unblocked(working, queue[0], DependentsIn(rev, queue[0])) ==>
      x in DependentsIn(rev, queue[0]) && x !in sorted && x != queue[0]
  {
    var cur, ds := queue[0], DependentsIn(rev, queue[0]);
    UnblockedMembers(working, cur, ds);
    PoppedDependencies(index, sorted);
    assert cur !in SetOf(sorted) && working[cur] == {};
    forall x | x in Unblocked(working, cur, ds) ensures x !in sorted && x != cur {
      assert cur in index[x].deps;
      assert cur in working[x];
    }
  }

  /** After the pop and the relaxation, the queue is again exactly the ready unpopped nodes. */
  lemma StepQueue(index: map<string, Node>, rev: map<string, seq<string>>,
                  working: map<string, set<string>>, queue: seq<string>, sorted: seq<string>)
    requires ReverseOk(index, rev) && Inv(index, working, queue, sorted) && |queue| > 0
    ensures var r := Relax(working, queue[1..], queue[0], DependentsIn(rev, queue[0]));
            QueueOk(r.0, r.1, sorted + [queue[0]])
  {
    var cur, ds := queue[0], DependentsIn(rev, queue[0]);
    var r := Relax(working, queue[1..], cur, ds);
    var u := Unblocked(working, cur, ds);
    var s' := sorted + [cur];
    UnblockedMembers(working, cur, ds);
    QueueTailNotDependent(index, rev, working, queue, sorted);
    UnblockedFresh(index, rev, working, queue, sorted);
    assert NoDup(queue[1..]);
    NoDupAppend(queue[1..], u);
    forall k | 0 <= k < |r.1| ensures r.1[k] in r.0 && r.0[r.1[k]] == {} && r.1[k] !in s' {
      if k < |queue| - 1 {
        assert r.1[k] == queue[k + 1];
        assert r.1[k] !in ds;
        assert r.1[k] != cur;
      } else {
        assert r.1[k] in u;
      }
    }
    forall id | id in r.0 && r.0[id] == {} && id !in s' ensures id in r.1 {
      if id !in ds {
        assert id in queue && id != cur;
        var k :| 0 <= k < |queue| && queue[k] == id;
        assert queue[1..][k - 1] == id;
      } else {
        assert id in u;
      }
    }
  }

  /** One iteration of Kahn's loop keeps the invariant. */
  lemma DrainStep(index: map<string, Node>, rev: map<string, seq<string>>,
                  working: map<string, set<string>>, queue: seq<string>, sorted: seq<string>)
    requires ReverseOk(index, rev) && Inv(index, working, queue, sorted) && |queue| > 0
    ensures var r := Relax(working, queue[1..], queue[0], DependentsIn(rev, queue[0]));
            Inv(index, r.0, r.1, sorted + [queue[0]])
    ensures queue[0] in index && queue[0] !in sorted
  {
    var r := Relax(working, queue[1..], queue[0], DependentsIn(rev, queue[0]));
    StepWorking(index, rev, working, sorted, queue[0], r.0);
    StepSorted(index, working, queue, sorted);
    StepQueue(index, rev, working, queue, sorted);
  }

  /** A pop only appends to the popped identities followed by the queue. */
  lemma PopExtends(working: map<string, set<string>>, queue: seq<string>, sorted: seq<string>, dependents: seq<string>)
    requires |queue| > 0
    ensures sorted + queue <= (sorted + [queue[0]]) + Relax(working, queue[1..], queue[0], dependents).1
  {
    assert (sorted + [queue[0]]) + Relax(working, queue[1..], queue[0], dependents).1
        == (sorted + queue) + Unblocked(working, queue[0], dependents);
  }

  /** Popping an identity not popped before leaves fewer identities to pop. */
  lemma PopProgress(index: map<string, Node>, sorted: seq<string>, cur: string)
    requires cur in index && cur !in sorted
    ensures index.Keys - SetOf(sorted + [cur]) < index.Keys - SetOf(sorted)
  {
    SetOfSnoc(sorted, cur);
    assert cur in index.Keys - SetOf(sorted);
  }

  /**
   * One iteration of Kahn's loop: pop the front of the queue, append it to the sorted
   * identities and relax its dependents. The result is the new working sets, queue and sorted
   * identities; the invariant holds again, and one more identity has been popped.
   */
  function Pop(index: map<string, Node>, rev: map<string, seq<string>>,
               working: map<string, set<string>>, queue: seq<string>, sorted: seq<string>)
    : (r: (map<string, set<string>>, seq<string>, seq<string>))
    requires ReverseOk(index, rev) && Inv(index, working, queue, sorted) && |queue| > 0
    ensures Inv(index, r.0, r.1, r.2)
    ensures r.2 == sorted + [queue[0]]
    ensures index.Keys - SetOf(r.2) < index.Keys - SetOf(sorted)
    ensures sorted + queue <= r.2 + r.1
  {
    var cur := queue[0];
    var relaxed := Relax(working, queue[1..], cur, DependentsIn(rev, cur));
    DrainStep(index, rev, working, queue, sorted);
    PopProgress(index, sorted, cur);
    PopExtends(working, queue, sorted, DependentsIn(rev, cur));
    (relaxed.0, relaxed.1, sorted + [cur])
  }

  /**
   * Kahn's loop: pop until the queue is empty. Terminates because every pop sorts a node
   * identity that was not sorted before.
   */
  function Drain(index: map<string, Node>, rev: map<string, seq<string>>,
                 working: map<string, set<string>>, queue: seq<string>, sorted: seq<string>)
    : (r: (map<string, set<string>>, seq<string>))
    requires ReverseOk(index, rev) && Inv(index, working, queue, sorted)
    ensures Inv(index, r.0, [], r.1)
    ensures sorted + queue <= r.1
    decreases index.Keys - SetOf(sorted)
  {
    if |queue| == 0 then (working, sorted)
    else
      var next := Pop(index, rev, working, queue, sorted);
      Drain(index, rev, next.0, next.1, next.2)
  }

  /** `recursiveNodes`: the nodes whose working set is not empty, in node order. */
  function Residual(nodes: seq<Node>, index: map<string, Node>, working: map<string, set<string>>): (r: seq<Node>)
    requires forall n :: n in nodes ==> n.id in working && n.id in index
  {
    if |nodes| == 0 then []
    else
      var id := nodes[0].id;
      (if working[id] != {} then [index[id]] else []) + Residual(nodes[1..], index, working)
  }

  /** The nodes of the given identities. */
  function NodesOf(index: map<string, Node>, ids: seq<string>): (r: seq<Node>)
    requires forall id :: id in ids ==> id in index
    ensures |r| == |ids|
    ensures forall k :: 0 <= k < |ids| ==> r[k] == index[ids[k]]
  {
    if |ids| == 0 then [] else [index[ids[0]]] + NodesOf(index, ids[1..])
  }

  /** The identities of the sorted nodes. */
  function SortedIds(s: Schedule): set<string> {
    IdSet(s.sorted)
  }

  /**
   * `_topologicalSorting`. For nodes with distinct identities: the sorted and the residual
   * nodes together are exactly the input nodes, each once; every sorted node comes after all
   * of its dependencies; the residual nodes, in input order, are exactly the nodes that read
   * some identity that was not sorted; and the nodes that were ready from the start leave the
   * queue first, in input order.
   */
  function TopologicalSort(nodes: seq<Node>): (s: Schedule)
    requires UniqueIds(nodes)
    ensures multiset(s.sorted + s.residual) == multiset(nodes)
    ensures DependenciesFirst(s.sorted)
    ensures forall n :: n in nodes ==> (n in s.sorted <==> n.deps <= SortedIds(s))
    ensures s.residual == Blocked(nodes, SortedIds(s))
    ensures ReadyNodes(nodes) <= s.sorted
    ensures s.residual == [] ==> multiset(s.sorted) == multiset(nodes)
  {
    var index := IndexById(nodes);
    var drained := RunKahn(nodes);
    PoppedIndexed(index, drained.0, drained.1);
    var s := Schedule(NodesOf(index, drained.1), Residual(nodes, index, drained.0));
    ScheduleFacts(nodes, index, drained.0, drained.1, s);
    ReadyFirst(nodes, index, drained.1);
    WithoutResidual(s, nodes);
    s
  }

  lemma WithoutResidual(s: Schedule, nodes: seq<Node>)
    requires multiset(s.sorted + s.residual) == multiset(nodes)
    ensures s.residual == [] ==> multiset(s.sorted) == multiset(nodes)
  {
    if s.residual == [] {
      assert s.sorted + s.residual == s.sorted;
    }
  }

  /** Kahn's loop started from the nodes without dependencies: final working sets and popped order. */
  function RunKahn(nodes: seq<Node>): (r: (map<string, set<string>>, seq<string>))
    requires UniqueIds(nodes)
    ensures Inv(IndexById(nodes), r.0, [], r.1)
    ensures InitiallyReady(nodes) <= r.1
  {
    var index := IndexById(nodes);
    var working := WorkingCopies(index);
    var rev := BuildReverse(nodes);
    var queue := InitiallyReady(nodes);
    InitialState(nodes, index, working, rev, queue);
    assert [] + queue == queue;
    Drain(index, rev, working, queue, [])
  }

  lemma PoppedIndexed(index: map<string, Node>, working: map<string, set<string>>, ids: seq<string>)
    requires Inv(index, working, [], ids)
    ensures forall id :: id in ids ==> id in index
  {
    forall id | id in ids ensures id in index {
      var k :| 0 <= k < |ids| && ids[k] == id;
    }
  }

  /** The nodes ready from the start are the first ones popped. */
  lemma ReadyFirst(nodes: seq<Node>, index: map<string, Node>, ids: seq<string>)
    requires UniqueIds(nodes) && index == IndexById(nodes)
    requires InitiallyReady(nodes) <= ids
    requires forall id :: id in ids ==> id in index
    ensures ReadyNodes(nodes) <= NodesOf(index, ids)
  {
    ReadyNodesViaIndex(nodes, index);
    NodesOfPrefix(index, InitiallyReady(nodes), ids);
  }

  /** The nodes, in input order, that read an identity outside `done`. */
  function Blocked(nodes: seq<Node>, done: set<string>): seq<Node> {
    if |nodes| == 0 then []
    else (if !(nodes[0].deps <= done) then [nodes[0]] else []) + Blocked(nodes[1..], done)
  }

  lemma {:induction false} InitiallyReadyMembers(nodes: seq<Node>)
    ensures forall id :: id in InitiallyReady(nodes) <==> exists n :: n in nodes && n.id == id && n.deps == {}
    ensures UniqueIds(nodes) ==> NoDup(InitiallyReady(nodes))
    decreases |nodes|
  {
    if |nodes| > 0 {
      var head := if nodes[0].deps == {} then [nodes[0].id] else [];
      InitiallyReadyMembers(nodes[1..]);
      assert forall n :: n in nodes <==> n == nodes[0] || n in nodes[1..];
      if UniqueIds(nodes) {
        assert UniqueIds(nodes[1..]);
        TailIdsDiffer(nodes);
        NoDupAppend(head, InitiallyReady(nodes[1..]));
      }
    }
  }

  /** Looking the initially ready identities up in an index of the nodes gives the ready nodes. */
  lemma {:induction false} ReadyNodesViaIndex(nodes: seq<Node>, index: map<string, Node>)
    requires forall n :: n in nodes ==> n.id in index && index[n.id] == n
    ensures forall id :: id in InitiallyReady(nodes) ==> id in index
    ensures NodesOf(index, InitiallyReady(nodes)) == ReadyNodes(nodes)
    decreases |nodes|
  {
    InitiallyReadyMembers(nodes);
    if |nodes| > 0 {
      assert nodes[0] in nodes;
      ReadyNodesViaIndex(nodes[1..], index);
      var head := if nodes[0].deps == {} then [nodes[0].id] else [];
      NodesOfAppend(index, head, InitiallyReady(nodes[1..]));
    }
  }

  lemma NodesOfAppend(index: map<string, Node>, a: seq<string>, b: seq<string>)
    requires forall id :: id in a + b ==> id in index
    ensures NodesOf(index, a + b) == NodesOf(index, a) + NodesOf(index, b)
  {
    assert forall id :: id in a ==> id in a + b;
    assert forall id :: id in b ==> id in a + b;
  }

  lemma NodesOfPrefix(index: map<string, Node>, a: seq<string>, b: seq<string>)
    requires a <= b
    requires forall id :: id in b ==> id in index
    ensures NodesOf(index, a) <= NodesOf(index, b)
  {
    assert forall id :: id in a ==> id in b by {
      forall id | id in a ensures id in b {
        var k :| 0 <= k < |a| && a[k] == id;
        assert b[k] == id;
      }
    }
  }

  /** The reverse mapping built from nodes with distinct identities agrees with their index. */
  lemma ReverseOfNodes(nodes: seq<Node>)
    requires UniqueIds(nodes)
    ensures ReverseOk(IndexById(nodes), BuildReverse(nodes))
  {
    ReverseListsUnique(nodes);
    ReverseSound(nodes);
    ReverseComplete(nodes);
  }

  lemma ReverseListsUnique(nodes: seq<Node>)
    requires UniqueIds(nodes)
    ensures var rev := BuildReverse(nodes); forall x :: x in rev ==> NoDup(rev[x])
  {
    var rev := BuildReverse(nodes);
    forall x | x in rev ensures NoDup(rev[x]) {
      DependentsOfMembers(nodes, x);
    }
  }

  lemma ReverseSound(nodes: seq<Node>)
    requires UniqueIds(nodes)
    ensures var index, rev := IndexById(nodes), BuildReverse(nodes);
      forall x, y :: x in rev && y in rev[x] ==> y in index && x in index[y].deps
  {
    var index, rev := IndexById(nodes), BuildReverse(nodes);
    forall x, y | x in rev && y in rev[x] ensures y in index && x in index[y].deps {
      DependentsOfMembers(nodes, x);
      var n :| n in nodes && n.id == y && x in n.deps;
      assert index[n.id] == n;
    }
  }

  lemma ReverseComplete(nodes: seq<Node>)
    requires UniqueIds(nodes)
    ensures var index, rev := IndexById(nodes), BuildReverse(nodes);
      forall x, y :: y in index && x in index[y].deps ==> x in rev && y in rev[x]
  {
    var index, rev := IndexById(nodes), BuildReverse(nodes);
    forall x, y | y in index && x in index[y].deps ensures x in rev && y in rev[x] {
      DependentsOfMembers(nodes, x);
      assert index[y] in nodes;
    }
  }


  lemma InitialState(nodes: seq<Node>, index: map<string, Node>, working: map<string, set<string>>,
                     rev: map<string, seq<string>>, queue: seq<string>)
    requires UniqueIds(nodes)
    requires index == IndexById(nodes) && working == WorkingCopies(index)
    requires rev == BuildReverse(nodes) && queue == InitiallyReady(nodes)
    ensures ReverseOk(index, rev) && Inv(index, working, queue, [])
  {
    ReverseOfNodes(nodes);
    assert SetOf([]) == {};
    InitialQueue(nodes, index, working, queue);
  }

  /** The queue starts out as exactly the nodes without dependencies, once each. */
  lemma InitialQueue(nodes: seq<Node>, index: map<string, Node>, working: map<string, set<string>>, queue: seq<string>)
    requires UniqueIds(nodes)
    requires index == IndexById(nodes) && working == WorkingCopies(index) && queue == InitiallyReady(nodes)
    ensures QueueOk(working, queue, [])
  {
    InitiallyReadyMembers(nodes);
    forall k | 0 <= k < |queue| ensures queue[k] in working && working[queue[k]] == {} {
      assert queue[k] in queue;
      var n :| n in nodes && n.id == queue[k] && n.deps == {};
      var i :| 0 <= i < |nodes| && nodes[i] == n;
    }
    forall id | id in working && working[id] == {} ensures id in queue {
      assert index[id] in nodes;
    }
  }

  lemma {:induction false} ResidualIsBlocked(nodes: seq<Node>, index: map<string, Node>, working: map<string, set<string>>, done: set<string>)
    requires forall n :: n in nodes ==> n.id in working && n.id in index && index[n.id] == n
    requires forall n :: n in nodes ==> working[n.id] == n.deps - done
    ensures Residual(nodes, index, working) == Blocked(nodes, done)
    decreases |nodes|
  {
    if |nodes| > 0 {
      var n := nodes[0];
      assert n in nodes;
      DifferenceEmpty(n.deps, done);
      assert forall m :: m in nodes[1..] ==> m in nodes;
      ResidualIsBlocked(nodes[1..], index, working, done);
    }
  }

  lemma DifferenceEmpty<T>(a: set<T>, b: set<T>)
    ensures a - b == {} <==> a <= b
  {
    if !(a <= b) {
      var x :| x in a && x !in b;
      assert x in a - b;
    }
  }

  lemma {:induction false} BlockedMembers(nodes: seq<Node>, done: set<string>)
    ensures forall n :: n in Blocked(nodes, done) <==> n in nodes && !(n.deps <= done)
    ensures UniqueIds(nodes) ==> NoDup(Blocked(nodes, done))
    decreases |nodes|
  {
    if |nodes| > 0 {
      BlockedMembers(nodes[1..], done);
      assert forall n :: n in nodes <==> n == nodes[0] || n in nodes[1..];
      if UniqueIds(nodes) {
        assert UniqueIds(nodes[1..]);
        forall n | n in nodes[1..] ensures n != nodes[0] {
          var k :| 0 <= k < |nodes[1..]| && nodes[1..][k] == n;
          assert nodes[k + 1] == n;
        }
      }
    }
  }

  lemma NodesUnique(nodes: seq<Node>)
    requires UniqueIds(nodes)
    ensures NoDup(nodes)
  {
  }

  /** The nodes of distinct popped identities are distinct and carry exactly those identities. */
  lemma PoppedNodes(index: map<string, Node>, ids: seq<string>)
    requires forall id :: id in index ==> index[id].id == id
    requires NoDup(ids) && forall id :: id in ids ==> id in index
    ensures IdSet(NodesOf(index, ids)) == SetOf(ids)
    ensures NoDup(NodesOf(index, ids))
    ensures forall n :: n in NodesOf(index, ids) <==> n.id in SetOf(ids) && n.id in index && index[n.id] == n
  {
    PoppedNodesIds(index, ids);
    PoppedNodesMembers(index, ids);
    var ns := NodesOf(index, ids);
    forall i, j | 0 <= i < j < |ns| ensures ns[i] != ns[j] {
      assert ns[i].id == ids[i] && ns[j].id == ids[j];
    }
  }

  lemma PoppedNodesIds(index: map<string, Node>, ids: seq<string>)
    requires forall id :: id in index ==> index[id].id == id
    requires forall id :: id in ids ==> id in index
    ensures IdSet(NodesOf(index, ids)) == SetOf(ids)
  {
    var ns := NodesOf(index, ids);
    forall id | id in SetOf(ids) ensures id in IdSet(ns) {
      var k :| 0 <= k < |ids| && ids[k] == id;
      assert ns[k] == index[id];
    }
  }

  lemma PoppedNodesMembers(index: map<string, Node>, ids: seq<string>)
    requires forall id :: id in index ==> index[id].id == id
    requires forall id :: id in ids ==> id in index
    ensures forall n :: n in NodesOf(index, ids) <==> n.id in SetOf(ids) && n.id in index && index[n.id] == n
  {
    var ns := NodesOf(index, ids);
    forall n: Node | n.id in SetOf(ids) && n.id in index && index[n.id] == n ensures n in ns {
      var k :| 0 <= k < |ids| && ids[k] == n.id;
      assert ns[k] == n;
    }
  }

  /** In the popped order, every node's dependencies come before it. */
  lemma PoppedOrder(index: map<string, Node>, ids: seq<string>)
    requires forall id :: id in index ==> index[id].id == id
    requires SortedOk(index, ids)
    ensures DependenciesFirst(NodesOf(index, ids))
  {
    var ns := NodesOf(index, ids);
    forall i, d | 0 <= i < |ns| && d in ns[i].deps ensures exists j :: 0 <= j < i && ns[j].id == d {
      assert d in SetOf(ids[..i]);
      var j :| 0 <= j < i && ids[j] == d;
      assert ns[j] == index[d];
    }
  }

  /** Once the queue is empty, a node was popped exactly when all of its dependencies were. */
  lemma PoppedExactly(nodes: seq<Node>, index: map<string, Node>, working: map<string, set<string>>, ids: seq<string>)
    requires forall n :: n in nodes ==> n.id in index && index[n.id] == n
    requires Inv(index, working, [], ids)
    ensures forall n :: n in nodes ==> (n.id in SetOf(ids) <==> n.deps <= SetOf(ids))
    ensures forall n :: n in nodes ==> n.id in working && working[n.id] == n.deps - SetOf(ids)
  {
    PoppedDependencies(index, ids);
    forall n | n in nodes ensures n.id in SetOf(ids) <==> n.deps <= SetOf(ids) {
      DifferenceEmpty(n.deps, SetOf(ids));
    }
  }

  /** Two sequences without repetitions that split `nodes` between them make up its multiset. */
  lemma MultisetOfSplit(nodes: seq<Node>, a: seq<Node>, b: seq<Node>)
    requires NoDup(nodes) && NoDup(a) && NoDup(b)
    requires forall n :: n in a ==> n in nodes
    requires forall n :: n in nodes ==> (n in a <==> n !in b)
    requires forall n :: n in b ==> n in nodes
    ensures multiset(a + b) == multiset(nodes)
  {
    forall x ensures multiset(a + b)[x] == multiset(nodes)[x] {
      MultisetOfNoDup(a, x);
      MultisetOfNoDup(b, x);
      MultisetOfNoDup(nodes, x);
    }
  }

  /** The final state of Kahn's loop yields a schedule with the promised properties. */
  lemma ScheduleFacts(nodes: seq<Node>, index: map<string, Node>, working: map<string, set<string>>, ids: seq<string>, s: Schedule)
    requires UniqueIds(nodes) && index == IndexById(nodes)
    requires Inv(index, working, [], ids)
    requires forall id :: id in ids ==> id in index
    requires s == Schedule(NodesOf(index, ids), Residual(nodes, index, working))
    ensures multiset(s.sorted + s.residual) == multiset(nodes)
    ensures DependenciesFirst(s.sorted)
    ensures forall n :: n in nodes ==> (n in s.sorted <==> n.deps <= SortedIds(s))
    ensures s.residual == Blocked(nodes, SortedIds(s))
  {
    var done := SetOf(ids);
    assert forall n :: n in nodes ==> n.id in index && index[n.id] == n;
    PoppedNodes(index, ids);
    PoppedOrder(index, ids);
    PoppedExactly(nodes, index, working, ids);
    ResidualIsBlocked(nodes, index, working, done);
    BlockedMembers(nodes, done);
    NodesUnique(nodes);
    assert forall n :: n in s.sorted ==> n in nodes;
    MultisetOfSplit(nodes, s.sorted, s.residual);
  }

  // ---------------------------------------------------------------------------------------------
  // What the schedule means for the dependency graph.

  /** Every input node ends up either sorted or residual, never both, and nothing else does. */
  lemma SortedOrResidual(nodes: seq<Node>)
    requires UniqueIds(nodes)
    ensures var s := TopologicalSort(nodes);
      forall n :: n in nodes ==> (n in s.sorted <==> n !in s.residual)
    ensures var s := TopologicalSort(nodes);
      forall n :: n in s.sorted + s.residual ==> n in nodes
  {
    var s := TopologicalSort(nodes);
    BlockedMembers(nodes, SortedIds(s));
    forall n | n in nodes ensures n in s.sorted || n in s.residual {
      assert n in multiset(nodes);
      assert n in multiset(s.sorted + s.residual);
    }
    forall n | n in s.sorted + s.residual ensures n in nodes {
      assert n in multiset(s.sorted + s.residual);
    }
  }

  /** No node is sorted twice. */
  lemma NoDupSorted(nodes: seq<Node>)
    requires UniqueIds(nodes)
    ensures NoDup(TopologicalSort(nodes).sorted)
  {
    var s := TopologicalSort(nodes);
    NodesUnique(nodes);
    assert multiset(s.sorted) <= multiset(s.sorted + s.residual);
    NoDupOfSubMultiset(s.sorted, nodes);
  }

  /** With distinct identities, the node carrying an identity is determined by it. */
  lemma SameIdSameNode(nodes: seq<Node>, m: Node, n: Node)
    requires UniqueIds(nodes) && m in nodes && n in nodes && m.id == n.id
    ensures m == n
  {
    var i :| 0 <= i < |nodes| && nodes[i] == m;
    var j :| 0 <= j < |nodes| && nodes[j] == n;
  }

  /** Some of the nodes of a list with unique identities, each at most once, have unique identities. */
  lemma UniqueIdsOfSubMultiset(sub: seq<Node>, nodes: seq<Node>)
    requires UniqueIds(nodes) && multiset(sub) <= multiset(nodes)
    ensures UniqueIds(sub)
  {
    assert NoDup(nodes);
    NoDupOfSubMultiset(sub, nodes);
    forall i, j | 0 <= i < |sub| && 0 <= j < |sub| && sub[i].id == sub[j].id ensures i == j {
      assert sub[i] in multiset(nodes) && sub[j] in multiset(nodes);
      SameIdSameNode(nodes, sub[i], sub[j]);
    }
  }

  lemma UniqueIdsParts(a: seq<Node>, b: seq<Node>)
    requires UniqueIds(a + b)
    ensures UniqueIds(a) && UniqueIds(b)
  {
    assert forall i :: 0 <= i < |a| ==> (a + b)[i] == a[i];
    assert forall j :: 0 <= j < |b| ==> (a + b)[|a| + j] == b[j];
  }

  /** The sorted and the residual nodes carry each identity at most once between them. */
  lemma ScheduleIdsUnique(nodes: seq<Node>)
    requires UniqueIds(nodes)
    ensures var s := TopologicalSort(nodes);
      UniqueIds(s.sorted + s.residual) && UniqueIds(s.sorted) && UniqueIds(s.residual)
  {
    var s := TopologicalSort(nodes);
    UniqueIdsOfSubMultiset(s.sorted + s.residual, nodes);
    UniqueIdsParts(s.sorted, s.residual);
  }

  /** A node that reads an identity no node carries is never sorted. */
  lemma MissingDependencyIsResidual(nodes: seq<Node>, n: Node, d: string)
    requires UniqueIds(nodes) && n in nodes && d in n.deps && d !in IdSet(nodes)
    ensures n in TopologicalSort(nodes).residual
  {
    var s := TopologicalSort(nodes);
    SortedOrResidual(nodes);
    assert d !in SortedIds(s);
  }

  /** A node that reads a residual node is itself residual. */
  lemma ResidualPropagates(nodes: seq<Node>, n: Node, m: Node)
    requires UniqueIds(nodes) && n in nodes && m.id in n.deps
    requires m in TopologicalSort(nodes).residual
    ensures n in TopologicalSort(nodes).residual
  {
    var s := TopologicalSort(nodes);
    SortedOrResidual(nodes);
    assert m in nodes && m !in s.sorted;
    if m.id in SortedIds(s) {
      var k :| k in s.sorted && k.id == m.id;
      SameIdSameNode(nodes, k, m);
    }
    assert !(n.deps <= SortedIds(s));
  }

  /** Every dependency of a sorted node is carried by a node sorted before it. */
  ghost predicate DependenciesFirst(sorted: seq<Node>) {
    forall i, d :: 0 <= i < |sorted| && d in sorted[i].deps ==> exists j :: 0 <= j < i && sorted[j].id == d
  }

  /** In an order that puts dependencies first, whatever node `i` reads is carried by a node before it. */
  lemma DependencyEarlier(sorted: seq<Node>, i: nat, d: string)
    requires DependenciesFirst(sorted) && i < |sorted| && d in sorted[i].deps
    ensures d in IdSet(sorted[..i])
  {
    var j :| 0 <= j < i && sorted[j].id == d;
    assert sorted[..i][j] == sorted[j];
  }

  /** The node after position `i` on a cycle, wrapping around at the end. */
  function Successor(cycle: seq<Node>, i: nat): Node
    requires i < |cycle|
  {
    if i + 1 == |cycle| then cycle[0] else cycle[i + 1]
  }

  /** Up to position `b` of an order that puts dependencies first, no node lies on the cycle. */
  lemma {:induction false} CycleNotBefore(nodes: seq<Node>, sorted: seq<Node>, cycle: seq<Node>, b: nat)
    requires UniqueIds(nodes) && |cycle| > 0 && b <= |sorted|
    requires forall n :: n in sorted ==> n in nodes
    requires DependenciesFirst(sorted)
    requires forall i :: 0 <= i < |cycle| ==> cycle[i] in nodes
    requires forall i :: 0 <= i < |cycle| ==> Successor(cycle, i).id in cycle[i].deps
    ensures forall i :: 0 <= i < b ==> sorted[i] !in cycle
    decreases b
  {
    if b > 0 {
      CycleNotBefore(nodes, sorted, cycle, b - 1);
      CycleStepNotOn(nodes, sorted, cycle, b - 1);
    }
  }

  /** If no node before position `p` lies on the cycle, neither does the node at `p`. */
  lemma CycleStepNotOn(nodes: seq<Node>, sorted: seq<Node>, cycle: seq<Node>, p: nat)
    requires UniqueIds(nodes) && p < |sorted|
    requires forall n :: n in sorted ==> n in nodes
    requires DependenciesFirst(sorted)
    requires forall i :: 0 <= i < |cycle| ==> cycle[i] in nodes
    requires forall i :: 0 <= i < |cycle| ==> Successor(cycle, i).id in cycle[i].deps
    requires forall i :: 0 <= i < p ==> sorted[i] !in cycle
    ensures sorted[p] !in cycle
  {
    forall c | 0 <= c < |cycle| ensures cycle[c] != sorted[p] {
      CycleStepEarlier(nodes, sorted, cycle, p, c);
    }
  }

  /** If the node at position `p` were on the cycle, its successor on the cycle would come earlier. */
  lemma CycleStepEarlier(nodes: seq<Node>, sorted: seq<Node>, cycle: seq<Node>, p: nat, c: nat)
    requires UniqueIds(nodes) && p < |sorted| && c < |cycle|
    requires forall n :: n in sorted ==> n in nodes
    requires DependenciesFirst(sorted)
    requires forall i :: 0 <= i < |cycle| ==> cycle[i] in nodes
    requires Successor(cycle, c).id in cycle[c].deps
    requires forall i :: 0 <= i < p ==> sorted[i] !in cycle
    ensures cycle[c] != sorted[p]
  {
    var next := Successor(cycle, c);
    assert next in cycle && next in nodes;
    if cycle[c] == sorted[p] {
      var j :| 0 <= j < p && sorted[j].id == next.id;
      SameIdSameNode(nodes, sorted[j], next);
    }
  }

  /** Every node on a dependency cycle is residual: Kahn's loop never sorts a cycle. */
  lemma CycleIsResidual(nodes: seq<Node>, cycle: seq<Node>)
    requires UniqueIds(nodes) && |cycle| > 0
    requires forall i :: 0 <= i < |cycle| ==> cycle[i] in nodes
    requires forall i :: 0 <= i < |cycle| ==> Successor(cycle, i).id in cycle[i].deps
    ensures forall n :: n in cycle ==> n in TopologicalSort(nodes).residual
  {
    var s := TopologicalSort(nodes);
    SortedOrResidual(nodes);
    CycleNotBefore(nodes, s.sorted, cycle, |s.sorted|);
  }

  /** In a ranked graph, a node is sorted once every node of smaller rank is. */
  lemma {:induction false} RankedSorted(nodes: seq<Node>, sorted: seq<Node>, rank: string -> nat, n: Node)
    requires forall m :: m in nodes ==> (m in sorted <==> m.deps <= IdSet(sorted))
    requires forall m, d :: m in nodes && d in m.deps ==> d in IdSet(nodes) && rank(d) < rank(m.id)
    requires n in nodes
    ensures n in sorted
    decreases rank(n.id)
  {
    forall d | d in n.deps ensures d in IdSet(sorted) {
      assert d in IdSet(nodes);
      var m :| m in nodes && m.id == d;
      RankedSorted(nodes, sorted, rank, m);
    }
  }

  /** Nothing is blocked when every node's dependencies are done. */
  lemma {:induction false} NothingBlocked(nodes: seq<Node>, done: set<string>)
    requires forall n :: n in nodes ==> n.deps <= done
    ensures Blocked(nodes, done) == []
    decreases |nodes|
  {
    if |nodes| > 0 {
      assert nodes[0] in nodes;
      NothingBlocked(nodes[1..], done);
    }
  }

  /**
   * A graph whose edges all point to existing nodes of strictly smaller rank is acyclic, and
   * then nothing is residual.
   */
  lemma AcyclicHasNoResidual(nodes: seq<Node>, rank: string -> nat)
    requires UniqueIds(nodes)
    requires forall n, d :: n in nodes && d in n.deps ==> d in IdSet(nodes) && rank(d) < rank(n.id)
    ensures TopologicalSort(nodes).residual == []
  {
    var s := TopologicalSort(nodes);
    forall n | n in nodes ensures n.deps <= SortedIds(s) {
      RankedSorted(nodes, s.sorted, rank, n);
    }
    NothingBlocked(nodes, SortedIds(s));
  }

  /** In an acyclic graph every node is sorted, each once. */
  lemma AcyclicAllSorted(nodes: seq<Node>, rank: string -> nat)
    requires UniqueIds(nodes)
    requires forall n, d :: n in nodes && d in n.deps ==> d in IdSet(nodes) && rank(d) < rank(n.id)
    ensures multiset(TopologicalSort(nodes).sorted) == multiset(nodes)
  {
    AcyclicHasNoResidual(nodes, rank);
  }

  /** The only order of `[a, b, c]` that puts dependencies first, for the chain `a <- b <- c`. */
  lemma ChainOrder(sorted: seq<Node>)
    requires multiset(sorted) == multiset([Node("a", {}), Node("b", {"a"}), Node("c", {"b"})])
    requires DependenciesFirst(sorted)
    ensures sorted == [Node("a", {}), Node("b", {"a"}), Node("c", {"b"})]
  {
    var a, b, c := Node("a", {}), Node("b", {"a"}), Node("c", {"b"});
    assert NoDup([a, b, c]);
    NoDupOfSubMultiset(sorted, [a, b, c]);
    assert |sorted| == 3 by {
      assert |multiset(sorted)| == |multiset([a, b, c])|;
    }
    var x, y, z := sorted[0], sorted[1], sorted[2];
    assert x in multiset(sorted) && y in multiset(sorted) && z in multiset(sorted);
    assert x == a || x == b || x == c;
    assert y == a || y == b || y == c;
    assert z == a || z == b || z == c;
    assert x != y && x != z && y != z;
    // the first node reads nothing, the second reads at most the first
    assert x.deps == {};
    assert forall d :: d in y.deps ==> d == x.id;
    assert sorted == [x, y, z];
  }

  /** The chain `a <- b <- c`: `b` reads `a` and `c` reads `b`. */
  const Chain := [Node("a", {}), Node("b", {"a"}), Node("c", {"b"})]

  /** A rank that every edge of the chain decreases. */
  function ChainRank(id: string): nat {
    if id == "a" then 0 else if id == "b" then 1 else 2
  }

  lemma ChainRanked()
    ensures UniqueIds(Chain)
    ensures forall n, d :: n in Chain && d in n.deps ==> d in IdSet(Chain) && ChainRank(d) < ChainRank(n.id)
  {
    assert Chain[0] in Chain && Chain[1] in Chain;
  }

  /** A chain `a <- b <- c`, listed in order, is scheduled in exactly that order. */
  lemma ChainScenario()
    ensures TopologicalSort(Chain) == Schedule(Chain, [])
  {
    ChainRanked();
    AcyclicHasNoResidual(Chain, ChainRank);
    AcyclicAllSorted(Chain, ChainRank);
    ChainOrder(TopologicalSort(Chain).sorted);
  }
  /**
   * Two nodes named `y` (one reading `z`, one reading nothing) and a node `z` reading `y`: what
   * the variables `y = "=z"`, `y` without a formula and `z = "=y"` give.
   */
  function Duplicated(y: string, z: string): seq<Node> {
    [Node(y, {z}), Node(y, {}), Node(z, {y})]
  }

  /** The working sets once both identities are ready. */
  function AllReady(y: string, z: string): map<string, set<string>> {
    map[y := {}, z := {}]
  }

  /**
   * Without distinct identities Kahn's loop need not end. The later `y` replaces the earlier one
   * in the index, so the first queue is `[y]`; after the first pop every working set is empty,
   * and from then on each pop re-enqueues its sole dependent, so the queue alternates between
   * `[z]` and `[y]` for ever.
   */
  lemma DuplicateIdsLoopForever(y: string, z: string)
    requires y != z
    ensures !UniqueIds(Duplicated(y, z))
    ensures var rev := BuildReverse(Duplicated(y, z));
      && InitiallyReady(Duplicated(y, z)) == [y]
      && Relax(WorkingCopies(IndexById(Duplicated(y, z))), [], y, DependentsIn(rev, y)) == (AllReady(y, z), [z])
      && Relax(AllReady(y, z), [], z, DependentsIn(rev, z)) == (AllReady(y, z), [y])
      && Relax(AllReady(y, z), [], y, DependentsIn(rev, y)) == (AllReady(y, z), [z])
  {
    assert Duplicated(y, z)[0].id == Duplicated(y, z)[1].id;
    DuplicatedReady(y, z);
    DuplicatedFirstPop(y, z);
    DuplicatedLaterPops(y, z);
  }

  lemma DuplicatedFirstPop(y: string, z: string)
    requires y != z
    ensures Relax(WorkingCopies(IndexById(Duplicated(y, z))), [], y, DependentsIn(BuildReverse(Duplicated(y, z)), y))
         == (AllReady(y, z), [z])
  {
    DuplicatedWorking(y, z);
    DuplicatedDependents(y, z);
    FirstPopFrom(y, z, WorkingCopies(IndexById(Duplicated(y, z))), DependentsIn(BuildReverse(Duplicated(y, z)), y));
  }

  lemma FirstPopFrom(y: string, z: string, working: map<string, set<string>>, dependents: seq<string>)
    requires y != z && working == map[y := {}, z := {y}] && dependents == [z]
    ensures Relax(working, [], y, dependents) == (AllReady(y, z), [z])
  {
    RelaxOne(working, y, z);
    assert working[z := {}] == AllReady(y, z);
  }

  lemma DuplicatedLaterPops(y: string, z: string)
    requires y != z
    ensures Relax(AllReady(y, z), [], z, DependentsIn(BuildReverse(Duplicated(y, z)), z)) == (AllReady(y, z), [y])
    ensures Relax(AllReady(y, z), [], y, DependentsIn(BuildReverse(Duplicated(y, z)), y)) == (AllReady(y, z), [z])
  {
    DuplicatedDependents(y, z);
    LaterPopFrom(y, z, z, y, DependentsIn(BuildReverse(Duplicated(y, z)), z));
    LaterPopFrom(y, z, y, z, DependentsIn(BuildReverse(Duplicated(y, z)), y));
  }

  lemma LaterPopFrom(y: string, z: string, done: string, dependent: string, dependents: seq<string>)
    requires y != z && done != dependent && (dependent == y || dependent == z) && dependents == [dependent]
    ensures Relax(AllReady(y, z), [], done, dependents) == (AllReady(y, z), [dependent])
  {
    RelaxOne(AllReady(y, z), done, dependent);
    assert AllReady(y, z)[dependent := {}] == AllReady(y, z);
  }

  lemma DuplicatedReady(y: string, z: string)
    ensures InitiallyReady(Duplicated(y, z)) == [y]
  {
    var d := Duplicated(y, z);
    assert d[1..][1..][1..] == [];
    assert InitiallyReady(d[1..][1..]) == [] by {
      assert d[1..][1..] == [Node(z, {y})];
      assert y in d[1..][1..][0].deps;
    }
    assert InitiallyReady(d[1..]) == [y] by {
      assert d[1..] == [Node(y, {}), Node(z, {y})];
    }
    assert z in d[0].deps;
  }

  lemma DuplicatedWorking(y: string, z: string)
    requires y != z
    ensures WorkingCopies(IndexById(Duplicated(y, z))) == map[y := {}, z := {y}]
  {
    DuplicatedIndex(y, z);
    WorkingFrom(y, z, IndexById(Duplicated(y, z)));
  }

  lemma WorkingFrom(y: string, z: string, index: map<string, Node>)
    requires y != z && index == map[y := Node(y, {}), z := Node(z, {y})]
    ensures WorkingCopies(index) == map[y := {}, z := {y}]
  {
    assert WorkingCopies(index).Keys == {y, z};
  }

  lemma DuplicatedIndex(y: string, z: string)
    requires y != z
    ensures IndexById(Duplicated(y, z)) == map[y := Node(y, {}), z := Node(z, {y})]
  {
    IndexOfThree(Node(y, {z}), Node(y, {}), Node(z, {y}));
    ThreeEntries(y, z);
  }

  lemma ThreeEntries(y: string, z: string)
    requires y != z
    ensures map[y := Node(y, {z})][y := Node(y, {})][z := Node(z, {y})] == map[y := Node(y, {}), z := Node(z, {y})]
  {
  }

  /** The index of three nodes: each enters under its identity, later ones replacing earlier ones. */
  lemma IndexOfThree(a: Node, b: Node, c: Node)
    ensures IndexById([a, b, c]) == map[a.id := a][b.id := b][c.id := c]
  {
    IndexBySnoc([], a);
    IndexBySnoc([a], b);
    IndexBySnoc([a, b], c);
    assert [] + [a] == [a] && [a] + [b] == [a, b] && [a, b] + [c] == [a, b, c];
  }

  /** One more node enters the index under its identity, replacing any earlier node there. */
  lemma IndexBySnoc(init: seq<Node>, last: Node)
    ensures IndexById(init + [last]) == IndexById(init)[last.id := last]
  {
    assert (init + [last])[..|init|] == init;
  }

  lemma DuplicatedDependents(y: string, z: string)
    requires y != z
    ensures DependentsIn(BuildReverse(Duplicated(y, z)), y) == [z]
    ensures DependentsIn(BuildReverse(Duplicated(y, z)), z) == [y]
  {
    var d := Duplicated(y, z);
    assert d[2] in d && y in d[2].deps;
    assert d[0] in d && z in d[0].deps;
    assert d[1..] == [Node(y, {}), Node(z, {y})];
    assert d[1..][1..] == [Node(z, {y})];
    assert d[1..][1..][1..] == [];
    assert DependentsOf(d[1..][1..], y) == [z] && DependentsOf(d[1..][1..], z) == [];
    assert DependentsOf(d[1..], y) == [z] && DependentsOf(d[1..], z) == [];
    assert DependentsOf(d, y) == [z] && DependentsOf(d, z) == [y];
  }

  /** Relaxing the single dependent of `done`, whose working set ends empty, enqueues it. */
  lemma RelaxOne(working: map<string, set<string>>, done: string, dependent: string)
    requires dependent in working && working[dependent] - {done} == {}
    ensures Relax(working, [], done, [dependent]) == (working[dependent := {}], [dependent])
  {
    var r := Relax(working, [], done, [dependent]);
    assert Unblocked(working, done, [dependent][1..]) == [];
    assert Unblocked(working, done, [dependent]) == [dependent];
    assert r.1 == [] + [dependent] == [dependent];
    assert r.0 == working[dependent := {}];
    assert r == (working[dependent := {}], [dependent]);
  }
}
