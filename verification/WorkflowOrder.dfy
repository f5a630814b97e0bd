/** The order in which the preview shows the steps of an edited payroll workflow.

    A step names its successors.  The source repeatedly takes, among the steps none of
    whose predecessors is still waiting, the one that comes first on the canvas; steps
    behind a cycle never become ready and are appended at the end in canvas order. */
module WorkflowOrder {
  import opened Numbers
  import opened Orders

  datatype Step = Step(id: string, positionX: real, positionY: real, nextStepIds: seq<string>)

  /** `String.prototype.localeCompare`: the sign tells the order of two ids. */
  type Collation = (string, string) -> int

  ghost predicate IsCollation(c: Collation) {
    && (forall a, b :: c(a, b) == 0 <==> a == b)
    && (forall a, b :: c(a, b) < 0 ==> c(b, a) > 0)
    && (forall a, b :: c(a, b) > 0 ==> c(b, a) < 0)
    && (forall a, b, d :: c(a, b) < 0 && c(b, d) < 0 ==> c(a, d) < 0)
  }

  /** `workflowVisualOrder(left, right) < 0`: top to bottom, then left to right, then by id. */
  predicate Before(c: Collation, left: Step, right: Step) {
    if left.positionY != right.positionY then left.positionY < right.positionY
    else if left.positionX != right.positionX then left.positionX < right.positionX
    else c(left.id, right.id) < 0
  }

  ghost predicate DistinctIds(nodes: seq<Step>) {
    forall i, j :: 0 <= i < j < |nodes| ==> nodes[i].id != nodes[j].id
  }

  lemma DistinctIdsAt(nodes: seq<Step>, m: Step, n: Step)
    requires DistinctIds(nodes) && m in nodes && n in nodes && m.id == n.id
    ensures m == n
  {
  }

  // ---------------------------------------------------------------- sorting

  ghost predicate Ascending(c: Collation, s: seq<Step>) {
    forall i, j :: 0 <= i < j < |s| ==> Before(c, s[i], s[j])
  }

  function Insert(c: Collation, n: Step, s: seq<Step>): (r: seq<Step>)
    ensures multiset(r) == multiset(s) + multiset{n}
  {
    if s == [] then [n]
    else
      assert s == [s[0]] + s[1..];
      if Before(c, s[0], n) then [s[0]] + Insert(c, n, s[1..]) else [n] + s
  }

  /** The stable `Array.prototype.sort` with the visual comparator. */
  function SortVisual(c: Collation, s: seq<Step>): (r: seq<Step>)
    ensures multiset(r) == multiset(s)
  {
    if s == [] then []
    else
      assert s == [s[0]] + s[1..];
      Insert(c, s[0], SortVisual(c, s[1..]))
  }

  lemma {:induction false} InsertAscending(c: Collation, n: Step, s: seq<Step>)
    requires IsCollation(c) && Ascending(c, s)
    requires forall m :: m in s ==> m.id != n.id
    ensures Ascending(c, Insert(c, n, s))
  {
    if s != [] && Before(c, s[0], n) {
      var t := Insert(c, n, s[1..]);
      InsertAscending(c, n, s[1..]);
      forall m | m in t ensures Before(c, s[0], m) {
        assert m in multiset(t);
        assert m == n || m in multiset(s[1..]);
      }
    }
  }

  lemma {:induction false} SortAscending(c: Collation, s: seq<Step>)
    requires IsCollation(c) && DistinctIds(s)
    ensures Ascending(c, SortVisual(c, s))
  {
    if s != [] {
      SortAscending(c, s[1..]);
      forall m | m in SortVisual(c, s[1..]) ensures m.id != s[0].id {
        assert m in multiset(SortVisual(c, s[1..]));
        assert m in s[1..];
      }
      InsertAscending(c, s[0], SortVisual(c, s[1..]));
    }
  }

  /** Two ascending sequences with the same elements are the same sequence. */
  lemma AscendingUnique(c: Collation, s: seq<Step>, t: seq<Step>)
    requires IsCollation(c) && Ascending(c, s) && Ascending(c, t)
    requires forall m :: m in s <==> m in t
    ensures s == t
  {
    OrderUnique(s, t, (m, n) => Before(c, m, n));
  }

  // ------------------------------------------------------- what the order is

  ghost function Ids(s: seq<Step>): set<string> {
    set n | n in s :: n.id
  }

  lemma IdsOf(s: seq<Step>, n: Step)
    requires n in s
    ensures n.id in Ids(s)
  {
  }

  /** A step whose predecessors have all been done. */
  ghost predicate Ready(nodes: seq<Step>, done: set<string>, n: Step) {
    && n in nodes && n.id !in done
    && forall m :: m in nodes && m.id !in done ==> n.id !in m.nextStepIds
  }

  ghost predicate LeastReady(c: Collation, nodes: seq<Step>, done: set<string>, n: Step) {
    && Ready(nodes, done, n)
    && forall m :: Ready(nodes, done, m) ==> m == n || Before(c, n, m)
  }

  /** Every step is ready when its turn comes. */
  ghost predicate Legal(nodes: seq<Step>, s: seq<Step>) {
    forall i :: 0 <= i < |s| ==> LegalAt(nodes, s, i)
  }

  ghost predicate LegalAt(nodes: seq<Step>, s: seq<Step>, i: nat)
    requires i < |s|
  {
    Ready(nodes, Ids(s[..i]), s[i])
  }

  ghost predicate Greedy(c: Collation, nodes: seq<Step>, s: seq<Step>) {
    forall i :: 0 <= i < |s| ==> GreedyAt(c, nodes, s, i)
  }

  ghost predicate GreedyAt(c: Collation, nodes: seq<Step>, s: seq<Step>, i: nat)
    requires i < |s|
  {
    LeastReady(c, nodes, Ids(s[..i]), s[i])
  }

  ghost predicate Exhausted(nodes: seq<Step>, done: set<string>) {
    forall n :: !Ready(nodes, done, n)
  }

  function Unseen(nodes: seq<Step>, done: set<string>): (r: seq<Step>)
    ensures forall n :: n in r <==> n in nodes && n.id !in done
    ensures DistinctIds(nodes) ==> DistinctIds(r)
    ensures |r| <= |nodes|
  {
    if nodes == [] then []
    else if nodes[0].id in done then Unseen(nodes[1..], done)
    else [nodes[0]] + Unseen(nodes[1..], done)
  }

  /** Take the first ready step on the canvas, again and again, until none is ready. */
  ghost predicate Schedule(c: Collation, nodes: seq<Step>, s: seq<Step>) {
    Greedy(c, nodes, s) && Exhausted(nodes, Ids(s))
  }

  /** The first `k` steps are the schedule; the rest are the steps it never reaches, in
      canvas order. */
  ghost predicate OperationalOrder(c: Collation, nodes: seq<Step>, result: seq<Step>, k: nat) {
    && k <= |result|
    && Schedule(c, nodes, result[..k])
    && result[k..] == SortVisual(c, Unseen(nodes, Ids(result[..k])))
  }

  lemma GreedyStep(c: Collation, nodes: seq<Step>, s: seq<Step>, n: Step)
    requires Greedy(c, nodes, s) && LeastReady(c, nodes, Ids(s), n)
    ensures Greedy(c, nodes, s + [n])
    ensures Ids(s + [n]) == Ids(s) + {n.id}
  {
    var t := s + [n];
    forall i | 0 <= i < |t| ensures GreedyAt(c, nodes, t, i) {
      assert t[..i] == if i < |s| then s[..i] else s;
      assert i < |s| ==> GreedyAt(c, nodes, s, i);
    }
    assert forall m :: m in t <==> m in s || m == n;
    assert n in t;
    forall m | m in s ensures m.id in Ids(t) { assert m in t; }
  }

  // --------------------------------------------------------- counting edges

  /** Occurrences of `id` among the successors of the steps outside `done`. */
  ghost function EdgesInto(nodes: seq<Step>, done: set<string>, id: string): nat {
    if nodes == [] then 0
    else EdgesInto(nodes[..|nodes|-1], done, id)
         + (if nodes[|nodes|-1].id in done then 0 else multiset(nodes[|nodes|-1].nextStepIds)[id])
  }

  lemma {:induction false} NoEdgesInto(nodes: seq<Step>, done: set<string>, id: string)
    ensures EdgesInto(nodes, done, id) == 0
            <==> forall m :: m in nodes && m.id !in done ==> id !in m.nextStepIds
  {
    if nodes != [] {
      NoEdgesInto(nodes[..|nodes|-1], done, id);
      var last := nodes[|nodes|-1];
      assert nodes == nodes[..|nodes|-1] + [last];
      assert id in last.nextStepIds <==> id in multiset(last.nextStepIds);
    }
  }

  lemma {:induction false} EdgesAfterDone(nodes: seq<Step>, done: set<string>, n: Step, id: string)
    requires DistinctIds(nodes) && n.id !in done
    ensures n in nodes ==>
              EdgesInto(nodes, done, id)
              == EdgesInto(nodes, done + {n.id}, id) + multiset(n.nextStepIds)[id]
    ensures n.id !in Ids(nodes) ==> EdgesInto(nodes, done, id) == EdgesInto(nodes, done + {n.id}, id)
  {
    if nodes != [] {
      var init, last := nodes[..|nodes|-1], nodes[|nodes|-1];
      EdgesAfterDone(init, done, n, id);
      assert nodes == init + [last];
      if n in nodes && last == n {
        assert n.id !in Ids(init);
      } else if n in nodes {
        assert n in init && last.id != n.id;
      } else if n.id !in Ids(nodes) {
        assert last in nodes;
        assert last.id != n.id;
        assert forall m :: m in init ==> m in nodes;
      }
    }
  }

  // ------------------------------------------------------------- the method

  ghost predicate CountsInto(nodes: seq<Step>, done: set<string>, incoming: map<string, int>) {
    && incoming.Keys == Ids(nodes)
    && forall id :: id in incoming ==> incoming[id] == EdgesInto(nodes, done, id)
  }

  /** The counts when the edges of `counted` and, besides, those to `taken` have been counted. */
  ghost predicate Counted(nodes: seq<Step>, counted: seq<Step>, taken: seq<string>, incoming: map<string, int>) {
    && incoming.Keys == Ids(nodes)
    && forall id :: id in incoming ==> incoming[id] == EdgesInto(counted, {}, id) + multiset(taken)[id]
  }

  lemma CountEdge(nodes: seq<Step>, counted: seq<Step>, next: seq<string>, j: nat, incoming: map<string, int>)
    requires j < |next| && Counted(nodes, counted, next[..j], incoming)
    ensures Counted(nodes, counted, next[..j+1],
                    if next[j] in incoming then incoming[next[j] := incoming[next[j]] + 1] else incoming)
  {
    assert next[..j+1] == next[..j] + [next[j]];
  }

  lemma CountStep(nodes: seq<Step>, i: nat, incoming: map<string, int>)
    requires i < |nodes| && Counted(nodes, nodes[..i], nodes[i].nextStepIds, incoming)
    ensures Counted(nodes, nodes[..i+1], [], incoming)
  {
    assert nodes[..i+1][..i] == nodes[..i];
  }

  method CountIncoming(nodes: seq<Step>) returns (incoming: map<string, int>)
    ensures CountsInto(nodes, {}, incoming)
  {
    incoming := map[];
    for i := 0 to |nodes|
      invariant incoming.Keys == Ids(nodes[..i])
      invariant forall id :: id in incoming ==> incoming[id] == 0
    {
      assert nodes[..i+1] == nodes[..i] + [nodes[i]];
      incoming := incoming[nodes[i].id := 0];
    }
    assert nodes[..|nodes|] == nodes;
    for i := 0 to |nodes|
      invariant Counted(nodes, nodes[..i], [], incoming)
    {
      var next := nodes[i].nextStepIds;
      for j := 0 to |next|
        invariant Counted(nodes, nodes[..i], next[..j], incoming)
      {
        CountEdge(nodes, nodes[..i], next, j, incoming);
        if next[j] in incoming {
          incoming := incoming[next[j] := incoming[next[j]] + 1];
        }
      }
      assert next[..|next|] == next;
      CountStep(nodes, i, incoming);
    }
  }

  function StepWithId(nodes: seq<Step>, id: string): (n: Step)
    requires exists m :: m in nodes && m.id == id
    ensures n in nodes && n.id == id
  {
    if nodes[|nodes|-1].id == id then nodes[|nodes|-1]
    else
      assert nodes == nodes[..|nodes|-1] + [nodes[|nodes|-1]];
      StepWithId(nodes[..|nodes|-1], id)
  }

  /** The ready list holds exactly the unseen steps whose count is down to zero. */
  ghost predicate ReadyList(c: Collation, nodes: seq<Step>, seen: set<string>,
                            incoming: map<string, int>, ready: seq<Step>)
    requires incoming.Keys == Ids(nodes)
  {
    && Ascending(c, ready)
    && forall n :: n in ready <==> n in nodes && n.id !in seen && incoming[n.id] == 0
  }

  lemma ZeroMeansReady(nodes: seq<Step>, seen: set<string>, incoming: map<string, int>)
    requires CountsInto(nodes, seen, incoming)
    ensures forall n :: Ready(nodes, seen, n) <==> n in nodes && n.id !in seen && incoming[n.id] == 0
  {
    forall n | n in nodes
      ensures incoming[n.id] == 0 <==> forall m :: m in nodes && m.id !in seen ==> n.id !in m.nextStepIds
    {
      NoEdgesInto(nodes, seen, n.id);
    }
  }

  /** Keeping the list sorted when a step is pushed onto it. */
  lemma PushAndSort(c: Collation, nodes: seq<Step>, ready: seq<Step>, n: Step)
    requires IsCollation(c) && Ascending(c, ready)
    requires DistinctIds(nodes) && n in nodes
    requires forall m :: m in ready ==> m in nodes && m != n
    ensures Ascending(c, SortVisual(c, ready + [n]))
    ensures forall m :: m in SortVisual(c, ready + [n]) <==> m in ready || m == n
  {
    forall i, j | 0 <= i < j < |ready + [n]| ensures (ready + [n])[i].id != (ready + [n])[j].id {
      var l, r := (ready + [n])[i], (ready + [n])[j];
      assert l in ready && (j == |ready| || r in ready);
      if j < |ready| { assert Before(c, l, r); }
      assert l != r;
      if l.id == r.id { DistinctIdsAt(nodes, l, r); assert false; }
    }
    SortAscending(c, ready + [n]);
    SortMembers(c, ready + [n]);
  }

  lemma SortMembers(c: Collation, s: seq<Step>)
    ensures forall m :: m in SortVisual(c, s) <==> m in s
  {
    forall m ensures m in SortVisual(c, s) <==> m in s {
      assert m in SortVisual(c, s) <==> m in multiset(SortVisual(c, s));
    }
  }

  lemma OnlyStep(nodes: seq<Step>, n: Step)
    requires DistinctIds(nodes) && n in nodes
    ensures forall m :: m in nodes && m.id == n.id ==> m == n
  {
    forall m | m in nodes && m.id == n.id ensures m == n { DistinctIdsAt(nodes, m, n); }
  }

  /** The counts while the edges `left` of the step just taken are still to be removed. */
  ghost predicate Releasing(nodes: seq<Step>, done: set<string>, left: seq<string>, incoming: map<string, int>) {
    && incoming.Keys == Ids(nodes)
    && (forall id :: id in incoming ==> incoming[id] == EdgesInto(nodes, done, id) + multiset(left)[id])
    && (forall id :: id in done && id in incoming ==> incoming[id] == 0)
  }

  lemma FirstEdge(nodes: seq<Step>, done: set<string>, next: seq<string>, j: nat, incoming: map<string, int>)
    requires j < |next| && Releasing(nodes, done, next[j..], incoming)
    ensures next[j] in incoming ==>
              && next[j] !in done && incoming[next[j]] > 0
              && Releasing(nodes, done, next[j+1..], incoming[next[j] := incoming[next[j]] - 1])
    ensures next[j] !in incoming ==> Releasing(nodes, done, next[j+1..], incoming)
  {
    assert next[j..] == [next[j]] + next[j+1..];
  }

  lemma OwnEdges(nodes: seq<Step>, seen: set<string>, node: Step)
    requires DistinctIds(nodes) && Ready(nodes, seen, node)
    ensures forall id :: EdgesInto(nodes, seen, id)
                         == EdgesInto(nodes, seen + {node.id}, id) + multiset(node.nextStepIds)[id]
    ensures EdgesInto(nodes, seen, node.id) == 0
  {
    NoEdgesInto(nodes, seen, node.id);
    forall id
      ensures EdgesInto(nodes, seen, id)
              == EdgesInto(nodes, seen + {node.id}, id) + multiset(node.nextStepIds)[id]
    {
      EdgesAfterDone(nodes, seen, node, id);
    }
  }

  /** A step whose count has come down to zero joins the ready list. */
  lemma LastEdgeTaken(c: Collation, nodes: seq<Step>, done: set<string>, incoming: map<string, int>,
      ready: seq<Step>, n: Step)
    requires IsCollation(c) && DistinctIds(nodes) && n in nodes && n.id !in done
    requires incoming.Keys == Ids(nodes) && incoming[n.id] == 0
    requires Ascending(c, ready)
    requires forall m :: m in ready <==> m in nodes && m.id !in done && m.id != n.id && incoming[m.id] == 0
    ensures ReadyList(c, nodes, done, incoming, SortVisual(c, ready + [n]))
  {
    OnlyStep(nodes, n);
    PushAndSort(c, nodes, ready, n);
  }

  /** One edge less into `id`: the step joins the ready list, or waits for its other edges. */
  lemma EdgeTaken(c: Collation, nodes: seq<Step>, done: set<string>, incoming: map<string, int>, ready: seq<Step>,
      id: string, fewer: map<string, int>)
    requires IsCollation(c) && DistinctIds(nodes) && incoming.Keys == Ids(nodes)
    requires ReadyList(c, nodes, done, incoming, ready) && id in incoming && id !in done && incoming[id] > 0
    requires fewer == incoming[id := incoming[id] - 1]
    ensures fewer[id] > 0 ==> ReadyList(c, nodes, done, fewer, ready)
    ensures fewer[id] == 0 ==>
              forall n :: n in nodes && n.id == id ==> ReadyList(c, nodes, done, fewer, SortVisual(c, ready + [n]))
  {
    if fewer[id] == 0 {
      forall n | n in nodes && n.id == id ensures ReadyList(c, nodes, done, fewer, SortVisual(c, ready + [n])) {
        LastEdgeTaken(c, nodes, done, fewer, ready, n);
      }
    }
  }

  /** What one turn of the main loop does with the successors of the step just taken. */
  method Release(c: Collation, nodes: seq<Step>, node: Step, ghost seen: set<string>,
                 incoming0: map<string, int>, ready0: seq<Step>)
    returns (incoming: map<string, int>, ready: seq<Step>)
    requires IsCollation(c) && DistinctIds(nodes)
    requires CountsInto(nodes, seen, incoming0)
    requires Ready(nodes, seen, node)
    requires forall id :: id in seen && id in incoming0 ==> incoming0[id] == 0
    requires ReadyList(c, nodes, seen + {node.id}, incoming0, ready0)
    ensures CountsInto(nodes, seen + {node.id}, incoming)
    ensures ReadyList(c, nodes, seen + {node.id}, incoming, ready)
    ensures forall id :: id in seen + {node.id} && id in incoming ==> incoming[id] == 0
  {
    incoming, ready := incoming0, ready0;
    var next := node.nextStepIds;
    ghost var done := seen + {node.id};
    OwnEdges(nodes, seen, node);
    assert next[0..] == next;
    for j := 0 to |next|
      invariant Releasing(nodes, done, next[j..], incoming)
      invariant ReadyList(c, nodes, done, incoming, ready)
    {
      FirstEdge(nodes, done, next, j, incoming);
      if next[j] in incoming {
        EdgeTaken(c, nodes, done, incoming, ready, next[j], incoming[next[j] := incoming[next[j]] - 1]);
        incoming := incoming[next[j] := Max(0, incoming[next[j]] - 1)];
        if incoming[next[j]] == 0 {
          var n := StepWithId(nodes, next[j]);
          ready := SortVisual(c, ready + [n]);
        }
      }
    }
  }

  /** The steps without predecessors, in canvas order. */
  method FirstReady(c: Collation, nodes: seq<Step>, incoming: map<string, int>) returns (ready: seq<Step>)
    requires IsCollation(c) && DistinctIds(nodes) && incoming.Keys == Ids(nodes)
    ensures ReadyList(c, nodes, {}, incoming, ready)
  {
    ready := [];
    for i := 0 to |nodes|
      invariant forall n :: n in ready <==> n in nodes[..i] && incoming[n.id] == 0
      invariant DistinctIds(ready)
    {
      assert nodes[..i+1] == nodes[..i] + [nodes[i]];
      if incoming[nodes[i].id] == 0 {
        ready := ready + [nodes[i]];
      }
    }
    assert nodes[..|nodes|] == nodes;
    SortAscending(c, ready);
    SortMembers(c, ready);
    ready := SortVisual(c, ready);
  }

  /** Takes the first ready step, releases its successors, and goes on until none is ready. */
  method TakeReady(c: Collation, nodes: seq<Step>, incoming0: map<string, int>, ready0: seq<Step>)
    returns (ordered: seq<Step>, seen: set<string>)
    requires IsCollation(c) && DistinctIds(nodes)
    requires CountsInto(nodes, {}, incoming0) && ReadyList(c, nodes, {}, incoming0, ready0)
    ensures Schedule(c, nodes, ordered) && seen == Ids(ordered)
  {
    var incoming, ready := incoming0, ready0;
    ordered, seen := [], {};
    while ready != []
      invariant CountsInto(nodes, seen, incoming)
      invariant ReadyList(c, nodes, seen, incoming, ready)
      invariant seen == Ids(ordered) && seen <= Ids(nodes)
      invariant forall id :: id in seen ==> incoming[id] == 0
      invariant Greedy(c, nodes, ordered)
      decreases Ids(nodes) - seen, |ready|
    {
      var node := ready[0];
      FirstIsLeast(c, nodes, seen, incoming, ready);
      ready := ready[1..];
      if node.id !in seen {
        incoming, ready := Release(c, nodes, node, seen, incoming, ready);
        GreedyStep(c, nodes, ordered, node);
        seen := seen + {node.id};
        ordered := ordered + [node];
      }
    }
    ZeroMeansReady(nodes, seen, incoming);
  }

  /** The head of the ready list is the step to take, and the rest is the list without it. */
  lemma FirstIsLeast(c: Collation, nodes: seq<Step>, seen: set<string>, incoming: map<string, int>, ready: seq<Step>)
    requires IsCollation(c) && DistinctIds(nodes) && CountsInto(nodes, seen, incoming)
    requires ReadyList(c, nodes, seen, incoming, ready) && ready != []
    ensures LeastReady(c, nodes, seen, ready[0]) && ready[0].id !in seen && ready[0].id in Ids(nodes)
    ensures ReadyList(c, nodes, seen + {ready[0].id}, incoming, ready[1..])
  {
    ZeroMeansReady(nodes, seen, incoming);
    HeadIsLeast(c, ready);
    IdsOf(nodes, ready[0]);
    OnlyStep(nodes, ready[0]);
  }

  lemma HeadIsLeast(c: Collation, s: seq<Step>)
    requires IsCollation(c) && Ascending(c, s) && s != []
    ensures forall m :: m in s ==> m == s[0] || Before(c, s[0], m)
    ensures forall m :: m in s[1..] <==> m in s && m != s[0]
  {
    assert s == [s[0]] + s[1..];
    forall m | m in s[1..] ensures m != s[0] {
      var i :| 1 <= i < |s| && s[i] == m;
      assert Before(c, s[0], s[i]);
      BeforeDiffers(c, s[0], m);
    }
  }

  lemma BeforeDiffers(c: Collation, m: Step, n: Step)
    requires IsCollation(c) && Before(c, m, n)
    ensures m != n
  {
  }

  /** `workflowOperationalSteps`.  `fallback` is what the payroll workstream shows when the
      template has no steps. */
  method OperationalSteps(c: Collation, nodes: seq<Step>, fallback: seq<Step>) returns (result: seq<Step>)
    requires IsCollation(c) && DistinctIds(nodes)
    ensures nodes == [] ==> result == fallback
    ensures nodes != [] ==> exists k :: OperationalOrder(c, nodes, result, k)
  {
    if nodes == [] {
      return fallback;
    }
    var incoming := CountIncoming(nodes);
    var ready := FirstReady(c, nodes, incoming);
    var ordered, seen := TakeReady(c, nodes, incoming, ready);
    result := ordered + SortVisual(c, Unseen(nodes, seen));
    assert result[..|ordered|] == ordered;
    assert OperationalOrder(c, nodes, result, |ordered|);
  }

  // ------------------------------------------------------- what it promises

  lemma LegalDistinct(nodes: seq<Step>, s: seq<Step>)
    requires Legal(nodes, s)
    ensures DistinctIds(s)
    ensures forall n :: n in s ==> n in nodes
  {
    forall i, j | 0 <= i < j < |s| ensures s[i].id != s[j].id {
      assert LegalAt(nodes, s, j);
      IdsOf(s[..j], s[i]);
    }
    forall n | n in s ensures n in nodes {
      var i :| 0 <= i < |s| && s[i] == n;
      assert LegalAt(nodes, s, i);
    }
  }

  lemma GreedyLegal(c: Collation, nodes: seq<Step>, s: seq<Step>)
    requires Greedy(c, nodes, s)
    ensures Legal(nodes, s)
  {
    forall i | 0 <= i < |s| ensures LegalAt(nodes, s, i) {
      assert GreedyAt(c, nodes, s, i);
    }
  }

  lemma {:induction false} DistinctMultiset(s: seq<Step>, t: seq<Step>)
    requires DistinctIds(s) && DistinctIds(t)
    requires forall n :: n in s <==> n in t
    ensures multiset(s) == multiset(t)
  {
    MultisetOfDistinct(s);
    MultisetOfDistinct(t);
    forall n ensures multiset(s)[n] == multiset(t)[n] {
      assert n in multiset(s) <==> n in s;
      assert n in multiset(t) <==> n in t;
    }
  }

  lemma {:induction false} MultisetOfDistinct(s: seq<Step>)
    requires DistinctIds(s)
    ensures forall n :: n in s ==> multiset(s)[n] == 1
  {
    if s != [] {
      var init := s[..|s|-1];
      MultisetOfDistinct(init);
      assert s == init + [s[|s|-1]];
      assert s[|s|-1] !in init;
    }
  }

  /** Nothing is lost and nothing is repeated, whatever the graph. */
  lemma OrderIsPermutation(c: Collation, nodes: seq<Step>, result: seq<Step>, k: nat)
    requires DistinctIds(nodes) && OperationalOrder(c, nodes, result, k)
    ensures multiset(result) == multiset(nodes)
  {
    ScheduledSteps(c, nodes, result[..k]);
    Permuted(nodes, result[..k], result[k..]);
    Glue(result, k);
  }

  lemma Glue(s: seq<Step>, k: nat)
    requires k <= |s|
    ensures s == s[..k] + s[k..]
  {
  }

  lemma ScheduledSteps(c: Collation, nodes: seq<Step>, s: seq<Step>)
    requires Greedy(c, nodes, s)
    ensures DistinctIds(s) && forall n :: n in s ==> n in nodes
  {
    GreedyLegal(c, nodes, s);
    LegalDistinct(nodes, s);
  }

  lemma Permuted(nodes: seq<Step>, first: seq<Step>, tail: seq<Step>)
    requires DistinctIds(nodes) && DistinctIds(first) && forall n :: n in first ==> n in nodes
    requires multiset(tail) == multiset(Unseen(nodes, Ids(first)))
    ensures multiset(first + tail) == multiset(nodes)
  {
    Together(nodes, first);
    DistinctMultiset(first + Unseen(nodes, Ids(first)), nodes);
  }

  /** Distinct steps and the steps unseen besides them are all the steps. */
  lemma Together(nodes: seq<Step>, first: seq<Step>)
    requires DistinctIds(nodes) && DistinctIds(first) && forall n :: n in first ==> n in nodes
    ensures DistinctIds(first + Unseen(nodes, Ids(first)))
    ensures forall n :: n in first + Unseen(nodes, Ids(first)) <==> n in nodes
  {
    var rest := Unseen(nodes, Ids(first));
    var both := first + rest;
    forall i, j | 0 <= i < j < |both| ensures both[i].id != both[j].id {
      if i < |first| <= j {
        IdsOf(first, both[i]);
        assert both[j] in rest;
      }
    }
    forall n | n in nodes ensures n in both {
      if n.id in Ids(first) {
        var m :| m in first && m.id == n.id;
        DistinctIdsAt(nodes, m, n);
      }
    }
  }

  /** Every edge into a scheduled step comes from a step scheduled earlier; in particular
      no edge runs from the tail back into the schedule. */
  lemma EdgesPointForward(c: Collation, nodes: seq<Step>, s: seq<Step>, m: Step, i: nat)
    requires DistinctIds(nodes) && Schedule(c, nodes, s)
    requires m in nodes && i < |s| && s[i].id in m.nextStepIds
    ensures exists j :: 0 <= j < i && s[j] == m
  {
    assert GreedyAt(c, nodes, s, i);
    assert m.id in Ids(s[..i]);
    var p :| p in s[..i] && p.id == m.id;
    GreedyLegal(c, nodes, s);
    LegalDistinct(nodes, s);
    DistinctIdsAt(nodes, p, m);
  }

  ghost predicate FirstDifferenceBefore(c: Collation, s: seq<Step>, t: seq<Step>) {
    exists i :: 0 <= i < |s| && i < |t| && s[..i] == t[..i] && Before(c, s[i], t[i])
  }

  /** Among all orders in which every step comes after its predecessors, the schedule is the
      lexicographically least under the canvas order, and the longest. */
  lemma {:induction false} ScheduleIsLeast(c: Collation, nodes: seq<Step>, s: seq<Step>, other: seq<Step>, from: nat)
    requires Schedule(c, nodes, s) && Legal(nodes, other)
    requires from <= |s| && from <= |other| && other[..from] == s[..from]
    ensures other <= s || FirstDifferenceBefore(c, s, other)
    decreases |s| - from
  {
    assert s[..|s|] == s;
    if from < |other| {
      assert LegalAt(nodes, other, from);
      assert from < |s| ==> GreedyAt(c, nodes, s, from);
      if other[from] == s[from] {
        assert other[..from+1] == other[..from] + [other[from]];
        assert s[..from+1] == s[..from] + [s[from]];
        ScheduleIsLeast(c, nodes, s, other, from + 1);
      }
    } else {
      assert other == other[..from];
    }
  }

  // ----------------------------------------------------------------- cycles

  ghost predicate Walk(nodes: seq<Step>, w: seq<Step>) {
    && |w| >= 2
    && (forall i :: 0 <= i < |w| ==> w[i] in nodes)
    && (forall i :: 0 <= i < |w| - 1 ==> w[i+1].id in w[i].nextStepIds)
  }

  /** There is a walk along at least one edge from `a` to `b`. */
  ghost predicate Leads(nodes: seq<Step>, a: Step, b: Step) {
    exists w :: Walk(nodes, w) && w[0] == a && w[|w|-1] == b
  }

  /** `n` lies on a cycle or behind one. */
  ghost predicate BehindCycle(nodes: seq<Step>, n: Step) {
    exists a :: Leads(nodes, a, a) && Leads(nodes, a, n)
  }

  lemma LeadsByEdge(nodes: seq<Step>, a: Step, b: Step)
    requires a in nodes && b in nodes && b.id in a.nextStepIds
    ensures Leads(nodes, a, b)
  {
    assert Walk(nodes, [a, b]);
  }

  lemma LeadsTransitive(nodes: seq<Step>, a: Step, b: Step, d: Step)
    requires Leads(nodes, a, b) && Leads(nodes, b, d)
    ensures Leads(nodes, a, d)
  {
    var v :| Walk(nodes, v) && v[0] == a && v[|v|-1] == b;
    var w :| Walk(nodes, w) && w[0] == b && w[|w|-1] == d;
    var u: seq<Step> := v + w[1..];
    forall i | 0 <= i < |u| - 1 ensures u[i+1].id in u[i].nextStepIds {
      if i >= |v| - 1 {
        assert u[i] == w[i - |v| + 1] && u[i+1] == w[i - |v| + 2];
      } else {
        assert u[i] == v[i] && u[i+1] == v[i+1];
      }
    }
    assert Walk(nodes, u);
  }

  /** A walk that ends in a scheduled step stays in the schedule and goes strictly forward. */
  lemma {:induction false} WalkIntoSchedule(c: Collation, nodes: seq<Step>, s: seq<Step>, w: seq<Step>, i: nat)
    requires DistinctIds(nodes) && Schedule(c, nodes, s)
    requires Walk(nodes, w) && i < |s| && w[|w|-1] == s[i]
    ensures exists j :: 0 <= j < i && s[j] == w[0]
    decreases |w|
  {
    var v, m := w[..|w|-1], w[|w|-2];
    assert w[|w|-2 + 1].id in m.nextStepIds;
    EdgesPointForward(c, nodes, s, m, i);
    var j :| 0 <= j < i && s[j] == m;
    if |w| > 2 {
      WalkPrefix(nodes, w);
      WalkIntoSchedule(c, nodes, s, v, j);
    }
  }

  lemma WalkPrefix(nodes: seq<Step>, w: seq<Step>)
    requires Walk(nodes, w) && |w| > 2
    ensures Walk(nodes, w[..|w|-1])
  {
    var v := w[..|w|-1];
    forall i | 0 <= i < |v| - 1 ensures v[i+1].id in v[i].nextStepIds {
      assert w[i+1].id in w[i].nextStepIds;
    }
  }

  ghost function Ancestors(nodes: seq<Step>, n: Step): set<Step> {
    set m | m in nodes && Leads(nodes, m, n)
  }

  /** Walking back from a step that never becomes ready must run into a cycle. */
  lemma {:induction false} NeverReadyBehindCycle(nodes: seq<Step>, done: set<string>, n: Step)
    requires DistinctIds(nodes) && Exhausted(nodes, done)
    requires n in nodes && n.id !in done
    ensures BehindCycle(nodes, n)
    decreases Ancestors(nodes, n)
  {
    assert !Ready(nodes, done, n);
    var m :| m in nodes && m.id !in done && n.id in m.nextStepIds;
    LeadsByEdge(nodes, m, n);
    if !Leads(nodes, m, m) {
      forall a | a in Ancestors(nodes, m) ensures a in Ancestors(nodes, n) {
        LeadsTransitive(nodes, a, m, n);
      }
      assert m in Ancestors(nodes, n) && m !in Ancestors(nodes, m);
      NeverReadyBehindCycle(nodes, done, m);
      var a :| Leads(nodes, a, a) && Leads(nodes, a, m);
      LeadsTransitive(nodes, a, m, n);
    }
  }

  lemma ScheduledNotBehindCycle(c: Collation, nodes: seq<Step>, s: seq<Step>, n: Step)
    requires DistinctIds(nodes) && Schedule(c, nodes, s) && n in s
    ensures !BehindCycle(nodes, n)
  {
    if BehindCycle(nodes, n) {
      var a :| Leads(nodes, a, a) && Leads(nodes, a, n);
      var i :| 0 <= i < |s| && s[i] == n;
      var w :| Walk(nodes, w) && w[0] == a && w[|w|-1] == n;
      WalkIntoSchedule(c, nodes, s, w, i);
      var j :| 0 <= j < i && s[j] == a;
      var v :| Walk(nodes, v) && v[0] == a && v[|v|-1] == a;
      WalkIntoSchedule(c, nodes, s, v, j);
      GreedyLegal(c, nodes, s);
      LegalDistinct(nodes, s);
      assert false;
    }
  }

  /** The main loop emits exactly the steps that are neither on a cycle nor behind one. */
  lemma TailIsBehindCycles(c: Collation, nodes: seq<Step>, result: seq<Step>, k: nat, n: Step)
    requires DistinctIds(nodes) && OperationalOrder(c, nodes, result, k)
    requires n in nodes
    ensures n in result[k..] <==> BehindCycle(nodes, n)
    ensures n in result[..k] <==> !BehindCycle(nodes, n)
  {
    var s := result[..k];
    SortMembers(c, Unseen(nodes, Ids(s)));
    GreedyLegal(c, nodes, s);
    LegalDistinct(nodes, s);
    if n.id in Ids(s) {
      var m :| m in s && m.id == n.id;
      DistinctIdsAt(nodes, m, n);
      ScheduledNotBehindCycle(c, nodes, s, n);
    } else {
      NeverReadyBehindCycle(nodes, Ids(s), n);
    }
  }

  /** There is a tail exactly when the graph has a cycle. */
  lemma TailIffCycle(c: Collation, nodes: seq<Step>, result: seq<Step>, k: nat)
    requires DistinctIds(nodes) && OperationalOrder(c, nodes, result, k)
    ensures k < |result| <==> exists a :: Leads(nodes, a, a)
  {
    OrderIsPermutation(c, nodes, result, k);
    if k < |result| {
      var n := result[k];
      assert n in result[k..] && n in multiset(result);
      TailIsBehindCycles(c, nodes, result, k, n);
    }
    if a :| Leads(nodes, a, a) {
      TailIsBehindCycles(c, nodes, result, k, a);
    }
  }

  /** On a graph without cycles the result is a topological order of all the steps, and the
      lexicographically least one under the canvas order. */
  lemma AcyclicOrder(c: Collation, nodes: seq<Step>, result: seq<Step>, k: nat)
    requires DistinctIds(nodes) && OperationalOrder(c, nodes, result, k)
    requires forall a :: !Leads(nodes, a, a)
    ensures multiset(result) == multiset(nodes)
    ensures forall i, j :: 0 <= i < |result| && 0 <= j < |result| && result[j].id in result[i].nextStepIds ==> i < j
    ensures forall other :: Legal(nodes, other) && |other| == |nodes| && other != result ==>
              FirstDifferenceBefore(c, result, other)
  {
    OrderIsPermutation(c, nodes, result, k);
    assert |result| == |multiset(result)| == |multiset(nodes)| == |nodes|;
    TailIffCycle(c, nodes, result, k);
    assert result[..k] == result;
    GreedyLegal(c, nodes, result);
    LegalDistinct(nodes, result);
    forall i, j | 0 <= i < |result| && 0 <= j < |result| && result[j].id in result[i].nextStepIds
      ensures i < j
    {
      EdgesPointForward(c, nodes, result, result[i], j);
    }
    forall other | Legal(nodes, other) && |other| == |nodes| && other != result
      ensures FirstDifferenceBefore(c, result, other)
    {
      ScheduleIsLeast(c, nodes, result, other, 0);
    }
  }

  /** Once the steps stand on the canvas, the order depends on the set of them only. */
  lemma StepsFixTheOrder(c: Collation, nodes: seq<Step>, nodes': seq<Step>,
                         result: seq<Step>, result': seq<Step>, k: nat, k': nat)
    requires IsCollation(c) && DistinctIds(nodes) && DistinctIds(nodes')
    requires forall n :: n in nodes <==> n in nodes'
    requires OperationalOrder(c, nodes, result, k) && OperationalOrder(c, nodes', result', k')
    ensures result == result' && k == k'
  {
    ScheduleUnique(c, nodes, nodes', result[..k], result'[..k'], 0);
    SameTail(c, nodes, nodes', Ids(result[..k]));
    Glue(result, k);
    Glue(result', k');
  }

  lemma SameMembers(s: seq<Step>, t: seq<Step>)
    requires multiset(s) == multiset(t)
    ensures forall n :: n in s <==> n in t
  {
    forall n ensures n in s <==> n in t {
      assert n in s <==> n in multiset(s);
      assert n in t <==> n in multiset(t);
    }
  }

  lemma SameTail(c: Collation, nodes: seq<Step>, nodes': seq<Step>, done: set<string>)
    requires IsCollation(c) && DistinctIds(nodes) && DistinctIds(nodes') && forall n :: n in nodes <==> n in nodes'
    ensures SortVisual(c, Unseen(nodes, done)) == SortVisual(c, Unseen(nodes', done))
  {
    SameSort(c, Unseen(nodes, done), Unseen(nodes', done));
  }

  lemma SameSort(c: Collation, s: seq<Step>, t: seq<Step>)
    requires IsCollation(c) && DistinctIds(s) && DistinctIds(t)
    requires forall n :: n in s <==> n in t
    ensures SortVisual(c, s) == SortVisual(c, t)
  {
    SortAscending(c, s);
    SortAscending(c, t);
    SortMembers(c, s);
    SortMembers(c, t);
    AscendingUnique(c, SortVisual(c, s), SortVisual(c, t));
  }

  lemma {:induction false} ScheduleUnique(c: Collation, nodes: seq<Step>, nodes': seq<Step>,
                                          s: seq<Step>, s': seq<Step>, from: nat)
    requires IsCollation(c)
    requires forall n :: n in nodes <==> n in nodes'
    requires Schedule(c, nodes, s) && Schedule(c, nodes', s')
    requires from <= |s| && from <= |s'| && s[..from] == s'[..from]
    ensures s == s'
    decreases |s| - from
  {
    assert s[..|s|] == s && s'[..|s'|] == s';
    var done := Ids(s[..from]);
    assert forall n :: Ready(nodes, done, n) <==> Ready(nodes', done, n);
    if from < |s'| {
      assert GreedyAt(c, nodes', s', from);
      assert Ready(nodes, done, s'[from]);
    }
    if from < |s| {
      assert GreedyAt(c, nodes, s, from);
      assert Ready(nodes', done, s[from]);
      assert s[from] == s'[from];
      assert s[..from+1] == s[..from] + [s[from]];
      assert s'[..from+1] == s'[..from] + [s'[from]];
      ScheduleUnique(c, nodes, nodes', s, s', from + 1);
    }
  }
}
