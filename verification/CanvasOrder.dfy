/** The operational order in the words of the canvas: rows from top to bottom, columns from left
    to right, ids by their collation. */
module CanvasOrder {
  import opened WorkflowOrder
  import opened WorkflowTemplate

  /** Before its own row, or its column in that row, or its id at that place, comes nothing. */
  lemma ReadsDown(c: Collation, m: Step, n: Step)
    requires Before(c, m, n)
    ensures m.positionY <= n.positionY
    ensures m.positionY == n.positionY ==> m.positionX <= n.positionX
    ensures m.positionY == n.positionY && m.positionX == n.positionX ==> c(m.id, n.id) < 0
  {
  }

  /** Of two steps of the schedule of which the later was ready when the earlier one was taken,
      because every edge into it comes from steps taken before, the earlier stands higher, or
      further left in the same row, or has the smaller id at the same place. */
  lemma ReadyReadsDown(c: Collation, nodes: seq<Step>, result: seq<Step>, k: nat, i: nat, j: nat)
    requires IsCollation(c) && DistinctIds(nodes) && OperationalOrder(c, nodes, result, k) && i < j < k
    requires forall m :: m in nodes && result[j].id in m.nextStepIds ==> m in result[..i]
    ensures result[i].positionY <= result[j].positionY
    ensures result[i].positionY == result[j].positionY ==> result[i].positionX <= result[j].positionX
    ensures result[i].positionY == result[j].positionY && result[i].positionX == result[j].positionX ==>
              c(result[i].id, result[j].id) < 0
  {
    assert result[..k][..i] == result[..i];
    ScheduleReadsDown(c, nodes, result[..k], i, j);
    ReadsDown(c, result[i], result[j]);
  }

  lemma ScheduleReadsDown(c: Collation, nodes: seq<Step>, s: seq<Step>, i: nat, j: nat)
    requires IsCollation(c) && DistinctIds(nodes) && Greedy(c, nodes, s) && i < j < |s|
    requires forall m :: m in nodes && s[j].id in m.nextStepIds ==> m in s[..i]
    ensures Before(c, s[i], s[j])
  {
    ReadyAt(c, nodes, s, i, j);
    assert GreedyAt(c, nodes, s, i);
  }

  lemma ReadyAt(c: Collation, nodes: seq<Step>, s: seq<Step>, i: nat, j: nat)
    requires DistinctIds(nodes) && Greedy(c, nodes, s) && i < j < |s|
    requires forall m :: m in nodes && s[j].id in m.nextStepIds ==> m in s[..i]
    ensures Ready(nodes, Ids(s[..i]), s[j]) && s[j] != s[i]
  {
    ScheduledSteps(c, nodes, s);
    assert s[j] in s;
    assert s[..i] == s[..i];
    forall m | m in nodes && s[j].id in m.nextStepIds ensures m.id in Ids(s[..i]) {
      IdsOf(s[..i], m);
    }
  }

  /** The steps on and behind cycles follow in the same order. */
  lemma TailReadsDown(c: Collation, nodes: seq<Step>, result: seq<Step>, k: nat, i: nat, j: nat)
    requires IsCollation(c) && DistinctIds(nodes) && OperationalOrder(c, nodes, result, k) && k <= i < j < |result|
    ensures result[i].positionY <= result[j].positionY
    ensures result[i].positionY == result[j].positionY ==> result[i].positionX <= result[j].positionX
    ensures result[i].positionY == result[j].positionY && result[i].positionX == result[j].positionX ==>
              c(result[i].id, result[j].id) < 0
  {
    var tail := result[k..];
    SortAscending(c, Unseen(nodes, Ids(result[..k])));
    assert Before(c, tail[i - k], tail[j - k]);
    ReadsDown(c, result[i], result[j]);
  }

  ghost predicate Unconnected(nodes: seq<Step>) {
    forall m, n :: m in nodes && n in nodes ==> n.id !in m.nextStepIds
  }

  /** Without edges the result is the canvas read from top to bottom and from left to right. */
  lemma UnconnectedReadsDown(c: Collation, nodes: seq<Step>, result: seq<Step>, k: nat, i: nat, j: nat)
    requires IsCollation(c) && DistinctIds(nodes) && OperationalOrder(c, nodes, result, k) && i < j < |result|
    requires Unconnected(nodes)
    ensures result[i].positionY <= result[j].positionY
    ensures result[i].positionY == result[j].positionY ==> result[i].positionX <= result[j].positionX
    ensures result[i].positionY == result[j].positionY && result[i].positionX == result[j].positionX ==>
              c(result[i].id, result[j].id) < 0
  {
    NothingLeft(c, nodes, result, k);
    ScheduledSteps(c, nodes, result[..k]);
    assert result[j] == result[..k][j];
    ReadyReadsDown(c, nodes, result, k, i, j);
  }

  lemma NothingLeft(c: Collation, nodes: seq<Step>, result: seq<Step>, k: nat)
    requires DistinctIds(nodes) && OperationalOrder(c, nodes, result, k) && Unconnected(nodes)
    ensures k == |result|
  {
    TailIffCycle(c, nodes, result, k);
    if a :| Leads(nodes, a, a) {
      var w :| Walk(nodes, w) && w[0] == a && w[|w|-1] == a;
      NoWalk(nodes, w);
    }
  }

  lemma NoWalk(nodes: seq<Step>, w: seq<Step>)
    requires Unconnected(nodes)
    ensures !Walk(nodes, w)
  {
    var i := 0;
    if |w| >= 2 && w[0] in nodes && w[1] in nodes {
      assert w[i+1].id !in w[i].nextStepIds;
    }
  }

  // -------------------------------------------------------- of a template

  /** Where the step listed at `p` stands: in its own row, or else ten further down for every
      place in the list, and in its own column, or else in that of its lane; zero is no place. */
  predicate StandsAt(template: seq<Listed>, p: nat, row: real, column: real)
    requires p < |template|
  {
    var own, across := template[p].positionY, template[p].positionX;
    && ((own.Some? && own.value < 0.0) || (own.Some? && own.value > 0.0) ==> row == own.value)
    && (own.None? || own.value == 0.0 ==> row == 10.0 + 10.0 * p as real)
    && ((across.Some? && across.value < 0.0) || (across.Some? && across.value > 0.0) ==> column == across.value)
    && (across.None? || across.value == 0.0 ==> column == template[p].column)
  }

  /** Of a template without edges, the step in the higher row, or further left in the same row,
      is shown first, and every enabled step with an id is shown. */
  lemma TemplateReadsDown(c: Collation, template: seq<Listed>, result: seq<Step>, k: nat,
                          p: nat, row: real, column: real, q: nat, row': real, column': real)
    returns (i: nat, j: nat)
    requires IsCollation(c) && ShownOnce(template) && OperationalOrder(c, TemplateNodes(c, template), result, k)
    requires forall o :: o in template ==> o.nextStepIds == []
    requires p < |template| && template[p].enabled && template[p].id != "" && StandsAt(template, p, row, column)
    requires q < |template| && template[q].enabled && template[q].id != "" && StandsAt(template, q, row', column')
    requires row < row' || (row == row' && column < column')
    ensures i < j < |result| && result[i].id == template[p].id && result[j].id == template[q].id
  {
    var m, n := Placed(template[p], p), Placed(template[q], q);
    ShownSomewhere(c, template, result, k, p);
    ShownSomewhere(c, template, result, k, q);
    PlacedStands(template, p, row, column);
    PlacedStands(template, q, row', column');
    TemplateUnconnected(c, template);
    NodesDistinct(c, template);
    i, j := FirstShown(c, TemplateNodes(c, template), result, k, m, n);
  }

  lemma PlacedStands(template: seq<Listed>, p: nat, row: real, column: real)
    requires p < |template| && StandsAt(template, p, row, column)
    ensures Placed(template[p], p).positionY == row && Placed(template[p], p).positionX == column
  {
  }

  lemma ShownSomewhere(c: Collation, template: seq<Listed>, result: seq<Step>, k: nat, p: nat)
    requires IsCollation(c) && ShownOnce(template) && OperationalOrder(c, TemplateNodes(c, template), result, k)
    requires p < |template| && template[p].enabled && template[p].id != ""
    ensures Placed(template[p], p) in result
  {
    assert ShownAt(template, p, Placed(template[p], p));
    ShownFrom(template, Placed(template[p], p));
    ShownMembers(c, template, result, k);
  }

  lemma FirstShown(c: Collation, nodes: seq<Step>, result: seq<Step>, k: nat, m: Step, n: Step)
    returns (i: nat, j: nat)
    requires IsCollation(c) && DistinctIds(nodes) && OperationalOrder(c, nodes, result, k) && Unconnected(nodes)
    requires m in result && n in result
    requires m.positionY < n.positionY || (m.positionY == n.positionY && m.positionX < n.positionX)
    ensures i < j < |result| && result[i] == m && result[j] == n
  {
    i :| 0 <= i < |result| && result[i] == m;
    j :| 0 <= j < |result| && result[j] == n;
    if j < i {
      UnconnectedReadsDown(c, nodes, result, k, j, i);
    }
  }

  lemma TemplateUnconnected(c: Collation, template: seq<Listed>)
    requires IsCollation(c) && ShownOnce(template) && forall o :: o in template ==> o.nextStepIds == []
    ensures Unconnected(TemplateNodes(c, template))
  {
    NodesDistinct(c, template);
    forall n | n in TemplateNodes(c, template) ensures n.nextStepIds == [] {
      ShownFrom(template, n);
      var i: nat :| ShownAt(template, i, n);
      assert template[i] in template;
    }
  }

  /** Exactly the enabled steps with an id are shown, with the edges the template gives them. */
  lemma ShownExactly(c: Collation, template: seq<Listed>, result: seq<Step>, k: nat, id: string, next: seq<string>)
    requires IsCollation(c) && ShownOnce(template) && OperationalOrder(c, TemplateNodes(c, template), result, k)
    ensures (exists n :: n in result && n.id == id && n.nextStepIds == next) <==>
              id != "" && exists o :: o in template && o.enabled && o.id == id && o.nextStepIds == next
  {
    ShownMembers(c, template, result, k);
    if n :| n in result && n.id == id && n.nextStepIds == next {
      ShownFrom(template, n);
      var i: nat :| ShownAt(template, i, n);
      assert template[i] in template;
    }
    if o :| o in template && o.enabled && o.id == id && o.nextStepIds == next && id != "" {
      var p :| 0 <= p < |template| && template[p] == o;
      ShownSomewhere(c, template, result, k, p);
    }
  }
}
