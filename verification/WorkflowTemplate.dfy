/** Where the steps of a workflow template stand on the canvas, and what the listing of the
    template has to do with the order shown. */
module WorkflowTemplate {
  import opened Options
  import opened WorkflowOrder

  /** A step as the template lists it; `column` is where its lane stands. */
  datatype Listed = Listed(
    id: string, enabled: bool, positionX: Option<real>, positionY: Option<real>, column: real, nextStepIds: seq<string>)
  {
    predicate Shown() {
      enabled && id != ""
    }

    /** A vertical position of its own; zero is taken for none. */
    predicate HasRow() {
      positionY.Some? && positionY.value != 0.0
    }

    predicate HasColumn() {
      positionX.Some? && positionX.value != 0.0
    }
  }

  /** A step without a row of its own is put where its place in the listing says. */
  function Placed(listed: Listed, index: nat): Step {
    Step(listed.id, if listed.HasColumn() then listed.positionX.value else listed.column,
         if listed.HasRow() then listed.positionY.value else (index + 1) as real * 10.0, listed.nextStepIds)
  }

  function ShownSteps(template: seq<Listed>): (s: seq<Step>)
    ensures |s| <= |template|
  {
    if template == [] then []
    else
      var index := |template| - 1;
      ShownSteps(template[..index]) + if template[index].Shown() then [Placed(template[index], index)] else []
  }

  /** `workflowTemplateNodes` */
  function TemplateNodes(c: Collation, template: seq<Listed>): seq<Step> {
    SortVisual(c, ShownSteps(template))
  }

  ghost predicate ShownOnce(template: seq<Listed>) {
    DistinctIds(ShownSteps(template))
  }

  /** The step that the template lists at `i` is shown as `n`. */
  predicate ShownAt(template: seq<Listed>, i: nat, n: Step) {
    i < |template| && template[i].Shown() && n == Placed(template[i], i)
  }

  lemma {:induction false} ShownFrom(template: seq<Listed>, n: Step)
    ensures n in ShownSteps(template) <==> exists i: nat :: ShownAt(template, i, n)
  {
    if template != [] {
      var last := |template| - 1;
      var init := template[..last];
      ShownFrom(init, n);
      if i: nat :| ShownAt(init, i, n) { assert ShownAt(template, i, n); }
      if i: nat :| ShownAt(template, i, n) { assert if i < last then ShownAt(init, i, n) else i == last; }
      assert template[last].Shown() ==> ShownAt(template, last, Placed(template[last], last));
    }
  }

  lemma NodesDistinct(c: Collation, template: seq<Listed>)
    requires IsCollation(c) && ShownOnce(template)
    ensures DistinctIds(TemplateNodes(c, template))
    ensures forall n :: n in TemplateNodes(c, template) <==> n in ShownSteps(template)
  {
    var s := ShownSteps(template);
    var nodes := SortVisual(c, s);
    SortMembers(c, s);
    SortAscending(c, s);
    forall i, j | 0 <= i < j < |nodes| ensures nodes[i].id != nodes[j].id {
      assert nodes[i] in s && nodes[j] in s;
      BeforeDiffers(c, nodes[i], nodes[j]);
      if nodes[i].id == nodes[j].id { DistinctIdsAt(s, nodes[i], nodes[j]); }
    }
  }

  // ------------------------------------------------- one listing or another

  /** Every shown step without a row of its own stands at the same place in both listings. */
  ghost predicate Unmoved(template: seq<Listed>, template': seq<Listed>) {
    forall i, j :: 0 <= i < |template| && 0 <= j < |template'| ==> StaysAt(template, i, template', j)
  }

  predicate StaysAt(template: seq<Listed>, i: nat, template': seq<Listed>, j: nat)
    requires i < |template| && j < |template'|
  {
    template[i] == template'[j] && template[i].Shown() && !template[i].HasRow() ==> i == j
  }

  lemma SameStepsIfUnmoved(template: seq<Listed>, template': seq<Listed>, n: Step)
    requires Unmoved(template, template') && (forall l :: l in template ==> l in template')
    requires n in ShownSteps(template)
    ensures n in ShownSteps(template')
  {
    ShownFrom(template, n);
    var i: nat :| ShownAt(template, i, n);
    assert template[i] in template';
    var j :| 0 <= j < |template'| && template'[j] == template[i];
    assert StaysAt(template, i, template', j);
    assert ShownAt(template', j, n);
    ShownFrom(template', n);
  }

  lemma UnmovedBack(template: seq<Listed>, template': seq<Listed>)
    requires Unmoved(template, template')
    ensures Unmoved(template', template)
  {
    forall j, i | 0 <= j < |template'| && 0 <= i < |template| ensures StaysAt(template', j, template, i) {
      assert StaysAt(template, i, template', j);
    }
  }

  lemma UnmovedIfSameSteps(template: seq<Listed>, template': seq<Listed>, i: nat, j: nat)
    requires ShownOnce(template') && (forall n :: n in ShownSteps(template) ==> n in ShownSteps(template'))
    requires i < |template| && j < |template'|
    ensures StaysAt(template, i, template', j)
  {
    if template[i] == template'[j] && template[i].Shown() && !template[i].HasRow() {
      var n, n' := Placed(template[i], i), Placed(template'[j], j);
      assert ShownAt(template, i, n) && ShownAt(template', j, n');
      ShownFrom(template, n);
      ShownFrom(template', n');
      DistinctIdsAt(ShownSteps(template'), n, n');
      assert n.positionY == n'.positionY;
    }
  }

  /** Two listings of the same template steps are shown alike, positions included, exactly when
      every shown step without a row of its own stands at the same place in both. */
  lemma ListingMattersIff(c: Collation, template: seq<Listed>, template': seq<Listed>,
                          result: seq<Step>, result': seq<Step>, k: nat, k': nat)
    requires IsCollation(c) && ShownOnce(template) && ShownOnce(template')
    requires forall l :: l in template <==> l in template'
    requires OperationalOrder(c, TemplateNodes(c, template), result, k)
    requires OperationalOrder(c, TemplateNodes(c, template'), result', k')
    ensures result == result' <==> Unmoved(template, template')
  {
    var nodes, nodes' := TemplateNodes(c, template), TemplateNodes(c, template');
    NodesDistinct(c, template);
    NodesDistinct(c, template');
    if Unmoved(template, template') {
      UnmovedBack(template, template');
      forall n ensures n in nodes <==> n in nodes' {
        if n in nodes { SameStepsIfUnmoved(template, template', n); }
        if n in nodes' { SameStepsIfUnmoved(template', template, n); }
      }
      StepsFixTheOrder(c, nodes, nodes', result, result', k, k');
    }
    if result == result' {
      ShownMembers(c, template, result, k);
      ShownMembers(c, template', result', k');
      forall i, j | 0 <= i < |template| && 0 <= j < |template'| ensures StaysAt(template, i, template', j) {
        UnmovedIfSameSteps(template, template', i, j);
      }
    }
  }

  lemma ShownMembers(c: Collation, template: seq<Listed>, result: seq<Step>, k: nat)
    requires IsCollation(c) && ShownOnce(template) && OperationalOrder(c, TemplateNodes(c, template), result, k)
    ensures forall n :: n in result <==> n in ShownSteps(template)
    ensures |result| == |ShownSteps(template)|
  {
    var nodes := TemplateNodes(c, template);
    NodesDistinct(c, template);
    OrderIsPermutation(c, nodes, result, k);
    SameMembers(result, nodes);
    assert |result| == |multiset(result)| == |multiset(nodes)| == |multiset(ShownSteps(template))|;
  }

  // ---------------------------------------------- templates without positions

  ghost predicate NoRows(template: seq<Listed>) {
    forall i :: 0 <= i < |template| && template[i].Shown() ==> !template[i].HasRow()
  }

  /** Every edge between listed steps leads down the list. */
  ghost predicate LeadsDown(s: seq<Step>) {
    forall i, j :: 0 <= i < |s| && 0 <= j < |s| && s[j].id in s[i].nextStepIds ==> i < j
  }

  /** Without rows of their own the steps stand on the canvas as they are listed. */
  lemma {:induction false} ListedTopDown(c: Collation, template: seq<Listed>)
    requires NoRows(template)
    ensures Ascending(c, ShownSteps(template))
    ensures forall n :: n in ShownSteps(template) ==> n.positionY <= |template| as real * 10.0
  {
    if template != [] {
      var last := |template| - 1;
      var init := template[..last];
      assert forall i :: 0 <= i < last ==> init[i] == template[i];
      ListedTopDown(c, init);
      forall i, j | 0 <= i < j < |ShownSteps(template)|
        ensures Before(c, ShownSteps(template)[i], ShownSteps(template)[j])
      {
        assert ShownSteps(template)[i] in ShownSteps(init);
      }
    }
  }

  lemma ListedIsLegal(c: Collation, template: seq<Listed>)
    requires IsCollation(c) && ShownOnce(template) && LeadsDown(ShownSteps(template))
    ensures Legal(TemplateNodes(c, template), ShownSteps(template))
  {
    var nodes, s := TemplateNodes(c, template), ShownSteps(template);
    NodesDistinct(c, template);
    forall i | 0 <= i < |s| ensures LegalAt(nodes, s, i) {
      assert s[i] in s;
      forall m | m in nodes && s[i].id in m.nextStepIds ensures m.id in Ids(s[..i]) {
        var j :| 0 <= j < |s| && s[j] == m;
        assert s[..i][j] == m;
        IdsOf(s[..i], m);
      }
    }
  }

  /** Of a template without rows, listed so that every step comes after its predecessors, the
      steps are shown exactly as they are listed. */
  lemma ListedOrderStays(c: Collation, template: seq<Listed>, result: seq<Step>, k: nat)
    requires IsCollation(c) && ShownOnce(template) && NoRows(template) && LeadsDown(ShownSteps(template))
    requires OperationalOrder(c, TemplateNodes(c, template), result, k)
    ensures result == ShownSteps(template)
  {
    var nodes, s, schedule := TemplateNodes(c, template), ShownSteps(template), result[..k];
    ListedTopDown(c, template);
    ListedIsLegal(c, template);
    ScheduleIsLeast(c, nodes, schedule, s, 0);
    ShownMembers(c, template, result, k);
    ScheduledSteps(c, nodes, schedule);
    NodesDistinct(c, template);
    NothingBefore(c, schedule, s);
    Glue(result, k);
  }

  /** Steps in canvas order are preceded by no other order of them. */
  lemma NothingBefore(c: Collation, t: seq<Step>, s: seq<Step>)
    requires IsCollation(c) && Ascending(c, s) && DistinctIds(t) && forall n :: n in t ==> n in s
    ensures !FirstDifferenceBefore(c, t, s)
  {
    forall i | 0 <= i < |t| && i < |s| && t[..i] == s[..i] ensures !Before(c, t[i], s[i]) {
      assert t[i] in t && t[i] in s;
      var j :| 0 <= j < |s| && s[j] == t[i];
      assert forall m :: 0 <= m < i ==> t[m] == t[..i][m] == s[m];
      if i < j {
        assert Before(c, s[i], s[j]);
      }
    }
  }

  /** Two steps without rows and without edges: whichever is listed first is shown first. */
  lemma ListingCanMatter(c: Collation, a: Listed, b: Listed, result: seq<Step>, result': seq<Step>, k: nat, k': nat)
    requires IsCollation(c) && a.id != b.id && a.Shown() && b.Shown() && !a.HasRow() && !b.HasRow()
    requires a.nextStepIds == b.nextStepIds == []
    requires OperationalOrder(c, TemplateNodes(c, [a, b]), result, k)
    requires OperationalOrder(c, TemplateNodes(c, [b, a]), result', k')
    ensures |result| == |result'| == 2
    ensures result[0].id == result'[1].id == a.id && result[1].id == result'[0].id == b.id
  {
    ShownAsListed(c, a, b, result, k);
    ShownAsListed(c, b, a, result', k');
  }

  lemma ShownAsListed(c: Collation, a: Listed, b: Listed, result: seq<Step>, k: nat)
    requires IsCollation(c) && a.id != b.id && a.Shown() && b.Shown() && !a.HasRow() && !b.HasRow()
    requires a.nextStepIds == b.nextStepIds == []
    requires OperationalOrder(c, TemplateNodes(c, [a, b]), result, k)
    ensures result == [Placed(a, 0), Placed(b, 1)]
  {
    var template := [a, b];
    ShownTwo(a, b);
    assert NoRows(template);
    ListedOrderStays(c, template, result, k);
  }

  lemma ShownTwo(a: Listed, b: Listed)
    requires a.Shown() && b.Shown()
    ensures ShownSteps([a, b]) == [Placed(a, 0), Placed(b, 1)]
  {
    assert [a, b][..1] == [a];
    assert [a][..0] == [];
  }
}
