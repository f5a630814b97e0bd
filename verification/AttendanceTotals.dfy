/** What the attendance import conserves, and what does not depend on the order of records. */
module AttendanceTotals {
  import opened Attendance
  import opened HoursRounding
  import opened Orders
  import opened Rounding
  import opened Text

  // ------------------------------------------------------------ conservation

  /** The shares of all records with a key, added up. */
  function SharesOf(p: Policy, records: seq<Record>): Totals {
    if records == [] then ZERO
    else
      var last := records[|records|-1];
      Plus(SharesOf(p, records[..|records|-1]), if KeyOf(last) == "" then ZERO else Share(p, last))
  }

  function SumOver(order: seq<string>, f: string -> Totals): Totals {
    if order == [] then ZERO
    else Plus(SumOver(order[..|order|-1], f), f(order[|order|-1]))
  }

  /** The totals of the employees in `order`, added up. */
  function TotalsOver(p: Policy, records: seq<Record>, order: seq<string>): Totals {
    SumOver(order, key => TotalFor(p, records, key))
  }

  ghost predicate Distinct(order: seq<string>) {
    forall i, j :: 0 <= i < j < |order| ==> order[i] != order[j]
  }

  function Given(holds: bool, t: Totals): Totals {
    if holds then t else ZERO
  }

  lemma TotalForSnoc(p: Policy, records: seq<Record>, r: Record, key: string)
    ensures TotalFor(p, records + [r], key) == Plus(TotalFor(p, records, key), Given(KeyOf(r) == key, Share(p, r)))
  {
    assert (records + [r])[..|records|] == records;
  }

  lemma AddEither(a: Totals, b: Totals, t: Totals, first: bool, second: bool)
    requires !(first && second)
    ensures Plus(Plus(a, Given(first, t)), Plus(b, Given(second, t))) == Plus(Plus(a, b), Given(first || second, t))
  {
  }

  /** Adding `t` to one of the summands adds it to the sum. */
  lemma {:induction false} SumOverChange(order: seq<string>, f: string -> Totals, g: string -> Totals, k: string,
      t: Totals)
    requires Distinct(order) && forall x :: g(x) == Plus(f(x), Given(k == x, t))
    ensures SumOver(order, g) == Plus(SumOver(order, f), Given(k in order, t))
  {
    if order != [] {
      var init, key := order[..|order|-1], order[|order|-1];
      assert order == init + [key];
      ExactlyOnce(init, key, k);
      SumOverChange(init, f, g, k, t);
      AddEither(SumOver(init, f), f(key), t, k in init, k == key);
    }
  }

  lemma TotalsOverSnoc(p: Policy, records: seq<Record>, r: Record, order: seq<string>)
    requires Distinct(order)
    ensures TotalsOver(p, records + [r], order)
              == Plus(TotalsOver(p, records, order), Given(KeyOf(r) in order, Share(p, r)))
  {
    var f, g := key => TotalFor(p, records, key), key => TotalFor(p, records + [r], key);
    forall key ensures g(key) == Plus(f(key), Given(KeyOf(r) == key, Share(p, r))) {
      TotalForSnoc(p, records, r, key);
    }
    SumOverChange(order, f, g, KeyOf(r), Share(p, r));
  }

  lemma ExactlyOnce(init: seq<string>, key: string, k: string)
    requires Distinct(init + [key])
    ensures Distinct(init) && !(k in init && k == key)
    ensures k in init + [key] <==> k in init || k == key
  {
    var order := init + [key];
    assert forall i :: 0 <= i < |init| ==> init[i] == order[i] != order[|init|];
  }

  lemma {:induction false} NothingToSum(order: seq<string>, f: string -> Totals)
    requires forall key :: f(key) == ZERO
    ensures SumOver(order, f) == ZERO
  {
    if order != [] { NothingToSum(order[..|order|-1], f); }
  }

  /** No share is lost and none is counted twice: the employees' totals add up to the shares
      of the records with a key. */
  lemma {:induction false} SharesConserved(p: Policy, records: seq<Record>, order: seq<string>)
    requires Distinct(order) && "" !in order && forall k :: k in KeysOf(records) ==> k in order
    ensures TotalsOver(p, records, order) == SharesOf(p, records)
  {
    if records == [] {
      NothingToSum(order, key => TotalFor(p, records, key));
    } else {
      var init, last := records[..|records|-1], records[|records|-1];
      assert records == init + [last];
      KeysSnoc(init, last);
      SharesConserved(p, init, order);
      TotalsOverSnoc(p, init, last, order);
    }
  }

  /** The days a list of rows reports. */
  datatype Days = Days(attendance: nat, leave: real, unpaid: real)

  function DaysOfRows(rows: seq<Row>): Days {
    if rows == [] then Days(0, 0.0, 0.0)
    else
      var d, last := DaysOfRows(rows[..|rows|-1]), rows[|rows|-1];
      Days(d.attendance + last.attendanceDays, d.leave + last.leaveDays, d.unpaid + last.unpaidDays)
  }

  function DaysOfRecords(records: seq<Record>): Days {
    if records == [] then Days(0, 0.0, 0.0)
    else
      var d, last := DaysOfRecords(records[..|records|-1]), records[|records|-1];
      if KeyOf(last) == "" then d else Days(d.attendance + 1, d.leave + last.leaveDays, d.unpaid + last.unpaidDays)
  }

  lemma {:induction false} DaysOfShares(p: Policy, records: seq<Record>)
    ensures var t := SharesOf(p, records); DaysOfRecords(records) == Days(t.days, t.leaveDays, t.unpaidDays)
  {
    if records != [] { DaysOfShares(p, records[..|records|-1]); }
  }

  ghost predicate CarriesDays(rows: seq<Row>, p: Policy, records: seq<Record>, order: seq<string>) {
    |rows| == |order| && forall i :: 0 <= i < |rows| ==> CarriesDaysAt(rows[i], TotalFor(p, records, order[i]))
  }

  predicate CarriesDaysAt(row: Row, t: Totals) {
    row.attendanceDays == t.days && row.leaveDays == t.leaveDays && row.unpaidDays == t.unpaidDays
  }

  lemma {:induction false} DaysOfTotals(rows: seq<Row>, p: Policy, records: seq<Record>, order: seq<string>)
    requires CarriesDays(rows, p, records, order)
    ensures var t := TotalsOver(p, records, order); DaysOfRows(rows) == Days(t.days, t.leaveDays, t.unpaidDays)
  {
    if rows != [] {
      assert CarriesDaysAt(rows[|rows|-1], TotalFor(p, records, order[|rows|-1]));
      DaysOfTotals(rows[..|rows|-1], p, records, order[..|rows|-1]);
    }
  }

  lemma OrderIsDistinct(b: Batch, order: seq<string>)
    requires (forall k :: k in order ==> k in KeysOf(b.records)) && InOrder(b, order)
    ensures Distinct(order) && "" !in order
  {
    forall i, j | 0 <= i < j < |order| ensures order[i] != order[j] {
      BelowIrreflexive(order[i]);
      BelowIrreflexive(GroupFor(b, order[i]).name);
      assert Precedes(GroupFor(b, order[i]).name, order[i], GroupFor(b, order[j]).name, order[j]);
    }
  }

  /** The rows report as many attendance days as there are records with a key, and all of
      their leave and unpaid days. */
  lemma DaysConserved(b: Batch, order: seq<string>, rows: seq<Row>)
    requires IsReport(b, order, rows)
    ensures DaysOfRows(rows) == DaysOfRecords(b.records)
  {
    var p := Normalized(b.policy);
    OrderIsDistinct(b, order);
    RowsCarryDays(b, order, rows);
    DaysOfTotals(rows, p, b.records, order);
    SharesConserved(p, b.records, order);
    DaysOfShares(p, b.records);
  }

  lemma RowsCarryDays(b: Batch, order: seq<string>, rows: seq<Row>)
    requires IsReport(b, order, rows)
    ensures CarriesDays(rows, Normalized(b.policy), b.records, order)
  {
    forall i | 0 <= i < |rows| ensures CarriesDaysAt(rows[i], TotalFor(Normalized(b.policy), b.records, order[i])) {
      assert order[i] in order;
      RowAt(b, order, rows, i);
    }
  }

  lemma RowAt(b: Batch, order: seq<string>, rows: seq<Row>, i: nat)
    requires IsReport(b, order, rows) && i < |rows|
    ensures order[i] in KeysOf(b.records)
    ensures rows[i] == RowOf(GroupFor(b, order[i]), Normalized(b.policy).roundingMinutes)
  {
    assert order[i] in order;
  }

  /** Positive totals are reported to within half a rounding unit and half a step of the
      fourth decimal place, all others as zero. */
  lemma ReportedHours(b: Batch, order: seq<string>, rows: seq<Row>, i: nat)
    requires IsReport(b, order, rows) && i < |rows|
    ensures var unit, t := Normalized(b.policy).roundingMinutes, TotalFor(Normalized(b.policy), b.records, order[i]);
            && WithinUnit(rows[i].workDays, t.work, unit) && WithinUnit(rows[i].otHours, t.overtime, unit)
            && WithinUnit(rows[i].nightHours, t.night, unit) && WithinUnit(rows[i].specialHours, t.special, unit)
            && WithinUnit(rows[i].earlyLeaveHours, t.earlyLeave + t.late, unit)
  {
    RowAt(b, order, rows, i);
    RowReports(GroupFor(b, order[i]), Normalized(b.policy).roundingMinutes);
  }

  lemma RowReports(g: Group, unit: int)
    requires 1 <= unit <= 60
    ensures var row, t := RowOf(g, unit), g.totals;
            && WithinUnit(row.workDays, t.work, unit) && WithinUnit(row.otHours, t.overtime, unit)
            && WithinUnit(row.nightHours, t.night, unit) && WithinUnit(row.specialHours, t.special, unit)
            && WithinUnit(row.earlyLeaveHours, t.earlyLeave + t.late, unit)
  {
    var t := g.totals;
    UnitError(t.work, unit);
    UnitError(t.overtime, unit);
    UnitError(t.night, unit);
    UnitError(t.special, unit);
    UnitError(t.earlyLeave + t.late, unit);
  }

  predicate WithinUnit(reported: real, exact: real, unit: int) {
    if exact <= 0.0 then reported == 0.0 else Abs(reported - exact) <= unit as real / 120.0 + 0.00005
  }

  lemma UnitError(hours: real, unit: int)
    requires 1 <= unit <= 60
    ensures WithinUnit(RoundHours(hours, unit), hours, unit)
  {
    if hours > 0.0 { RoundHoursError(hours, unit); }
  }

  /** A group takes its name, department and workplace from the first record with its key. */
  lemma {:induction false} LeadIsFirst(records: seq<Record>, key: string) returns (i: nat)
    requires key in KeysOf(records)
    ensures i < |records| && records[i] == LeadOf(records, key) && KeyOf(records[i]) == key
    ensures forall j :: 0 <= j < i ==> KeyOf(records[j]) != key
  {
    var init := records[..|records|-1];
    assert records == init + [records[|records|-1]];
    if key in KeysOf(init) {
      i := LeadIsFirst(init, key);
    } else {
      i := |init|;
      var r :| r in records && KeyOf(r) == key && key != "";
      assert forall j :: 0 <= j < i ==> records[j] == init[j] && init[j] in init;
    }
  }

  // ---------------------------------------------------- the order of records

  function Without(records: seq<Record>, i: nat): seq<Record>
    requires i < |records|
  {
    records[..i] + records[i+1..]
  }

  lemma {:induction false} TotalWithout(p: Policy, records: seq<Record>, i: nat, key: string)
    requires i < |records|
    ensures TotalFor(p, records, key) ==
              Plus(TotalFor(p, Without(records, i), key), Given(KeyOf(records[i]) == key, Share(p, records[i])))
  {
    var init, last := records[..|records|-1], records[|records|-1];
    assert records == init + [last];
    if i == |init| {
      TotalForSnoc(p, init, last, key);
      assert Without(records, i) == init;
    } else {
      TotalWithout(p, init, i, key);
      WithoutSnoc(p, init, last, i, key);
    }
  }

  lemma WithoutSnoc(p: Policy, init: seq<Record>, last: Record, i: nat, key: string)
    requires i < |init|
    requires TotalFor(p, init, key)
               == Plus(TotalFor(p, Without(init, i), key), Given(KeyOf(init[i]) == key, Share(p, init[i])))
    ensures TotalFor(p, init + [last], key) ==
              Plus(TotalFor(p, Without(init + [last], i), key), Given(KeyOf(init[i]) == key, Share(p, init[i])))
  {
    assert Without(init + [last], i) == Without(init, i) + [last];
    TotalForSnoc(p, init, last, key);
    TotalForSnoc(p, Without(init, i), last, key);
    Swap(TotalFor(p, Without(init, i), key), Given(KeyOf(last) == key, Share(p, last)),
         Given(KeyOf(init[i]) == key, Share(p, init[i])));
  }

  lemma Swap(a: Totals, b: Totals, c: Totals)
    ensures Plus(Plus(a, b), c) == Plus(Plus(a, c), b)
  {
  }

  /** An employee's totals do not depend on the order of the records. */
  lemma {:induction false} TotalsIgnoreOrder(p: Policy, records: seq<Record>, other: seq<Record>, key: string)
    requires multiset(records) == multiset(other)
    ensures TotalFor(p, records, key) == TotalFor(p, other, key)
  {
    if records == [] {
      assert |multiset(records)| == |multiset(other)|;
    } else {
      var init, last := records[..|records|-1], records[|records|-1];
      assert records == init + [last];
      var i := Position(other, last);
      TotalWithout(p, other, i, key);
      TotalsIgnoreOrder(p, init, Without(other, i), key);
    }
  }

  lemma Position(records: seq<Record>, r: Record) returns (i: nat)
    requires r in multiset(records)
    ensures i < |records| && records[i] == r
    ensures multiset(Without(records, i)) == multiset(records) - multiset{r}
  {
    i :| 0 <= i < |records| && records[i] == r;
    assert records == records[..i] + [records[i]] + records[i+1..];
  }

  lemma KeysIgnoreOrder(records: seq<Record>, other: seq<Record>)
    requires multiset(records) == multiset(other)
    ensures KeysOf(records) == KeysOf(other)
  {
    assert forall r :: r in records <==> r in multiset(records);
    assert forall r :: r in other <==> r in multiset(other);
  }

  /** Records of one employee agree on everything but hours and days. */
  ghost predicate Coherent(records: seq<Record>) {
    forall r, q :: r in records && q in records && KeyOf(r) == KeyOf(q) != "" ==>
      r.name == q.name && r.dept == q.dept && r.workplace == q.workplace
  }

  lemma GroupsIgnoreOrder(b: Batch, records: seq<Record>, key: string)
    requires multiset(b.records) == multiset(records) && Coherent(b.records) && key in KeysOf(b.records)
    ensures key in KeysOf(records) && GroupFor(b.(records := records), key) == GroupFor(b, key)
  {
    KeysIgnoreOrder(b.records, records);
    TotalsIgnoreOrder(Normalized(b.policy), b.records, records, key);
    var other := LeadOf(records, key);
    assert other in multiset(records);
  }

  lemma PrecedesTransitive(n: string, k: string, n': string, k': string, n'': string, k'': string)
    requires Precedes(n, k, n', k') && Precedes(n', k', n'', k'')
    ensures Precedes(n, k, n'', k'')
  {
    if Below(n, n') && Below(n', n'') { BelowTransitive(n, n', n''); }
    if Below(k, k') && Below(k', k'') { BelowTransitive(k, k', k''); }
  }

  lemma PrecedesOneWay(n: string, k: string, n': string, k': string)
    requires Precedes(n, k, n', k')
    ensures !Precedes(n', k', n, k)
  {
    BelowIrreflexive(n);
    BelowIrreflexive(k);
    if Precedes(n', k', n, k) { PrecedesTransitive(n, k, n', k', n, k); }
  }

  /** Importing the records of coherent employees in any order gives the same rows. */
  lemma RowsIgnoreOrder(b: Batch, order: seq<string>, rows: seq<Row>, records: seq<Record>, order': seq<string>,
      rows': seq<Row>)
    requires IsReport(b, order, rows) && IsReport(b.(records := records), order', rows')
    requires multiset(b.records) == multiset(records) && Coherent(b.records)
    ensures rows == rows' && order == order'
  {
    var b' := b.(records := records);
    var name := map k | k in KeysOf(b.records) :: GroupFor(b, k).name;
    var before := (k, l) => k in name && l in name && Precedes(name[k], k, name[l], l);
    KeysIgnoreOrder(b.records, records);
    forall k | k in KeysOf(b.records) ensures GroupFor(b', k) == GroupFor(b, k) {
      GroupsIgnoreOrder(b, records, k);
    }
    SortedBy(b, order, name, before);
    SortedBy(b', order', name, before);
    forall k, l | k in order && l in order && before(k, l) ensures !before(l, k) {
      PrecedesOneWay(name[k], k, name[l], l);
    }
    OrderUnique(order, order', before);
    forall i | 0 <= i < |rows| ensures rows[i] == rows'[i] {
      RowAt(b, order, rows, i);
      RowAt(b', order', rows', i);
    }
  }

  lemma SortedBy(b: Batch, order: seq<string>, name: map<string, string>, before: (string, string) -> bool)
    requires (forall k :: k in order ==> k in KeysOf(b.records) && k in name && GroupFor(b, k).name == name[k])
             && InOrder(b, order)
    requires forall k, l :: before(k, l) <==> k in name && l in name && Precedes(name[k], k, name[l], l)
    ensures InStrictOrder(order, before)
  {
    forall i, j | 0 <= i < j < |order| ensures before(order[i], order[j]) {
      assert order[i] in order && order[j] in order;
      assert Precedes(GroupFor(b, order[i]).name, order[i], GroupFor(b, order[j]).name, order[j]);
    }
  }
}
