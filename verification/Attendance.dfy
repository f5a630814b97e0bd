/** Attendance records are grouped by employee, summed up and rounded into invoice rows. */
module Attendance {
  import opened HoursRounding
  import opened Numbers
  import opened Text

  datatype Record = Record(
    name: string, nameKey: string, dept: string, workplace: string, work: real, late: real, earlyLeave: real,
    overtime: real, night: real, special: real, leaveDays: real, unpaidDays: real)

  datatype Policy = Policy(roundingMinutes: int, lateGrace: int, earlyGrace: int)

  datatype Totals = Totals(
    work: real, late: real, earlyLeave: real, overtime: real, night: real, special: real, leaveDays: real,
    unpaidDays: real, days: nat)

  datatype Group = Group(name: string, dept: string, workplace: string, totals: Totals)

  datatype Row = Row(
    name: string, dept: string, workplace: string, baseDays: real, workDays: real, unpaidDays: real, leaveDays: real,
    otHours: real, nightHours: real, specialHours: real, earlyLeaveHours: real, attendanceDays: nat)

  /** One import: the records, the workplace they default to, and the policy. */
  datatype Batch = Batch(records: seq<Record>, workplace: string, policy: Policy)

  function Clamp(n: int, low: int, high: int): (r: int)
    requires low <= high
    ensures low <= r <= high
  {
    if n < low then low else if n > high then high else n
  }

  /** `AttendancePolicy::normalized` */
  function Normalized(p: Policy): (r: Policy)
    ensures 1 <= r.roundingMinutes <= 60
  {
    Policy(Clamp(p.roundingMinutes, 1, 60), Clamp(p.lateGrace, 0, 240), Clamp(p.earlyGrace, 0, 240))
  }

  /** `attendance_key` */
  function KeyOf(r: Record): string {
    if Trim(r.nameKey) == "" then Strip(r.name) else Trim(r.nameKey)
  }

  const ZERO := Totals(0.0, 0.0, 0.0, 0.0, 0.0, 0.0, 0.0, 0.0, 0)

  function Plus(a: Totals, b: Totals): Totals {
    Totals(a.work + b.work, a.late + b.late, a.earlyLeave + b.earlyLeave, a.overtime + b.overtime, a.night + b.night,
           a.special + b.special, a.leaveDays + b.leaveDays, a.unpaidDays + b.unpaidDays, a.days + b.days)
  }

  /** The hours beyond a grace period. */
  function Beyond(hours: real, grace: int): real {
    AtLeastZero(hours - grace as real / 60.0)
  }

  /** What one record adds to the totals of its employee. */
  function Share(p: Policy, r: Record): Totals {
    Totals(AtLeastZero(r.work), Beyond(r.late, p.lateGrace), Beyond(r.earlyLeave, p.earlyGrace), r.overtime, r.night,
           r.special, r.leaveDays, r.unpaidDays, 1)
  }

  // ------------------------------------------------------ what the groups are

  ghost function KeysOf(records: seq<Record>): set<string> {
    set r | r in records && KeyOf(r) != "" :: KeyOf(r)
  }

  /** The sum of the shares of the records with `key`. */
  function TotalFor(p: Policy, records: seq<Record>, key: string): Totals {
    if records == [] then ZERO
    else
      var last := records[|records|-1];
      Plus(TotalFor(p, records[..|records|-1], key), if KeyOf(last) == key then Share(p, last) else ZERO)
  }

  /** The first record with `key`. */
  ghost function LeadOf(records: seq<Record>, key: string): (r: Record)
    requires key in KeysOf(records)
    ensures r in records && KeyOf(r) == key
  {
    if key in KeysOf(records[..|records|-1]) then LeadOf(records[..|records|-1], key)
    else
      assert records == records[..|records|-1] + [records[|records|-1]];
      records[|records|-1]
  }

  function Opened(r: Record, workplace: string): Group {
    Group(r.name, r.dept, if r.workplace == "" then workplace else r.workplace, ZERO)
  }

  ghost function GroupFor(b: Batch, key: string): Group
    requires key in KeysOf(b.records)
  {
    Opened(LeadOf(b.records, key), Trim(b.workplace)).(totals := TotalFor(Normalized(b.policy), b.records, key))
  }

  /** `invoice_row` */
  function RowOf(g: Group, minutes: int): Row {
    var t := g.totals;
    var work := RoundHours(t.work, minutes);
    Row(g.name, g.dept, g.workplace, work, work, t.unpaidDays, t.leaveDays, RoundHours(t.overtime, minutes),
        RoundHours(t.night, minutes), RoundHours(t.special, minutes), RoundHours(t.earlyLeave + t.late, minutes),
        t.days)
  }

  /** Rows are in the order of their names, and of their keys where names are equal. */
  predicate Precedes(nameA: string, keyA: string, nameB: string, keyB: string) {
    Below(nameA, nameB) || (nameA == nameB && Below(keyA, keyB))
  }

  ghost predicate InOrder(b: Batch, order: seq<string>)
    requires forall k :: k in order ==> k in KeysOf(b.records)
  {
    forall i, j :: 0 <= i < j < |order| ==>
      Precedes(GroupFor(b, order[i]).name, order[i], GroupFor(b, order[j]).name, order[j])
  }

  ghost predicate RowsFor(b: Batch, order: seq<string>, rows: seq<Row>, row: Group -> Row)
    requires forall k :: k in order ==> k in KeysOf(b.records)
  {
    |rows| == |order| && forall i :: 0 <= i < |rows| ==> rows[i] == row(GroupFor(b, order[i]))
  }

  /** `rows` are the rows of the batch: one for every key, in order. */
  ghost predicate IsReport(b: Batch, order: seq<string>, rows: seq<Row>) {
    && (forall k :: k in order <==> k in KeysOf(b.records))
    && InOrder(b, order)
    && RowsFor(b, order, rows, g => RowOf(g, Normalized(b.policy).roundingMinutes))
  }

  // ------------------------------------------------------------ the import

  /** A map and its keys in order. */
  ghost predicate IsTree(keys: seq<string>, groups: map<string, Group>) {
    && (forall k :: k in keys <==> k in groups)
    && forall i, j :: 0 <= i < j < |keys| ==> Below(keys[i], keys[j])
  }

  /** Where something is inserted between what comes before it and what comes after it, order
      is kept. */
  lemma InsertedInOrder<T(!new)>(s: seq<T>, x: T, p: nat, before: (T, T) -> bool)
    requires p <= |s| && forall i, j :: 0 <= i < j < |s| ==> before(s[i], s[j])
    requires (forall i :: 0 <= i < p ==> before(s[i], x)) && forall i :: p <= i < |s| ==> before(x, s[i])
    ensures var t := s[..p] + [x] + s[p..];
            && (forall i, j :: 0 <= i < j < |t| ==> before(t[i], t[j]))
            && forall y :: y in t <==> y in s || y == x
  {
    var t := s[..p] + [x] + s[p..];
    assert forall i :: 0 <= i < |t| && i != p ==> t[i] == s[if i < p then i else i - 1];
    assert s == s[..p] + s[p..];
  }

  method InsertKey(keys: seq<string>, key: string) returns (r: seq<string>)
    requires key !in keys && forall i, j :: 0 <= i < j < |keys| ==> Below(keys[i], keys[j])
    ensures forall k :: k in r <==> k in keys || k == key
    ensures forall i, j :: 0 <= i < j < |r| ==> Below(r[i], r[j])
  {
    var p: nat := |keys|;
    while p > 0 && Below(key, keys[p-1])
      invariant p <= |keys|
      invariant forall i :: p <= i < |keys| ==> Below(key, keys[i])
    {
      p := p - 1;
    }
    forall i | 0 <= i < p ensures Below(keys[i], key) {
      BelowTotal(key, keys[p-1]);
      if i < p - 1 { BelowTransitive(keys[i], keys[p-1], key); }
    }
    InsertedInOrder(keys, key, p, Below);
    r := keys[..p] + [key] + keys[p..];
  }

  /** Adds a record to its group, field by field. */
  method AddRecord(p: Policy, g: Group, r: Record) returns (h: Group)
    ensures h == g.(totals := Plus(g.totals, Share(p, r)))
  {
    var t := g.totals;
    t := t.(work := t.work + AtLeastZero(r.work));
    if r.late * 60.0 > p.lateGrace as real {
      t := t.(late := t.late + AtLeastZero(r.late - p.lateGrace as real / 60.0));
    }
    if r.earlyLeave * 60.0 > p.earlyGrace as real {
      t := t.(earlyLeave := t.earlyLeave + AtLeastZero(r.earlyLeave - p.earlyGrace as real / 60.0));
    }
    t := t.(overtime := t.overtime + r.overtime);
    t := t.(night := t.night + r.night);
    t := t.(special := t.special + r.special);
    t := t.(leaveDays := t.leaveDays + r.leaveDays);
    t := t.(unpaidDays := t.unpaidDays + r.unpaidDays);
    t := t.(days := t.days + 1);
    h := g.(totals := t);
  }

  ghost predicate GroupsAre(b: Batch, groups: map<string, Group>) {
    && groups.Keys == KeysOf(b.records)
    && forall k :: k in groups ==> groups[k] == GroupFor(b, k)
  }

  lemma KeysSnoc(records: seq<Record>, r: Record)
    ensures KeysOf(records + [r]) == KeysOf(records) + if KeyOf(r) == "" then {} else {KeyOf(r)}
  {
    var all := records + [r];
    forall k | k in KeysOf(records) ensures k in KeysOf(all) {
      var q :| q in records && KeyOf(q) == k;
      assert q in all;
    }
    assert r in all;
  }

  lemma GroupSnoc(b: Batch, records: seq<Record>, r: Record, key: string)
    requires b.records == records + [r] && key in KeysOf(b.records)
    ensures var p, before := Normalized(b.policy), b.(records := records);
            GroupFor(b, key) ==
              if KeyOf(r) != key then (KeysSnoc(records, r); GroupFor(before, key))
              else if key in KeysOf(records) then
                GroupFor(before, key).(totals := Plus(GroupFor(before, key).totals, Share(p, r)))
              else Opened(r, Trim(b.workplace)).(totals := Plus(ZERO, Share(p, r)))
  {
    KeysSnoc(records, r);
    assert b.records[..|b.records|-1] == records;
    if key !in KeysOf(records) {
      NothingFor(Normalized(b.policy), records, key);
    }
  }

  lemma {:induction false} NothingFor(p: Policy, records: seq<Record>, key: string)
    requires key !in KeysOf(records) && key != ""
    ensures TotalFor(p, records, key) == ZERO
  {
    if records != [] {
      var init, last := records[..|records|-1], records[|records|-1];
      assert records == init + [last];
      KeysSnoc(init, last);
      NothingFor(p, init, key);
    }
  }

  /** The groups after one more record. */
  function Accumulated(b: Batch, groups: map<string, Group>, r: Record): map<string, Group> {
    var key := KeyOf(r);
    if key == "" then groups
    else
      var g := if key in groups then groups[key] else Opened(r, Trim(b.workplace));
      groups[key := g.(totals := Plus(g.totals, Share(Normalized(b.policy), r)))]
  }

  lemma GroupsSnoc(b: Batch, records: seq<Record>, r: Record, groups: map<string, Group>)
    requires b.records == records + [r] && GroupsAre(b.(records := records), groups)
    ensures GroupsAre(b, Accumulated(b, groups, r))
  {
    KeysSnoc(records, r);
    forall k | k in KeysOf(b.records) ensures Accumulated(b, groups, r)[k] == GroupFor(b, k) {
      GroupSnoc(b, records, r, k);
      GroupAccumulated(b, b.(records := records), groups, r, k);
    }
  }

  lemma GroupAccumulated(b: Batch, before: Batch, groups: map<string, Group>, r: Record, k: string)
    requires GroupsAre(before, groups) && before == b.(records := before.records) && k != ""
    requires k in groups || k == KeyOf(r)
    ensures k in Accumulated(b, groups, r)
    ensures KeyOf(r) != k ==> Accumulated(b, groups, r)[k] == GroupFor(before, k)
    ensures KeyOf(r) == k ==> k in groups ==>
              Accumulated(b, groups, r)[k] ==
                GroupFor(before, k).(totals := Plus(GroupFor(before, k).totals, Share(Normalized(b.policy), r)))
  {
  }

  function Upto(b: Batch, n: nat): Batch
    requires n <= |b.records|
  {
    b.(records := b.records[..n])
  }

  /** Puts one record into its group, which the first record with its key opens. */
  method Include(b: Batch, keys: seq<string>, groups: map<string, Group>, r: Record)
    returns (newKeys: seq<string>, newGroups: map<string, Group>)
    requires IsTree(keys, groups)
    ensures IsTree(newKeys, newGroups) && newGroups == Accumulated(b, groups, r)
  {
    var key := KeyOf(r);
    newKeys, newGroups := keys, groups;
    if key == "" {
      return;
    }
    if key !in newGroups {
      newKeys := InsertKey(keys, key);
      newGroups := newGroups[key := Opened(r, Trim(b.workplace))];
    }
    var g := AddRecord(Normalized(b.policy), newGroups[key], r);
    newGroups := newGroups[key := g];
  }

  /** Groups the records in one pass over them. */
  method GroupRecords(b: Batch) returns (keys: seq<string>, groups: map<string, Group>)
    ensures IsTree(keys, groups) && GroupsAre(b, groups)
  {
    keys, groups := [], map[];
    for i := 0 to |b.records|
      invariant IsTree(keys, groups)
      invariant GroupsAre(Upto(b, i), groups)
    {
      var r := b.records[i];
      assert Upto(b, i + 1).records == Upto(b, i).records + [r];
      GroupsSnoc(Upto(b, i + 1), Upto(b, i).records, r, groups);
      keys, groups := Include(Upto(b, i + 1), keys, groups, r);
    }
    assert b.records[..|b.records|] == b.records;
  }

  /** `place` puts the first `n` rows into the order of their names and leaves equal names as
      they were. */
  ghost predicate StableOrder(rows: seq<Row>, n: nat, place: seq<int>) {
    && (forall p :: p in place <==> 0 <= p < n)
    && forall i, j :: 0 <= i < j < |place| ==> ComesFirst(rows, place[i], place[j])
  }

  predicate ComesFirst(rows: seq<Row>, p: int, q: int) {
    0 <= p < |rows| && 0 <= q < |rows| && (Below(rows[p].name, rows[q].name) || (rows[p].name == rows[q].name && p < q))
  }

  /** `sorted` are the first `n` rows, put where `place` says. */
  ghost predicate Sorts(rows: seq<Row>, n: nat, place: seq<int>, sorted: seq<Row>)
    requires n <= |rows|
  {
    && StableOrder(rows, n, place) && |sorted| == |place|
    && forall i :: 0 <= i < |sorted| ==> 0 <= place[i] < n && sorted[i] == rows[place[i]]
  }

  /** A stable sort by name. */
  method SortByName(rows: seq<Row>) returns (sorted: seq<Row>)
    ensures exists place :: Sorts(rows, |rows|, place, sorted)
  {
    sorted := [];
    ghost var place: seq<int> := [];
    for n := 0 to |rows|
      invariant Sorts(rows, n, place, sorted)
    {
      var p: nat := |sorted|;
      while p > 0 && Below(rows[n].name, sorted[p-1].name)
        invariant p <= |sorted|
        invariant forall i :: p <= i < |sorted| ==> Below(rows[n].name, sorted[i].name)
      {
        p := p - 1;
      }
      Placed(rows, n, place, p);
      sorted := sorted[..p] + [rows[n]] + sorted[p..];
      place := place[..p] + [n] + place[p..];
    }
  }

  lemma NotBehind(rows: seq<Row>, i: int, j: int, n: int)
    requires 0 <= i < n < |rows| && 0 <= j < n && (i == j || ComesFirst(rows, i, j))
    requires !Below(rows[n].name, rows[j].name)
    ensures ComesFirst(rows, i, n)
  {
    BelowTotal(rows[n].name, rows[j].name);
    if Below(rows[i].name, rows[j].name) && Below(rows[j].name, rows[n].name) {
      BelowTransitive(rows[i].name, rows[j].name, rows[n].name);
    }
  }

  lemma Placed(rows: seq<Row>, n: nat, place: seq<int>, p: nat)
    requires n < |rows| && StableOrder(rows, n, place) && p <= |place|
    requires forall i :: 0 <= i < |place| ==> 0 <= place[i] < n
    requires forall i :: p <= i < |place| ==> Below(rows[n].name, rows[place[i]].name)
    requires p > 0 ==> !Below(rows[n].name, rows[place[p-1]].name)
    ensures StableOrder(rows, n + 1, place[..p] + [n] + place[p..])
  {
    forall i | 0 <= i < p ensures ComesFirst(rows, place[i], n) {
      if i < p - 1 { assert ComesFirst(rows, place[i], place[p-1]); }
      NotBehind(rows, place[i], place[p-1], n);
    }
    InsertedInOrder(place, n, p, (i, j) => ComesFirst(rows, i, j));
  }

  /** Rows in the order of the keys. */
  method RowsByKey(keys: seq<string>, groups: map<string, Group>, row: Group -> Row) returns (rows: seq<Row>)
    requires IsTree(keys, groups)
    ensures |rows| == |keys| && forall j :: 0 <= j < |rows| ==> rows[j] == row(groups[keys[j]])
  {
    rows := [];
    for i := 0 to |keys|
      invariant |rows| == i && forall j :: 0 <= j < i ==> rows[j] == row(groups[keys[j]])
    {
      rows := rows + [row(groups[keys[i]])];
    }
  }

  /** `aggregate_attendance_records` */
  method Aggregate(b: Batch) returns (rows: seq<Row>)
    ensures exists order :: IsReport(b, order, rows)
  {
    var keys, groups := GroupRecords(b);
    var row := g => RowOf(g, Normalized(b.policy).roundingMinutes);
    var unsorted := RowsByKey(keys, groups, row);
    rows := SortByName(unsorted);
    ghost var order := OrderOfRows(b, keys, groups, row, unsorted, rows);
    assert IsReport(b, order, rows);
  }

  /** Rows sorted by name are in the order of their names and then of their keys. */
  lemma OrderOfRows(b: Batch, keys: seq<string>, groups: map<string, Group>, row: Group -> Row, unsorted: seq<Row>,
      rows: seq<Row>)
    returns (order: seq<string>)
    requires IsTree(keys, groups) && GroupsAre(b, groups) && forall g :: row(g).name == g.name
    requires |unsorted| == |keys| && forall j :: 0 <= j < |unsorted| ==> unsorted[j] == row(groups[keys[j]])
    requires exists place :: Sorts(unsorted, |unsorted|, place, rows)
    ensures (forall k :: k in order <==> k in KeysOf(b.records)) && InOrder(b, order) && RowsFor(b, order, rows, row)
  {
    var place :| Sorts(unsorted, |unsorted|, place, rows);
    order := KeysAt(keys, place);
    Ordered(b, keys, groups, unsorted, place, order);
  }

  ghost function KeysAt(keys: seq<string>, place: seq<int>): (order: seq<string>)
    requires forall i :: 0 <= i < |place| ==> 0 <= place[i] < |keys|
    ensures |order| == |place| && forall i :: 0 <= i < |order| ==> order[i] == keys[place[i]]
  {
    seq(|place|, i requires 0 <= i < |place| => keys[place[i]])
  }

  lemma Ordered(b: Batch, keys: seq<string>, groups: map<string, Group>, rows: seq<Row>, place: seq<int>,
      order: seq<string>)
    requires IsTree(keys, groups) && GroupsAre(b, groups) && StableOrder(rows, |rows|, place)
    requires |rows| == |keys| && forall j :: 0 <= j < |rows| ==> rows[j].name == groups[keys[j]].name
    requires |order| == |place| && forall i :: 0 <= i < |order| ==> 0 <= place[i] < |keys| && order[i] == keys[place[i]]
    ensures forall k :: k in order <==> k in KeysOf(b.records)
    ensures InOrder(b, order)
  {
    forall k | k in KeysOf(b.records) ensures k in order {
      assert k in groups && k in keys;
      var j :| 0 <= j < |keys| && keys[j] == k;
      assert j in place;
      var i :| 0 <= i < |place| && place[i] == j;
      assert order[i] == k;
    }
    forall i, j | 0 <= i < j < |order|
      ensures Precedes(GroupFor(b, order[i]).name, order[i], GroupFor(b, order[j]).name, order[j])
    {
      assert ComesFirst(rows, place[i], place[j]);
    }
  }
}
