/** The rows of an attendance import in the words of the records: sums over their own fields. */
module AttendanceSums {
  import opened Attendance
  import opened AttendanceTotals
  import opened HoursRounding
  import opened Text

  /** The numbers of a record that an import sums up. */
  datatype Figure = Work | Late | EarlyLeave | Overtime | Night | Special | Leave | Unpaid

  /** The grace periods of a policy, in minutes. */
  datatype Grace = Grace(late: int, early: int)

  /** What is left of some hours beyond so many minutes; nothing if that is less than nothing. */
  function Past(hours: real, minutes: int): real {
    if 60.0 * hours > minutes as real then hours - minutes as real / 60.0 else 0.0
  }

  function FigureOf(figure: Figure, grace: Grace, r: Record): real {
    match figure
    case Work => if r.work > 0.0 then r.work else 0.0
    case Late => Past(r.late, grace.late)
    case EarlyLeave => Past(r.earlyLeave, grace.early)
    case Overtime => r.overtime
    case Night => r.night
    case Special => r.special
    case Leave => r.leaveDays
    case Unpaid => r.unpaidDays
  }

  /** The sum of a figure over the records of one employee. */
  function Sum(figure: Figure, grace: Grace, records: seq<Record>, key: string): real {
    if records == [] then 0.0
    else
      var last := records[|records|-1];
      Sum(figure, grace, records[..|records|-1], key)
      + if KeyOf(last) == key then FigureOf(figure, grace, last) else 0.0
  }

  function Count(records: seq<Record>, key: string): nat {
    if records == [] then 0
    else Count(records[..|records|-1], key) + if KeyOf(records[|records|-1]) == key then 1 else 0
  }

  /** A number held between two bounds. */
  predicate Held(n: int, low: int, high: int, r: int) {
    low <= r <= high && (low <= n <= high ==> r == n) && (n < low ==> r == low) && (n > high ==> r == high)
  }

  lemma {:induction false} TotalsAreSums(p: Policy, grace: Grace, records: seq<Record>, key: string)
    requires p.lateGrace == grace.late && p.earlyGrace == grace.early
    ensures var t := TotalFor(p, records, key);
            && t.work == Sum(Work, grace, records, key) && t.late == Sum(Late, grace, records, key)
            && t.earlyLeave == Sum(EarlyLeave, grace, records, key)
            && t.overtime == Sum(Overtime, grace, records, key) && t.night == Sum(Night, grace, records, key)
            && t.special == Sum(Special, grace, records, key) && t.leaveDays == Sum(Leave, grace, records, key)
            && t.unpaidDays == Sum(Unpaid, grace, records, key) && t.days == Count(records, key)
  {
    if records != [] {
      TotalsAreSums(p, grace, records[..|records|-1], key);
      ShareFigures(p, grace, records[|records|-1]);
    }
  }

  lemma ShareFigures(p: Policy, grace: Grace, r: Record)
    requires p.lateGrace == grace.late && p.earlyGrace == grace.early
    ensures Share(p, r) ==
              Totals(FigureOf(Work, grace, r), FigureOf(Late, grace, r), FigureOf(EarlyLeave, grace, r),
                     FigureOf(Overtime, grace, r), FigureOf(Night, grace, r), FigureOf(Special, grace, r),
                     FigureOf(Leave, grace, r), FigureOf(Unpaid, grace, r), 1)
  {
  }

  /** A row of the report: the employee's hours summed over the records and rounded together, late
      arrivals and early leaves beyond their grace periods in one number, and the days as they
      are.  The minutes of the policy are held between 1 and 60, its grace periods between none
      and four hours. */
  lemma RowSums(b: Batch, order: seq<string>, rows: seq<Row>, i: nat, minutes: int, grace: Grace)
    requires IsReport(b, order, rows) && i < |rows| && Held(b.policy.roundingMinutes, 1, 60, minutes)
    requires Held(b.policy.lateGrace, 0, 240, grace.late) && Held(b.policy.earlyGrace, 0, 240, grace.early)
    ensures var records, key, row := b.records, order[i], rows[i];
            && row.baseDays == row.workDays == RoundHours(Sum(Work, grace, records, key), minutes)
            && row.otHours == RoundHours(Sum(Overtime, grace, records, key), minutes)
            && row.nightHours == RoundHours(Sum(Night, grace, records, key), minutes)
            && row.specialHours == RoundHours(Sum(Special, grace, records, key), minutes)
            && row.earlyLeaveHours
               == RoundHours(Sum(EarlyLeave, grace, records, key) + Sum(Late, grace, records, key), minutes)
            && row.leaveDays == Sum(Leave, grace, records, key) && row.unpaidDays == Sum(Unpaid, grace, records, key)
            && row.attendanceDays == Count(records, key)
  {
    RowAt(b, order, rows, i);
    assert Normalized(b.policy) == Policy(minutes, grace.late, grace.early);
    TotalsAreSums(Policy(minutes, grace.late, grace.early), grace, b.records, order[i]);
  }

  /** The texts of a row: those of the employee's first record, with the workplace of the import
      where that names none. */
  lemma RowTexts(b: Batch, order: seq<string>, rows: seq<Row>, i: nat, k: nat)
    requires IsReport(b, order, rows) && i < |rows| && k < |b.records| && KeyOf(b.records[k]) == order[i]
    requires forall j :: 0 <= j < k ==> KeyOf(b.records[j]) != order[i]
    ensures rows[i].name == b.records[k].name && rows[i].dept == b.records[k].dept
    ensures rows[i].workplace == if b.records[k].workplace != "" then b.records[k].workplace else Trim(b.workplace)
  {
    RowAt(b, order, rows, i);
    FirstIsLead(b.records, order[i], k);
    RowHasTexts(GroupFor(b, order[i]), Normalized(b.policy).roundingMinutes);
  }

  lemma RowHasTexts(g: Group, minutes: int)
    ensures var row := RowOf(g, minutes); row.name == g.name && row.dept == g.dept && row.workplace == g.workplace
  {
  }

  lemma FirstIsLead(records: seq<Record>, key: string, k: nat)
    requires k < |records| && KeyOf(records[k]) == key && key in KeysOf(records)
    requires forall j :: 0 <= j < k ==> KeyOf(records[j]) != key
    ensures LeadOf(records, key) == records[k]
  {
    var lead := LeadIsFirst(records, key);
    assert lead == k;
  }

  // ------------------------------------------------------------- the key

  /** Records are of one employee when they share a key that is not blank, or, where it is blank,
      a name that is the same but for its white space. */
  lemma KeyMeans(r: Record)
    ensures Trim(r.nameKey) != "" ==> KeyOf(r) == Trim(r.nameKey)
    ensures Trim(r.nameKey) == "" ==> KeyOf(r) == Strip(r.name)
  {
  }

  /** Stripping leaves out exactly the white space. */
  lemma {:induction false} Stripped(s: string, c: char)
    ensures Strip("") == ""
    ensures Strip(s + [c]) == Strip(s) + if IsWhite(c) then "" else [c]
  {
    if s != "" {
      assert (s + [c])[1..] == s[1..] + [c];
      Stripped(s[1..], c);
    }
  }

  /** The rows come in the order of their names, and those of one name in the order of their keys:
      by code points, or with the shorter text first. */
  lemma RowsAscend(b: Batch, order: seq<string>, rows: seq<Row>, i: nat, j: nat)
    requires IsReport(b, order, rows) && i < j < |rows|
    ensures rows[i].name != rows[j].name ==>
              || (|rows[i].name| < |rows[j].name| && rows[j].name[..|rows[i].name|] == rows[i].name)
              || exists k: nat :: SmallerAt(rows[i].name, rows[j].name, k)
    ensures rows[i].name == rows[j].name ==>
              || (|order[i]| < |order[j]| && order[j][..|order[i]|] == order[i])
              || exists k: nat :: SmallerAt(order[i], order[j], k)
  {
    RowAt(b, order, rows, i);
    RowAt(b, order, rows, j);
    assert Precedes(GroupFor(b, order[i]).name, order[i], GroupFor(b, order[j]).name, order[j]);
    BelowIff(rows[i].name, rows[j].name);
    BelowIff(order[i], order[j]);
    BelowIrreflexive(rows[i].name);
  }
}
