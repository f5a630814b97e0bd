/** What is left of an invoice after whole runs of fixed-hours profiles. */
module FixedHoursRuns {
  import opened FixedHours
  import opened HoursRounding
  import opened Options
  import opened Rounding
  import opened Text

  // --------------------------------------------------------- many profiles

  datatype Step = Step(profile: Profile, workplace: string)

  /** The invoice after one application after the other. */
  function Run(v: View, steps: seq<Step>): View {
    if steps == [] then v
    else
      var last := steps[|steps|-1];
      Applied(Run(v, steps[..|steps|-1]), last.profile, last.workplace)
  }

  /** The last positive number a list of active profiles gives, or else `own`. */
  function LastPositive(steps: seq<Step>, hours: Profile -> real, own: real): real {
    if steps == [] then own
    else
      var last := steps[|steps|-1].profile;
      if last.active && hours(last) > 0.0 then hours(last) else LastPositive(steps[..|steps|-1], hours, own)
  }

  function LastWorkplace(steps: seq<Step>, own: string): string {
    if steps == [] then own
    else
      var last := steps[|steps|-1];
      if last.profile.active && Trim(last.workplace) != "" then Trim(last.workplace)
      else LastWorkplace(steps[..|steps|-1], own)
  }

  function LastActive(steps: seq<Step>): Option<Profile> {
    if steps == [] then None
    else if steps[|steps|-1].profile.active then Some(steps[|steps|-1].profile)
    else LastActive(steps[..|steps|-1])
  }

  /** What a whole run leaves, told from the original invoice and the profiles alone. */
  function Outcome(v: View, steps: seq<Step>): View {
    match LastActive(steps)
    case None => v
    case Some(profile) =>
      var p := Normalized(profile);
      var saved := Kept(v).saved;
      var monthly := MonthlyHours(p, v.preserveReference, saved.workDays.value);
      View(v.name, LastWorkplace(steps, v.workplace), monthly, monthly,
           LastPositive(steps, (p: Profile) => p.extension, v.otHours),
           LastPositive(steps, (p: Profile) => p.overtime, v.specialHours),
           v.specialExtHours, saved, Terms(Some(monthly), SourceLabel(p), true, p.source, Some(p.payType), p.jobGroup),
           v.preserveReference)
  }

  /** Profiles pile up as told: contract hours and texts of the last active profile, overtime
      and special hours of the last profile that has any, and the original hours kept aside. */
  lemma {:induction false} RunOutcome(v: View, steps: seq<Step>)
    ensures Run(v, steps) == Outcome(v, steps)
  {
    if steps != [] {
      var init, last := steps[..|steps|-1], steps[|steps|-1];
      RunOutcome(v, init);
      if last.profile.active {
        AppliedToOutcome(v, init, last);
      }
    }
  }

  lemma AppliedToOutcome(v: View, init: seq<Step>, last: Step)
    requires last.profile.active
    ensures Applied(Outcome(v, init), last.profile, last.workplace) == Outcome(v, init + [last])
  {
    assert (init + [last])[..|init|] == init;
    assert Kept(Outcome(v, init)).saved == Kept(v).saved;
    ExtrasOfOutcome(v, init);
  }

  lemma ExtrasOfOutcome(v: View, steps: seq<Step>)
    ensures var o := Outcome(v, steps);
            && o.otHours == LastPositive(steps, (p: Profile) => p.extension, v.otHours)
            && o.specialHours == LastPositive(steps, (p: Profile) => p.overtime, v.specialHours)
            && o.workplace == LastWorkplace(steps, v.workplace)
  {
    NothingActive(steps, (p: Profile) => p.extension, v.otHours);
    NothingActive(steps, (p: Profile) => p.overtime, v.specialHours);
    NoWorkplace(steps, v.workplace);
  }

  lemma {:induction false} NothingActive(steps: seq<Step>, hours: Profile -> real, own: real)
    ensures LastActive(steps).None? ==> LastPositive(steps, hours, own) == own
  {
    if steps != [] { NothingActive(steps[..|steps|-1], hours, own); }
  }

  lemma {:induction false} NoWorkplace(steps: seq<Step>, own: string)
    ensures LastActive(steps).None? ==> LastWorkplace(steps, own) == own
  {
    if steps != [] { NoWorkplace(steps[..|steps|-1], own); }
  }

  // ----------------------------------------------------- what is not lost

  /** Nothing is kept aside yet. */
  predicate Fresh(v: View) {
    v.saved == NOTHING_SAVED
  }

  function OwnHours(v: View): Saved {
    Saved(Some(v.workDays), Some(v.baseDays), Some(v.otHours), Some(v.specialHours), Some(v.specialExtHours))
  }

  /** However many profiles are applied, the hours kept aside are those of the original
      invoice. */
  lemma OriginalsKept(v: View, steps: seq<Step>)
    requires Fresh(v)
    ensures Run(v, steps).saved == if LastActive(steps).Some? then OwnHours(v) else v.saved
  {
    RunOutcome(v, steps);
  }

  /** An invoice to be paid by its own hours is paid by the original ones, whatever profiles
      were applied before. */
  lemma ReferenceHoursStay(v: View, steps: seq<Step>)
    requires Fresh(v) && v.preserveReference && v.workDays > 0.0 && LastActive(steps).Some?
    ensures Run(v, steps).terms.monthlyHours == Some(v.workDays)
              && Run(v, steps).workDays == Run(v, steps).baseDays == v.workDays
  {
    RunOutcome(v, steps);
  }

  /** Applying a profile and workplace again changes nothing, and raises the same flags. */
  lemma ReapplyingChangesNothing(v: View, profile: Profile, workplace: string)
    ensures Applied(Applied(v, profile, workplace), profile, workplace) == Applied(v, profile, workplace)
    ensures FlagsRaised(Applied(v, profile, workplace), profile, workplace) == FlagsRaised(v, profile, workplace)
  {
    assert Kept(Kept(v)) == Kept(v);
  }

  /** The flags of the last application compare the contract with the original invoice, not
      with hours that an earlier profile put there. */
  lemma FlagsCompareOriginals(v: View, init: seq<Step>, last: Step)
    requires Fresh(v) && last.profile.active
    ensures FlagsRaised(Run(v, init), last.profile, last.workplace) ==
              FlagsOn(Normalized(Normalized(last.profile)), "", v.workDays, v.otHours, v.specialHours)
  {
    var all := init + [last];
    assert all[..|init|] == init;
    RunOutcome(v, all);
    TrimIdempotent(last.profile.jobGroup);
    assert LastActive(all) == Some(last.profile);
  }

  // ------------------------------------------------- normalizing a profile

  lemma FourPlacesOf(k: int)
    ensures FourPlaces(k as real / 10000.0) == k as real / 10000.0
  {
    assert k as real / 10000.0 * 10000.0 == k as real;
    IntegerFloor(k);
  }

  lemma FourPlacesTwice(x: real)
    ensures FourPlaces(FourPlaces(x)) == FourPlaces(x)
    ensures x >= 0.0 ==> FourPlaces(x) >= 0.0
  {
    FourPlacesOf(RoundTies(x * 10000.0));
    IntegerFloor(0);
    if x >= 0.0 { FourPlacesMonotone(0.0, x); }
  }

  lemma NormalizedHours(p: Profile)
    ensures Normalized(p).monthly >= 0.0 && FourPlaces(Normalized(p).monthly) == Normalized(p).monthly
    ensures Normalized(p).daily >= 0.0 && FourPlaces(Normalized(p).daily) == Normalized(p).daily
  {
    FourPlacesTwice(HoursGiven(p));
    FourPlacesTwice(p.daily);
    FourPlacesOf(0);
  }

  /** The hours vanish when they are rounded to four places. */
  predicate RoundsAway(hours: real) {
    hours * 10000.0 <= 0.5 + EPSILON
  }

  lemma WhenRoundedAway(hours: real)
    requires hours > 0.0
    ensures FourPlaces(hours) == 0.0 <==> RoundsAway(hours)
  {
    var x := hours * 10000.0;
    if x < 1.0 {
      FloorIs(x, 0);
    } else {
      IntegerFloor(1);
      RoundTiesMonotone(1.0, x);
    }
  }

  lemma NormalizedZero(p: Profile)
    ensures Normalized(p).monthly == 0.0 <==> RoundsAway(HoursGiven(p))
    ensures Normalized(p).daily == 0.0 <==> RoundsAway(p.daily)
  {
    WhenRoundedAway(HoursGiven(p));
    if p.daily > 0.0 { WhenRoundedAway(p.daily); }
  }

  lemma NormalizedTexts(p: Profile)
    ensures var n := Normalized(p);
            && Trim(n.jobGroup) == n.jobGroup && Trim(n.source) == n.source && Trim(n.sourceLabel) == n.sourceLabel
            && Trim(n.contractId) == n.contractId
  {
    TrimIdempotent(p.jobGroup);
    TrimIdempotent(p.source);
    TrimIdempotent(p.sourceLabel);
    TrimIdempotent(p.contractId);
  }

  /** Normalizing is idempotent exactly on the profiles whose monthly hours, as given or found
      from the daily ones, do not vanish when they are rounded. */
  lemma NormalizedIdempotent(p: Profile)
    ensures Normalized(Normalized(p)) == Normalized(p) <==> !RoundsAway(HoursGiven(p))
  {
    NormalizedHours(p);
    NormalizedTexts(p);
    NormalizedZero(p);
    if Normalized(p).monthly == 0.0 {
      SecondMonthly(p);
    }
  }

  /** A second normalization is the last one that changes anything. */
  lemma NormalizedTwice(p: Profile)
    ensures Normalized(Normalized(Normalized(p))) == Normalized(Normalized(p))
  {
    NormalizedHours(p);
    NormalizedTexts(p);
    if Normalized(p).monthly == 0.0 {
      SecondMonthly(p);
      NormalizedZero(Normalized(p));
      NormalizedIdempotent(Normalized(p));
    }
  }

  /** When monthly hours round to zero, normalizing again finds them elsewhere. */
  lemma SecondMonthly(p: Profile)
    requires Normalized(p).monthly == 0.0
    ensures var d := Normalized(p).daily;
            Normalized(Normalized(p)).monthly == if d > 0.0 then d * 26.0 else STANDARD_MONTHLY_HOURS
    ensures Normalized(p).daily * 26.0 != STANDARD_MONTHLY_HOURS
  {
    NormalizedHours(p);
    var k := RoundTies(Normalized(p).daily * 10000.0);
    FourPlacesOf(k * 26);
    FourPlacesOf(2_090_000);
    assert (k * 26) as real / 10000.0 == Normalized(p).daily * 26.0;
    assert k * 26 != 2_090_000;
  }

  /** Applying the profile an application returns raises the same flags, and changes nothing
      more exactly when the profile is inactive, its monthly hours do not vanish by rounding, it
      has no daily hours to find them in again, or the invoice is paid by its own hours. */
  lemma ReapplyingTheReturned(v: View, profile: Profile, workplace: string)
    ensures FlagsRaised(Applied(v, profile, workplace), Normalized(profile), workplace)
              == FlagsRaised(v, profile, workplace)
    ensures Applied(Applied(v, profile, workplace), Normalized(profile), workplace)
            == Applied(v, profile, workplace) <==>
              || !profile.active || !RoundsAway(HoursGiven(profile)) || RoundsAway(profile.daily)
              || (v.preserveReference && Kept(v).saved.workDays.value > 0.0)
  {
    var p, own, v' := Normalized(profile), Kept(v).saved.workDays.value, Applied(v, profile, workplace);
    NormalizedTwice(profile);
    if profile.active {
      NormalizedHours(profile);
      NormalizedTexts(profile);
      NormalizedZero(profile);
      NormalizedIdempotent(profile);
      assert Kept(v').saved == Kept(v).saved;
      if p.monthly == 0.0 {
        SecondMonthly(profile);
        assert Applied(v', p, workplace).workDays == MonthlyHours(Normalized(p), v.preserveReference, own);
      } else {
        ReapplyingChangesNothing(v, profile, workplace);
      }
    }
  }

  /** A profile that shows it: eight hours a day, and monthly hours too small to keep. */
  lemma ReturnedProfileDiffers()
    ensures var p := Profile(true, 0.00001, 8.0, 0.0, 0.0, Hourly, "", "", "", "");
            Normalized(p).monthly == 0.0 && Normalized(Normalized(p)).monthly == 208.0
  {
    var p := Profile(true, 0.00001, 8.0, 0.0, 0.0, Hourly, "", "", "", "");
    FloorIs(0.1, 0);
    FourPlacesOf(80_000);
    SecondMonthly(p);
  }

  // ------------------------------------------------- when a flag is raised

  /** Two positive numbers lie further apart than the tolerance. */
  predicate FarApart(a: real, b: real, tolerance: real) {
    a > 0.0 && b > 0.0 && (a > b + tolerance || b > a + tolerance)
  }

  lemma ApartIsFar(a: real, b: real, tolerance: real)
    ensures Apart(a, b, tolerance) <==> FarApart(a, b, tolerance)
  {
  }

  lemma RaisedOrNot(head: seq<Flag>, a: bool, x: Flag, b: bool, y: Flag, c: bool, z: Flag, flag: Flag)
    requires flag !in head
    ensures flag in head + (When(a, x) + When(b, y) + When(c, z)) <==>
              (a && flag == x) || (b && flag == y) || (c && flag == z)
  {
  }

  lemma FlagsFrom(v: View, profile: Profile, workplace: string) returns (head: seq<Flag>)
    requires profile.active
    ensures var p, own := Normalized(Normalized(profile)), Kept(v).saved;
            FlagsRaised(v, profile, workplace)
            == head + DifferencesOn(p, own.workDays.value, own.otHours.value, own.specialHours.value)
    ensures forall flag :: flag in head ==> flag.AppliedFrom? || flag.PaidAs?
  {
    var p, view := Normalized(Normalized(profile)), Applied(v, profile, workplace);
    assert view.saved == Kept(v).saved;
    head := [AppliedFrom(SourceLabel(p), if p.jobGroup == "" then Trim(view.terms.jobGroup) else p.jobGroup),
             PaidAs(p.payType)];
  }

  /** Which flags an active profile raises on an invoice, by the invoice's own hours before any
      profile: its overtime against the contract's extension, its special hours against the
      contract's overtime, both to a hundredth of an hour, and its monthly hours against the
      contract's to five percent of these. */
  lemma FlagsTell(v: View, profile: Profile, workplace: string, invoice: real, fixed: real)
    requires profile.active
    ensures var flags, p, own := FlagsRaised(v, profile, workplace), Normalized(Normalized(profile)), Kept(v).saved;
            && (OvertimeDiffers(invoice, fixed) in flags <==>
                  invoice == own.otHours.value && fixed == p.extension && FarApart(invoice, fixed, 0.01))
            && (SpecialDiffers(invoice, fixed) in flags <==>
                  invoice == own.specialHours.value && fixed == p.overtime && FarApart(invoice, fixed, 0.01))
            && (MonthlyDiffers(invoice, fixed) in flags <==>
                  invoice == own.workDays.value && fixed == p.monthly && FarApart(invoice, fixed, fixed / 20.0))
  {
    var p, own := Normalized(Normalized(profile)), Kept(v).saved;
    var head := FlagsFrom(v, profile, workplace);
    DifferencesMean(head, p, own.workDays.value, own.otHours.value, own.specialHours.value, invoice, fixed);
  }

  lemma DifferencesMean(head: seq<Flag>, p: Profile, work: real, ot: real, special: real, invoice: real, fixed: real)
    requires forall flag :: flag in head ==> flag.AppliedFrom? || flag.PaidAs?
    ensures var flags := head + DifferencesOn(p, work, ot, special);
            && (OvertimeDiffers(invoice, fixed) in flags <==>
                  invoice == ot && fixed == p.extension && FarApart(invoice, fixed, 0.01))
            && (SpecialDiffers(invoice, fixed) in flags <==>
                  invoice == special && fixed == p.overtime && FarApart(invoice, fixed, 0.01))
            && (MonthlyDiffers(invoice, fixed) in flags <==>
                  invoice == work && fixed == p.monthly && FarApart(invoice, fixed, fixed / 20.0))
  {
    var a, b := Apart(ot, p.extension, 0.01), Apart(special, p.overtime, 0.01);
    var c := Apart(work, p.monthly, p.monthly * 0.05);
    var x, y := OvertimeDiffers(ot, p.extension), SpecialDiffers(special, p.overtime);
    var z := MonthlyDiffers(work, p.monthly);
    RaisedOrNot(head, a, x, b, y, c, z, OvertimeDiffers(invoice, fixed));
    RaisedOrNot(head, a, x, b, y, c, z, SpecialDiffers(invoice, fixed));
    RaisedOrNot(head, a, x, b, y, c, z, MonthlyDiffers(invoice, fixed));
    ApartIsFar(ot, p.extension, 0.01);
    ApartIsFar(special, p.overtime, 0.01);
    ApartIsFar(work, p.monthly, p.monthly * 0.05);
    assert p.monthly * 0.05 == p.monthly / 20.0;
  }

  /** A profile that names no hours at all stands for 209 a month, and one that names only daily
      hours for 26 days of them, to four decimal places. */
  lemma HoursFound(p: Profile)
    requires p.monthly <= 0.0
    ensures p.daily <= 0.0 ==> Normalized(p).monthly == 209.0
    ensures p.daily > 0.0 ==> Normalized(p).monthly == FourPlaces(26.0 * p.daily)
  {
    FourPlacesOf(2_090_000);
    assert p.daily > 0.0 ==> p.daily * 26.0 > 0.0;
  }

  /** The first two flags of an active profile: where its hours come from and for which jobs, and
      how they are paid. */
  lemma FlagsBegin(v: View, profile: Profile, workplace: string)
    requires profile.active
    ensures var flags, source := FlagsRaised(v, profile, workplace), Trim(profile.sourceLabel);
            && |flags| >= 2 && flags[1] == PaidAs(profile.payType)
            && flags[0]
               == AppliedFrom(if source != "" then source else "근로계약서 기준 고정", Trim(profile.jobGroup))
  {
    var p, view := Normalized(Normalized(profile)), Applied(v, profile, workplace);
    TrimIdempotent(profile.sourceLabel);
    TrimIdempotent(profile.jobGroup);
    assert FlagsRaised(v, profile, workplace)[..2]
        == [AppliedFrom(SourceLabel(p), if p.jobGroup == "" then Trim(view.terms.jobGroup) else p.jobGroup),
            PaidAs(p.payType)];
  }
}
