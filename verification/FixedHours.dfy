/** Contractual fixed hours put over the hours of an invoice, whose own hours are kept aside. */
module FixedHours {
  import opened HoursRounding
  import opened Numbers
  import opened Options
  import opened Rounding
  import opened Text

  datatype PayType = Hourly | MonthlySalary

  datatype Profile = Profile(
    active: bool, monthly: real, daily: real, overtime: real, extension: real, payType: PayType, jobGroup: string,
    source: string, sourceLabel: string, contractId: string)

  const STANDARD_MONTHLY_HOURS := 209.0

  const CONTRACT_LABEL := "근로계약서 기준 고정"

  /** The monthly hours a profile asks for, before they are rounded. */
  function HoursGiven(p: Profile): (hours: real)
    ensures hours > 0.0
  {
    var given := if p.monthly <= 0.0 && p.daily > 0.0 then p.daily * 26.0 else p.monthly;
    if given <= 0.0 then STANDARD_MONTHLY_HOURS else given
  }

  /** `FixedHoursProfile::normalized` */
  function Normalized(p: Profile): Profile {
    Profile(p.active, FourPlaces(HoursGiven(p)), if p.daily > 0.0 then FourPlaces(p.daily) else 0.0,
            AtLeastZero(p.overtime), AtLeastZero(p.extension), p.payType,
            Trim(p.jobGroup), Trim(p.source), Trim(p.sourceLabel), Trim(p.contractId))
  }

  function SourceLabel(p: Profile): string {
    if p.sourceLabel == "" then CONTRACT_LABEL else p.sourceLabel
  }

  /** The hours of the invoice itself, once they are kept aside. */
  datatype Saved = Saved(
    workDays: Option<real>, baseDays: Option<real>, otHours: Option<real>, specialHours: Option<real>,
    specialExtHours: Option<real>)

  const NOTHING_SAVED := Saved(None, None, None, None, None)

  /** What the last profile put on an invoice. */
  datatype Terms = Terms(
    monthlyHours: Option<real>, monthlySource: string, fixedMode: bool, fixedSource: string, payType: Option<PayType>,
    jobGroup: string)

  const NO_TERMS := Terms(None, "", false, "", None, "")

  /** What an invoice says. */
  datatype View = View(
    name: string, workplace: string, workDays: real, baseDays: real, otHours: real, specialHours: real,
    specialExtHours: real, saved: Saved, terms: Terms, preserveReference: bool)

  /** What an audit may flag, with the numbers it shows. */
  datatype Flag =
    | AppliedFrom(basis: string, jobGroup: string)
    | PaidAs(payType: PayType)
    | OvertimeDiffers(invoice: real, fixed: real)
    | SpecialDiffers(invoice: real, fixed: real)
    | MonthlyDiffers(invoice: real, fixed: real)

  // ------------------------------------------------------------ one profile

  function Kept(v: View): View {
    var s := v.saved;
    v.(saved := Saved(s.workDays.Or(Some(v.workDays)), s.baseDays.Or(Some(v.baseDays)), s.otHours.Or(Some(v.otHours)),
                      s.specialHours.Or(Some(v.specialHours)), s.specialExtHours.Or(Some(v.specialExtHours))))
  }

  /** The monthly hours a normalized profile puts on an invoice with the given hours. */
  function MonthlyHours(p: Profile, preserve: bool, invoiceHours: real): real {
    if preserve && invoiceHours > 0.0 then invoiceHours
    else if p.monthly > 0.0 then p.monthly
    else STANDARD_MONTHLY_HOURS
  }

  /** The contract's terms put over an invoice whose hours are kept aside. */
  function WithTerms(v: View, p: Profile): View {
    var monthly := MonthlyHours(p, v.preserveReference, v.saved.workDays.Or(v.saved.baseDays).Else(0.0));
    v.(terms := Terms(Some(monthly), SourceLabel(p), true, p.source, Some(p.payType), p.jobGroup), baseDays := monthly,
       workDays := monthly)
  }

  /** The hours and the workplace that only some profiles set. */
  function WithExtras(v: View, p: Profile, workplace: string): View {
    v.(otHours := if p.extension > 0.0 then p.extension else v.otHours,
       specialHours := if p.overtime > 0.0 then p.overtime else v.specialHours,
       workplace := if Trim(workplace) == "" then v.workplace else Trim(workplace))
  }

  /** The invoice after `apply_fixed_hours_to_invoice`. */
  function Applied(v: View, profile: Profile, workplace: string): View {
    var p := Normalized(profile);
    if p.active then WithExtras(WithTerms(Kept(v), p), p, workplace) else v
  }

  function When(holds: bool, flag: Flag): seq<Flag> {
    if holds then [flag] else []
  }

  predicate Apart(a: real, b: real, tolerance: real) {
    a > 0.0 && b > 0.0 && Abs(a - b) > tolerance
  }

  function DifferencesOn(p: Profile, workDays: real, otHours: real, specialHours: real): seq<Flag> {
    When(Apart(otHours, p.extension, 0.01), OvertimeDiffers(otHours, p.extension))
    + When(Apart(specialHours, p.overtime, 0.01), SpecialDiffers(specialHours, p.overtime))
    + When(Apart(workDays, p.monthly, p.monthly * 0.05), MonthlyDiffers(workDays, p.monthly))
  }

  /** The flags raised under a normalized profile for an invoice with the given own hours. */
  function FlagsOn(p: Profile, jobGroup: string, workDays: real, otHours: real, specialHours: real): seq<Flag> {
    [AppliedFrom(SourceLabel(p), if p.jobGroup == "" then jobGroup else p.jobGroup), PaidAs(p.payType)]
    + DifferencesOn(p, workDays, otHours, specialHours)
  }

  function FlagsFor(v: View, p: Profile): seq<Flag> {
    if p.active && v.terms.fixedMode
    then FlagsOn(p, Trim(v.terms.jobGroup), v.saved.workDays.Else(0.0), v.saved.otHours.Else(v.otHours),
                 v.saved.specialHours.Else(v.specialHours))
    else []
  }

  /** The flags an application returns; the profile is normalized twice on the way. */
  function FlagsRaised(v: View, profile: Profile, workplace: string): seq<Flag> {
    if profile.active then FlagsFor(Applied(v, profile, workplace), Normalized(Normalized(profile))) else []
  }

  // ------------------------------------------------------------- the invoice

  class Invoice {
    var name: string
    var workplace: string
    var workDays: real
    var baseDays: real
    var otHours: real
    var specialHours: real
    var specialExtHours: real
    var saved: Saved
    var terms: Terms
    var preserveReference: bool

    function Contents(): View
      reads this
    {
      View(name, workplace, workDays, baseDays, otHours, specialHours, specialExtHours, saved, terms, preserveReference)
    }

    /** A new invoice has nothing kept aside and no profile applied. */
    constructor (name: string, workplace: string, workDays: real, baseDays: real, otHours: real, specialHours: real,
                 specialExtHours: real, preserveReference: bool)
      ensures Contents() == View(Trim(name), Trim(workplace), workDays, baseDays, otHours, specialHours,
                                 specialExtHours, Saved(None, None, None, None, None),
                                 Terms(None, "", false, "", None, ""), preserveReference)
    {
      this.name, this.workplace := Trim(name), Trim(workplace);
      this.workDays, this.baseDays, this.otHours := workDays, baseDays, otHours;
      this.specialHours, this.specialExtHours := specialHours, specialExtHours;
      saved, terms := NOTHING_SAVED, NO_TERMS;
      this.preserveReference := preserveReference;
    }

    /** `preserve_invoice_values` */
    method Preserve()
      modifies this
      ensures Contents() == Kept(old(Contents()))
    {
      if saved.workDays.None? { saved := saved.(workDays := Some(workDays)); }
      if saved.baseDays.None? { saved := saved.(baseDays := Some(baseDays)); }
      if saved.otHours.None? { saved := saved.(otHours := Some(otHours)); }
      if saved.specialHours.None? { saved := saved.(specialHours := Some(specialHours)); }
      if saved.specialExtHours.None? { saved := saved.(specialExtHours := Some(specialExtHours)); }
    }

    /** `apply_fixed_hours_to_invoice` */
    method Apply(profile: Profile, workplace: string) returns (applied: bool, normalized: Profile, flags: seq<Flag>)
      modifies this
      ensures normalized == Normalized(profile) && applied == profile.active
      ensures Contents() == Applied(old(Contents()), profile, workplace)
      ensures flags == FlagsRaised(old(Contents()), profile, workplace)
    {
      normalized := Normalized(profile);
      if !normalized.active {
        return false, normalized, [];
      }
      Preserve();
      SetTerms(normalized);
      if normalized.extension > 0.0 {
        otHours := normalized.extension;
      }
      if normalized.overtime > 0.0 {
        specialHours := normalized.overtime;
      }
      if Trim(workplace) != "" {
        this.workplace := Trim(workplace);
      }
      flags := AuditFlags(normalized);
      applied := true;
    }

    method SetTerms(p: Profile)
      modifies this
      ensures Contents() == WithTerms(old(Contents()), p)
    {
      var monthly := if p.monthly > 0.0 then p.monthly else STANDARD_MONTHLY_HOURS;
      var invoiceHours := saved.workDays.Or(saved.baseDays).Else(0.0);
      if preserveReference && invoiceHours > 0.0 {
        monthly := invoiceHours;
      }
      terms := terms.(monthlyHours := Some(monthly), monthlySource := SourceLabel(p));
      terms := terms.(fixedMode := true, fixedSource := p.source);
      terms := terms.(payType := Some(p.payType), jobGroup := p.jobGroup);
      baseDays := monthly;
      workDays := monthly;
    }

    /** `fixed_hours_audit_flags`, which normalizes the profile again. */
    method AuditFlags(profile: Profile) returns (flags: seq<Flag>)
      ensures flags == FlagsFor(Contents(), Normalized(profile))
    {
      flags := RaiseFlags(Normalized(profile));
    }

    method RaiseFlags(p: Profile) returns (flags: seq<Flag>)
      ensures flags == FlagsFor(Contents(), p)
    {
      flags := [];
      if !p.active || !terms.fixedMode {
        return;
      }
      flags := flags + [AppliedFrom(SourceLabel(p), if p.jobGroup == "" then Trim(terms.jobGroup) else p.jobGroup)];
      flags := flags + [PaidAs(p.payType)];
      var differences := Differences(p);
      flags := flags + differences;
    }

    /** The flags for hours that differ from the contract. */
    method Differences(p: Profile) returns (flags: seq<Flag>)
      ensures flags == DifferencesOn(p, saved.workDays.Else(0.0), saved.otHours.Else(otHours),
                saved.specialHours.Else(specialHours))
    {
      flags := [];
      var invoiceOt, invoiceSpecial := saved.otHours.Else(otHours), saved.specialHours.Else(specialHours);
      if p.extension > 0.0 && invoiceOt > 0.0 && Abs(invoiceOt - p.extension) > 0.01 {
        flags := flags + [OvertimeDiffers(invoiceOt, p.extension)];
      }
      if p.overtime > 0.0 && invoiceSpecial > 0.0 && Abs(invoiceSpecial - p.overtime) > 0.01 {
        flags := flags + [SpecialDiffers(invoiceSpecial, p.overtime)];
      }
      var invoiceWork := saved.workDays.Else(0.0);
      if invoiceWork > 0.0 && p.monthly > 0.0 && Abs(invoiceWork - p.monthly) > p.monthly * 0.05 {
        flags := flags + [MonthlyDiffers(invoiceWork, p.monthly)];
      }
    }
  }
}
