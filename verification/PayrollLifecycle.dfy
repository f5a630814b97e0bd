/** The workflow state a deployment derives from its lifecycle flags, and what the
    authorization windows then guarantee over whole runs. */
module PayrollLifecycle {
  import opened AuthPolicy
  import opened Options
  import opened PolicyLoading
  import opened Authorization
  import opened Text

  datatype Flags = Flags(
    inputsClosed: bool, attendanceClosed: bool, deductionsReviewed: bool, calculated: bool, approvalRequested: bool,
    payoutPrepared: bool, evidenceArchived: bool)

  /** `payroll_auth_workflow_state` */
  function StateOf(f: Flags): State {
    var inputsTrio := f.inputsClosed && f.attendanceClosed && f.deductionsReviewed;
    var calculatedChain := inputsTrio && f.calculated;
    var approvalChain := calculatedChain && f.approvalRequested;
    var approvedChain := approvalChain && f.payoutPrepared;
    if f.calculated && !inputsTrio then Inconsistent
    else if f.approvalRequested && !calculatedChain then Inconsistent
    else if f.payoutPrepared && !approvalChain then Inconsistent
    else if f.evidenceArchived && !approvedChain then Inconsistent
    else if f.evidenceArchived then Archived
    else if f.payoutPrepared then Approved
    else if f.approvalRequested then ApprovalPending
    else if f.calculated then Calculated
    else if inputsTrio then InputsClosed
    else Open
  }

  // ---------------------------------------------------- the stages behind it

  /** The five stages in their order; the first is reached when all inputs are in. */
  function Stages(f: Flags): (stages: seq<bool>)
    ensures |stages| == 5
  {
    [f.inputsClosed && f.attendanceClosed && f.deductionsReviewed, f.calculated, f.approvalRequested, f.payoutPrepared,
     f.evidenceArchived]
  }

  function StageCount(stages: seq<bool>): (n: nat)
    ensures n <= |stages|
  {
    if stages == [] then 0 else (if stages[0] then 1 else 0) + StageCount(stages[1..])
  }

  /** Some stage is reached although an earlier one is not. */
  ghost predicate SkipsAStage(stages: seq<bool>) {
    exists i, j :: 0 <= i < j < |stages| && !stages[i] && stages[j]
  }

  const IN_ORDER: seq<State> := [Open, InputsClosed, Calculated, ApprovalPending, Approved, Archived]

  predicate Consistent(f: Flags) {
    StateOf(f) != Inconsistent
  }

  /** How far a consistent deployment has come. */
  function Rank(s: State): nat {
    match s
    case Open => 0 case InputsClosed => 1 case Calculated => 2 case ApprovalPending => 3 case Approved => 4
    case Archived => 5 case Inconsistent => 6
  }

  /** The state is inconsistent exactly when a stage is skipped, and otherwise says how many
      stages are reached. */
  lemma StateCountsStages(f: Flags)
    ensures StateOf(f) == Inconsistent <==> SkipsAStage(Stages(f))
    ensures Consistent(f) ==> StateOf(f) == IN_ORDER[StageCount(Stages(f))]
    ensures Consistent(f) ==> forall i :: 0 <= i < 5 ==> (Stages(f)[i] <==> i < Rank(StateOf(f)))
  {
    var s := Stages(f);
    CountFive(s);
    if StateOf(f) == Inconsistent {
      assert (!s[0] && s[1]) || (!s[1] && s[2]) || (!s[2] && s[3]) || (!s[3] && s[4]);
    }
  }

  lemma CountFive(s: seq<bool>)
    requires |s| == 5
    ensures StageCount(s) == Bit(s[0]) + Bit(s[1]) + Bit(s[2]) + Bit(s[3]) + Bit(s[4])
  {
    assert s[1..][1..] == s[2..] && s[2..][1..] == s[3..] && s[3..][1..] == s[4..] && s[4..][1..] == [];
    assert StageCount(s[4..]) == Bit(s[4]);
    assert StageCount(s[3..]) == Bit(s[3]) + StageCount(s[4..]);
    assert StageCount(s[2..]) == Bit(s[2]) + StageCount(s[3..]);
    assert StageCount(s[1..]) == Bit(s[1]) + StageCount(s[2..]);
  }

  function Bit(b: bool): nat {
    if b then 1 else 0
  }

  // ------------------------------------------------------------- whole runs

  /** Every flag of `f` is still set in `g`. */
  predicate Keeps(f: Flags, g: Flags) {
    && (f.inputsClosed ==> g.inputsClosed) && (f.attendanceClosed ==> g.attendanceClosed)
    && (f.deductionsReviewed ==> g.deductionsReviewed) && (f.calculated ==> g.calculated)
    && (f.approvalRequested ==> g.approvalRequested) && (f.payoutPrepared ==> g.payoutPrepared)
    && (f.evidenceArchived ==> g.evidenceArchived)
  }

  /** One moment of a run: the flags then, the request decided then, and whether it was
      granted. */
  datatype Moment = Moment(flags: Flags, request: Request, granted: bool)

  /** In a run flags are only ever turned on, and every request is decided in the workflow state
      of the flags, under whatever policy the environment holds. */
  ghost predicate IsRun(source: Source, run: seq<Moment>) {
    OnlyTurnedOn(run) && forall i :: 0 <= i < |run| ==> Decided(source, run, i)
  }

  ghost predicate Decided(source: Source, run: seq<Moment>, i: nat)
    requires i < |run|
  {
    DecidedAt(source, run[i])
  }

  ghost predicate DecidedAt(source: Source, m: Moment) {
    m.request.state == StateOf(m.flags) && m.granted == Session(VOCABULARY, source, m.request).allowed
  }

  ghost predicate OnlyTurnedOn(run: seq<Moment>) {
    forall i :: 0 < i < |run| ==> StepKeeps(run, i)
  }

  predicate StepKeeps(run: seq<Moment>, i: nat) {
    0 < i < |run| ==> Keeps(run[i-1].flags, run[i].flags)
  }

  /** `op` was granted at moment `i`. */
  predicate Granted(run: seq<Moment>, i: nat, op: Operation) {
    i < |run| && run[i].request.operation == op && run[i].granted
  }

  function StateAt(run: seq<Moment>, i: nat): State
    requires i < |run|
  {
    StateOf(run[i].flags)
  }

  lemma {:induction false} FlagsStay(run: seq<Moment>, i: nat, j: nat)
    requires OnlyTurnedOn(run) && i <= j < |run|
    ensures Keeps(run[i].flags, run[j].flags)
  {
    if i < j {
      FlagsStay(run, i, j - 1);
      assert StepKeeps(run, j);
    }
  }

  /** Consistent states never move backwards. */
  lemma NeverBackwards(run: seq<Moment>, i: nat, j: nat)
    requires OnlyTurnedOn(run) && i <= j < |run| && Consistent(run[i].flags) && Consistent(run[j].flags)
    ensures Rank(StateAt(run, i)) <= Rank(StateAt(run, j))
  {
    FlagsStay(run, i, j);
    LaterRank(run[i].flags, run[j].flags);
  }

  lemma LaterRank(f: Flags, g: Flags)
    requires Keeps(f, g) && Consistent(f) && Consistent(g)
    ensures Rank(StateOf(f)) <= Rank(StateOf(g))
  {
  }

  // ------------------------------------------------------ under one policy

  /** The same, under a given policy. */
  ghost predicate IsRunUnder(vocab: Vocabulary, p: Policy, run: seq<Moment>) {
    OnlyTurnedOn(run) && forall i :: 0 <= i < |run| ==> DecidedUnder(vocab, p, run, i)
  }

  ghost predicate DecidedUnder(vocab: Vocabulary, p: Policy, run: seq<Moment>, i: nat)
    requires i < |run|
  {
    run[i].request.state == StateOf(run[i].flags) && run[i].granted == Decide(vocab, p, run[i].request).allowed
  }

  /** An operation with a window was granted in one of the states of the window, and never in
      the fail-closed one. */
  lemma GrantedInWindow(vocab: Vocabulary, p: Policy, run: seq<Moment>, i: nat, op: Operation)
    requires IsRunUnder(vocab, p, run) && NeverInconsistent(p)
    requires Granted(run, i, op) && WindowFor(p.operations, op).Some?
    ensures StateAt(run, i) in WindowFor(p.operations, op).value && Consistent(run[i].flags)
  {
    assert DecidedUnder(vocab, p, run, i);
    assert ShutWhenInconsistent(WindowFor(p.operations, op));
  }

  /** Between two granted operations with windows a run only moves forwards, so the later
      window must hold a state the earlier one does not lie beyond. */
  lemma GrantsMoveForward(vocab: Vocabulary, p: Policy, run: seq<Moment>, i: nat, first: Operation, j: nat,
      second: Operation)
    requires IsRunUnder(vocab, p, run) && NeverInconsistent(p) && i <= j
    requires Granted(run, i, first) && WindowFor(p.operations, first).Some?
    requires Granted(run, j, second) && WindowFor(p.operations, second).Some?
    ensures Rank(StateAt(run, i)) <= Rank(StateAt(run, j))
    ensures StateAt(run, i) in WindowFor(p.operations, first).value
    ensures StateAt(run, j) in WindowFor(p.operations, second).value
  {
    GrantedInWindow(vocab, p, run, i, first);
    GrantedInWindow(vocab, p, run, j, second);
    NeverBackwards(run, i, j);
  }

  // ------------------------------------------- under the policy in force

  /** The policy in force opens this operation in no state in which the built-in one shuts it: it
      may narrow the window, but not widen it. */
  ghost predicate NotWidened(source: Source, op: Operation) {
    InForce(VOCABULARY, source).Some? && BuiltinWindow(op).Some? ==>
      var window := WindowFor(InForce(VOCABULARY, source).value.operations, op);
      window.Some? && window.value <= BuiltinWindow(op).value
  }

  /** No window is widened where no document is configured, nor where it says nothing of the
      operation. */
  lemma OmittedIsNotWidened(source: Source, op: Operation)
    requires source.Document? && InForce(VOCABULARY, source).Some? ==>
               op !in InForce(VOCABULARY, source).value.operations
    ensures NotWidened(source, op)
  {
    if !source.Document? {
      BuiltinIsComplete(op);
    }
  }

  /** Where something was granted there is a policy in force, and it is sound. */
  lemma UnderPolicy(source: Source, run: seq<Moment>, i: nat, op: Operation) returns (p: Policy)
    requires IsRun(source, run) && Granted(run, i, op)
    ensures InForce(VOCABULARY, source) == Some(p) && IsRunUnder(VOCABULARY, p, run) && NeverInconsistent(p)
  {
    assert Decided(source, run, i);
    SessionsFailClosed(source, run[i].request);
    p := InForce(VOCABULARY, source).value;
    InForceIsSound(source);
    RunUnder(source, p, run);
  }

  lemma RunUnder(source: Source, p: Policy, run: seq<Moment>)
    requires IsRun(source, run) && InForce(VOCABULARY, source) == Some(p)
    ensures IsRunUnder(VOCABULARY, p, run)
  {
    forall i | 0 <= i < |run| ensures DecidedUnder(VOCABULARY, p, run, i) {
      assert Decided(source, run, i);
    }
  }

  /** The states in which two operations were granted, whose windows are not widened. */
  lemma StatesOfGrants(source: Source, run: seq<Moment>, i: nat, first: Operation, j: nat, second: Operation)
    requires IsRun(source, run) && i <= j && NotWidened(source, first) && NotWidened(source, second)
    requires Granted(run, i, first) && Granted(run, j, second)
    ensures Successive(first, StateAt(run, i), second, StateAt(run, j))
  {
    var p := UnderPolicy(source, run, i, first);
    if BuiltinWindow(first).Some? && BuiltinWindow(second).Some? {
      GrantsMoveForward(VOCABULARY, p, run, i, first, j, second);
    }
  }

  /** `second` may be granted in `t` after `first` was in `s`, by the built-in windows. */
  predicate Successive(first: Operation, s: State, second: Operation, t: State) {
    BuiltinWindow(first).Some? && BuiltinWindow(second).Some? ==>
      s in BuiltinWindow(first).value && t in BuiltinWindow(second).value && Rank(s) <= Rank(t)
  }

  /** Once a payroll run was granted, policy and template changes are granted only after the
      payroll is approved: the rules of a running payroll are frozen. */
  lemma RulesFrozenAfterPayrollRun(source: Source, run: seq<Moment>, i: nat, j: nat, change: Operation)
    requires IsRun(source, run) && i <= j && (change == PayrollPolicyChange || change == WorkflowTemplateWrite)
    requires NotWidened(source, PayrollRun) && NotWidened(source, change)
    requires Granted(run, i, PayrollRun) && Granted(run, j, change)
    ensures StateAt(run, j) == Approved || StateAt(run, j) == Archived
  {
    StatesOfGrants(source, run, i, PayrollRun, j, change);
    AheadOfRun(StateAt(run, i), change, StateAt(run, j));
  }

  lemma AheadOfRun(s: State, change: Operation, t: State)
    requires change == PayrollPolicyChange || change == WorkflowTemplateWrite
    requires Successive(PayrollRun, s, change, t)
    ensures t == Approved || t == Archived
  {
  }

  /** Once an export was granted, nothing that could change the payroll is granted again. */
  lemma NothingChangesAfterExport(source: Source, run: seq<Moment>, i: nat, j: nat, op: Operation)
    requires IsRun(source, run) && i <= j && (op == PayrollRun || op == ApprovalSigning || op == WorkflowStepExecute)
    requires NotWidened(source, PayrollExport) && NotWidened(source, op)
    requires Granted(run, i, PayrollExport)
    ensures !Granted(run, j, op)
  {
    if Granted(run, j, op) {
      StatesOfGrants(source, run, i, PayrollExport, j, op);
      NeverAfterExport(StateAt(run, i), op, StateAt(run, j));
    }
  }

  lemma NeverAfterExport(s: State, op: Operation, t: State)
    requires op == PayrollRun || op == ApprovalSigning || op == WorkflowStepExecute
    ensures !Successive(PayrollExport, s, op, t)
  {
  }

  /** A payroll run after a granted signature is a recalculation of what was signed. */
  lemma RunAfterSigning(source: Source, run: seq<Moment>, i: nat, j: nat)
    requires IsRun(source, run) && i <= j && NotWidened(source, ApprovalSigning) && NotWidened(source, PayrollRun)
    requires Granted(run, i, ApprovalSigning) && Granted(run, j, PayrollRun)
    ensures StateAt(run, i) == Calculated && StateAt(run, j) == Calculated
  {
    StatesOfGrants(source, run, i, ApprovalSigning, j, PayrollRun);
    BetweenSigningAndRun(StateAt(run, i), StateAt(run, j));
  }

  lemma BetweenSigningAndRun(s: State, t: State)
    requires Successive(ApprovalSigning, s, PayrollRun, t)
    ensures s == t == Calculated
  {
  }

  // ------------------------------------------ the guarantees are not vacuous

  /** Turning on the flags of one stage after the other passes through every state in order. */
  function Reached(n: nat): Flags
    requires n <= 5
  {
    Flags(n >= 1, n >= 1, n >= 1, n >= 2, n >= 3, n >= 4, n >= 5)
  }

  lemma OrderlyRun(n: nat)
    requires n <= 5
    ensures StateOf(Reached(n)) == IN_ORDER[n]
    ensures n < 5 ==> Keeps(Reached(n), Reached(n + 1))
  {
    assert IN_ORDER[0] == Open && IN_ORDER[1] == InputsClosed && IN_ORDER[2] == Calculated;
    assert IN_ORDER[3] == ApprovalPending && IN_ORDER[4] == Approved && IN_ORDER[5] == Archived;
  }

  lemma ManagerSettled(name: string)
    requires name == "payroll_manager"
    ensures Settled(name)
  {
  }

  lemma ManagerCanonical(name: string)
    requires name == "payroll_manager"
    ensures CanonicalRole(name) == name
  {
  }

  lemma ReadsAsItself(name: string)
    requires Settled(name) && CanonicalRole(name) == name
    ensures VOCABULARY.role(Trim(name)) == name && !IsBlank(name)
  {
    SettledTrim(name);
    SettledReads(name);
  }

  lemma SettledTrim(s: string)
    requires Settled(s)
    ensures Trim(s) == s
  {
  }

  lemma PolicyIdTrimmed()
    ensures Trim(POLICY_ID) == POLICY_ID
  {
  }

  lemma ManagerRole()
    ensures "payroll_manager" in BUILTIN.roles && BUILTIN.roles["payroll_manager"] == PAYROLL_MANAGER
  {
  }

  /** A payroll manager at work under the built-in policy. */
  lemma ManagerMay(op: Operation, state: State) returns (req: Request)
    requires op == PayrollRun || op == PayrollPolicyChange
    requires state in BuiltinWindow(op).value
    ensures req.operation == op && req.state == state && Session(VOCABULARY, Absent, req).allowed
  {
    var here, name := Scope("a", "a", "a"), "payroll_manager";
    req := Request(POLICY_ID, op, Some(Sensitive), Some(name), here, here, state);
    ManagerSettled(name);
    ManagerCanonical(name);
    ReadsAsItself(name);
    PolicyIdTrimmed();
    ManagerRole();
    AlikeHere();
    BuiltinIsComplete(op);
    ManagerPasses(BUILTIN, name, req);
    SessionAllowedIff(Absent, req);
  }

  lemma AlikeHere()
    ensures SamePlace("a", "a")
  {
  }

  lemma ManagerPasses(p: Policy, role: string, req: Request)
    requires req.operation == PayrollRun || req.operation == PayrollPolicyChange
    requires req.operation in p.operations && p.operations[req.operation] == BuiltinEntry(req.operation)
    requires Trim(req.policyId) == p.policyId && req.currentAcr == Some(Sensitive)
    requires RoleOfRequest(VOCABULARY, req) == Some(role) && role in p.roles && p.roles[role] == PAYROLL_MANAGER
    requires req.actor == req.resource == Scope("a", "a", "a") && SamePlace("a", "a")
    requires req.state in BuiltinWindow(req.operation).value
    ensures PassesGates(VOCABULARY, p, req)
  {
    LevelsInOrder(Sensitive, BuiltinAcr(req.operation));
    assert PAYROLL_MANAGER.Permits(req.operation);
  }

  lemma ManagerMoment(source: Source, op: Operation, flags: Flags) returns (m: Moment)
    requires op == PayrollRun || op == PayrollPolicyChange
    requires source == Absent && StateOf(flags) in BuiltinWindow(op).value
    ensures m.flags == flags && m.request.operation == op && m.granted && DecidedAt(source, m)
  {
    var req := ManagerMay(op, StateOf(flags));
    m := Moment(flags, req, true);
  }

  lemma CalculatedMoment(source: Source) returns (m: Moment)
    requires source == Absent
    ensures m.flags == Reached(2) && m.request.operation == PayrollRun && m.granted && DecidedAt(source, m)
  {
    m := ManagerMoment(source, PayrollRun, Reached(2));
  }

  lemma ApprovedMoment(source: Source) returns (m: Moment)
    requires source == Absent
    ensures m.flags == Reached(4) && m.request.operation == PayrollPolicyChange && m.granted && DecidedAt(source, m)
  {
    m := ManagerMoment(source, PayrollPolicyChange, Reached(4));
  }

  lemma TwoMoments(source: Source, a: Moment, b: Moment)
    requires Keeps(a.flags, b.flags) && DecidedAt(source, a) && DecidedAt(source, b)
    ensures IsRun(source, [a, b])
  {
    var run := [a, b];
    assert StepKeeps(run, 1);
    assert Decided(source, run, 0) && Decided(source, run, 1);
  }

  /** A run in which both happen under the built-in policy: the payroll is run when everything is
      calculated, and the policy changed once it is approved. */
  lemma RunThenChange(source: Source) returns (run: seq<Moment>)
    requires source == Absent
    ensures |run| == 2 && IsRun(source, run)
    ensures Granted(run, 0, PayrollRun) && StateAt(run, 0) == Calculated
    ensures Granted(run, 1, PayrollPolicyChange) && StateAt(run, 1) == Approved
  {
    var a := CalculatedMoment(source);
    var b := ApprovedMoment(source);
    TwoMoments(source, a, b);
    run := [a, b];
  }
}
