/** The decision on one request, and what a policy in force can make of it. */
module Authorization {
  import opened JsonDocument
  import opened AuthPolicy
  import opened PolicyLoading
  import opened Text
  import opened Options

  datatype Scope = Scope(tenant: string, legalEntity: string, workplace: string)

  datatype Request = Request(
    policyId: string, operation: Operation, currentAcr: Option<Acr>, role: Option<string>,
    actor: Scope, resource: Scope, state: State)

  datatype Reason =
    | PolicyVersionUntrusted | AcrMissing | StepUpRequired | RoleMissing | RbacDenied | ScopeDenied | DataDenied
    | WorkflowDenied | PolicyInvalid | Authorized

  datatype Decision = Decision(
    allowed: bool, reason: Reason, role: Option<string>, requiredAcr: Acr, requiredDataClass: DataClass)

  // -------------------------------------------------------------- the gates

  predicate IsBlank(s: string) {
    Trim(s) == ""
  }

  predicate SameScope(a: string, b: string) {
    !IsBlank(a) && !IsBlank(b) && Trim(a) == Trim(b)
  }

  predicate Satisfies(current: Option<Acr>, required: Acr) {
    current.Some? && current.value.Rank() >= required.Rank()
  }

  predicate ScopeAllows(operations: Operations, op: Operation, actor: Scope, resource: Scope) {
    && SameScope(actor.tenant, resource.tenant)
    && SameScope(actor.legalEntity, resource.legalEntity)
    && (RequiresWorkplaceScope(operations, op) ==> SameScope(actor.workplace, resource.workplace))
  }

  /** The role a request names, if it names one. */
  function RoleOfRequest(vocab: Vocabulary, req: Request): Option<string> {
    if req.role.None? || IsBlank(req.role.value) then None else Some(vocab.role(Trim(req.role.value)))
  }

  function StepUpReason(current: Option<Acr>): Reason {
    if current.None? then AcrMissing else StepUpRequired
  }

  /** `evaluate_authorization` */
  function Decide(vocab: Vocabulary, p: Policy, req: Request): Decision {
    var required, class_ := RequiredAcr(p.operations, req.operation), RequiredDataClass(p.operations, req.operation);
    var named := RoleOfRequest(vocab, req);
    var known := named.Some? && named.value in p.roles;
    var reason :=
      if Trim(req.policyId) != p.policyId then PolicyVersionUntrusted
      else if !Satisfies(req.currentAcr, required) then StepUpReason(req.currentAcr)
      else if named.None? then RoleMissing
      else if !known || !p.roles[named.value].Permits(req.operation) then RbacDenied
      else if !ScopeAllows(p.operations, req.operation, req.actor, req.resource) then ScopeDenied
      else if p.roles[named.value].maxDataClass.Rank() < class_.Rank() then DataDenied
      else if !WorkflowAllows(p.operations, req.operation, req.state) then WorkflowDenied
      else Authorized;
    Decision(reason == Authorized, reason, if known then named else None, required, class_)
  }

  // ------------------------------------------------- the data-class ceiling

  /** The ceiling gate of the evaluator is dead under every policy whose grants keep to the
      ceilings, as built-in and loaded policies do. */
  lemma NeverDataDenied(vocab: Vocabulary, p: Policy, req: Request)
    requires WithinCeilings(p)
    ensures Decide(vocab, p, req).reason != DataDenied
  {
    var named := RoleOfRequest(vocab, req);
    if named.Some? && named.value in p.roles && p.roles[named.value].Permits(req.operation) {
      assert RequiredDataClass(p.operations, req.operation).Rank() <= p.roles[named.value].maxDataClass.Rank();
    }
  }

  /** A grant beyond its ceiling, under a role some request can name. */
  ghost predicate Exceeds(vocab: Vocabulary, p: Policy, name: string, op: Operation) {
    && !IsBlank(name)
    && vocab.role(Trim(name)) in p.roles
    && p.roles[vocab.role(Trim(name))].Permits(op)
    && p.roles[vocab.role(Trim(name))].maxDataClass.Rank() < RequiredDataClass(p.operations, op).Rank()
  }

  ghost predicate CanDenyData(vocab: Vocabulary, p: Policy) {
    exists req :: Decide(vocab, p, req).reason == DataDenied
  }

  /** Exactly the policies with a trimmed id and a reachable grant beyond its ceiling can deny
      for the data class. */
  lemma DataDeniedIffExceeded(vocab: Vocabulary, p: Policy)
    ensures CanDenyData(vocab, p) <==>
              Trim(p.policyId) == p.policyId && exists name, op :: Exceeds(vocab, p, name, op)
  {
    if CanDenyData(vocab, p) {
      var req :| Decide(vocab, p, req).reason == DataDenied;
      TrimIdempotent(req.policyId);
      assert Exceeds(vocab, p, req.role.value, req.operation);
    }
    if Trim(p.policyId) == p.policyId && exists name, op :: Exceeds(vocab, p, name, op) {
      var name, op :| Exceeds(vocab, p, name, op);
      ExceedingRequest(vocab, p, name, op);
    }
  }

  /** The request that meets every other gate. */
  lemma ExceedingRequest(vocab: Vocabulary, p: Policy, name: string, op: Operation)
    requires Trim(p.policyId) == p.policyId && Exceeds(vocab, p, name, op)
    ensures CanDenyData(vocab, p)
  {
    var here := Scope("a", "a", "a");
    assert !IsBlank("a");
    var req := Request(p.policyId, op, Some(Critical), Some(name), here, here, Open);
    assert Decide(vocab, p, req).reason == DataDenied;
  }

  // ------------------------------------------------------- omitted operations

  /** The operations with the built-in entry written out for every one that is omitted. */
  function Filled(operations: Operations): Operations {
    map op: Operation | op in ALL :: if op in operations then operations[op] else BuiltinEntry(op)
  }

  function FillIn(p: Policy): Policy {
    p.(operations := Filled(p.operations))
  }

  /** The four accessors fall back one by one, and to the same built-in entry. */
  lemma AccessorsAgree(operations: Operations, op: Operation)
    ensures RequiredAcr(Filled(operations), op) == RequiredAcr(operations, op)
    ensures RequiredDataClass(Filled(operations), op) == RequiredDataClass(operations, op)
    ensures RequiresWorkplaceScope(Filled(operations), op) == RequiresWorkplaceScope(operations, op)
    ensures forall state :: WorkflowAllows(Filled(operations), op, state) <==> WorkflowAllows(operations, op, state)
  {
    EveryOperationListed(op);
  }

  lemma {:induction false} MaxRankSame(a: Operations, b: Operations, n: nat)
    requires n <= |ALL| && forall op :: RequiredDataClass(a, op) == RequiredDataClass(b, op)
    ensures MaxRank(a, n) == MaxRank(b, n)
  {
    if n > 0 {
      MaxRankSame(a, b, n - 1);
      assert RequiredDataClass(a, ALL[n-1]) == RequiredDataClass(b, ALL[n-1]);
    }
  }

  lemma {:induction false} GrantsOfFilled(vocab: Vocabulary, a: Operations, b: Operations, ceiling: DataClass,
      items: seq<Json>)
    requires forall op :: RequiredDataClass(a, op) == RequiredDataClass(b, op)
    ensures GrantsOf(vocab, a, ceiling, items) == GrantsOf(vocab, b, ceiling, items)
  {
    if items != [] {
      GrantsOfFilled(vocab, a, b, ceiling, items[1..]);
      if items[0].Str? && GrantOf(vocab, items[0].s).Some? {
        ExercisableSame(a, b, ceiling, GrantOf(vocab, items[0].s).value);
      }
    }
  }

  lemma ExercisableSame(a: Operations, b: Operations, ceiling: DataClass, grant: Grant)
    requires forall op :: RequiredDataClass(a, op) == RequiredDataClass(b, op)
    ensures Exercisable(a, ceiling, grant) == Exercisable(b, ceiling, grant)
  {
    MaxRankSame(a, b, |ALL|);
  }

  lemma RoleOfFilled(vocab: Vocabulary, a: Operations, b: Operations, j: Json)
    requires forall op :: RequiredDataClass(a, op) == RequiredDataClass(b, op)
    ensures RoleOf(vocab, a, j) == RoleOf(vocab, b, j)
  {
    var ceiling := match TextField(j, "max_data_class") { case Some(s) => vocab.dataClass(s) case None => None };
    match (ceiling, Field(j, "grants"))
    case (Some(c), Some(Arr(items))) => GrantsOfFilled(vocab, a, b, c, items);
    case _ =>
  }

  lemma {:induction false} TableAlike<K, V>(members: seq<Member>, fold: string -> Option<K>, read: Json -> Option<V>,
      read': Json -> Option<V>)
    requires forall j :: read(j) == read'(j)
    ensures Table(members, fold, read) == Table(members, fold, read')
  {
    if members != [] {
      TableAlike(members[..|members|-1], fold, read, read');
    }
  }

  /** The role table of a document loads alike with and without the omitted operations. */
  lemma OmissionLoadsAlike(vocab: Vocabulary, operations: Operations, members: seq<Member>)
    ensures RolesOf(vocab, Filled(operations), members) == RolesOf(vocab, operations, members)
  {
    forall op ensures RequiredDataClass(Filled(operations), op) == RequiredDataClass(operations, op) {
      AccessorsAgree(operations, op);
    }
    RolesAlike(vocab, Filled(operations), operations, members);
  }

  lemma RolesAlike(vocab: Vocabulary, a: Operations, b: Operations, members: seq<Member>)
    requires forall op :: RequiredDataClass(a, op) == RequiredDataClass(b, op)
    ensures RolesOf(vocab, a, members) == RolesOf(vocab, b, members)
  {
    forall j ensures RoleOf(vocab, a, j) == RoleOf(vocab, b, j) {
      RoleOfFilled(vocab, a, b, j);
    }
    TableAlike(members, key => Some(vocab.role(key)), j => RoleOf(vocab, a, j), j => RoleOf(vocab, b, j));
  }

  lemma FilledDecidesAlike(vocab: Vocabulary, p: Policy, req: Request)
    ensures Decide(vocab, FillIn(p), req) == Decide(vocab, p, req)
  {
    AccessorsAgree(p.operations, req.operation);
  }

  // ------------------------------------------------------ what a decision says

  // What each gate asks, in the words of requests and policies.

  predicate IdMatches(p: Policy, req: Request) {
    Trim(req.policyId) == p.policyId
  }

  /** The authentication levels from the weakest to the strongest. */
  const LEVELS: seq<Acr> := [Routine, Elevated, Sensitive, Critical]

  ghost predicate AtLeast(current: Acr, required: Acr) {
    exists i, j :: 0 <= i <= j < |LEVELS| && LEVELS[i] == required && LEVELS[j] == current
  }

  ghost predicate StrongEnough(p: Policy, req: Request) {
    var op := req.operation;
    && req.currentAcr.Some?
    && AtLeast(req.currentAcr.value, if op in p.operations then p.operations[op].requiredAcr else BuiltinAcr(op))
  }

  predicate NamesRole(req: Request) {
    req.role.Some? && Trim(req.role.value) != ""
  }

  /** The role a request names holds the operation, by name or by the wildcard. */
  ghost predicate HoldsGrant(vocab: Vocabulary, p: Policy, req: Request) {
    && NamesRole(req)
    && var r := vocab.role(Trim(req.role.value));
    && r in p.roles && (One(req.operation) in p.roles[r].grants || Every in p.roles[r].grants)
  }

  predicate SamePlace(a: string, b: string) {
    Trim(a) == Trim(b) != ""
  }

  ghost predicate NeedsWorkplace(p: Policy, op: Operation) {
    if op in p.operations then p.operations[op].requiresWorkplaceScope else BuiltinScope(op)
  }

  ghost predicate InScope(p: Policy, req: Request) {
    && SamePlace(req.actor.tenant, req.resource.tenant)
    && SamePlace(req.actor.legalEntity, req.resource.legalEntity)
    && (NeedsWorkplace(p, req.operation) ==> SamePlace(req.actor.workplace, req.resource.workplace))
  }

  ghost predicate WindowOpen(p: Policy, req: Request) {
    var window := WindowFor(p.operations, req.operation);
    window.None? || req.state in window.value
  }

  ghost predicate PassesGates(vocab: Vocabulary, p: Policy, req: Request) {
    && IdMatches(p, req) && StrongEnough(p, req) && HoldsGrant(vocab, p, req)
    && InScope(p, req) && WindowOpen(p, req)
  }

  lemma LevelsInOrder(current: Acr, required: Acr)
    ensures AtLeast(current, required) <==> Satisfies(Some(current), required)
  {
    var i, j := required.Rank(), current.Rank();
    assert LEVELS[0] == Routine && LEVELS[1] == Elevated && LEVELS[2] == Sensitive && LEVELS[3] == Critical;
    assert LEVELS[i] == required && LEVELS[j] == current;
  }

  /** What a decision on a policy that keeps to its ceilings answers: the first of the gates that
      is shut, in this order, and no ceiling among them. */
  lemma ReasonOf(vocab: Vocabulary, p: Policy, req: Request)
    requires WithinCeilings(p)
    ensures Decide(vocab, p, req).reason ==
              if !IdMatches(p, req) then PolicyVersionUntrusted
              else if req.currentAcr.None? then AcrMissing
              else if !StrongEnough(p, req) then StepUpRequired
              else if !NamesRole(req) then RoleMissing
              else if !HoldsGrant(vocab, p, req) then RbacDenied
              else if !InScope(p, req) then ScopeDenied
              else if !WindowOpen(p, req) then WorkflowDenied
              else Authorized
    ensures Decide(vocab, p, req).allowed <==> PassesGates(vocab, p, req)
  {
    NeverDataDenied(vocab, p, req);
    if req.currentAcr.Some? {
      LevelsInOrder(req.currentAcr.value, RequiredAcr(p.operations, req.operation));
    }
  }

  /** The fail-closed workflow state shuts every operation that has a window. */
  lemma InconsistentShutsWindows(vocab: Vocabulary, p: Policy, req: Request)
    requires NeverInconsistent(p) && WindowFor(p.operations, req.operation).Some? && req.state == Inconsistent
    ensures !Decide(vocab, p, req).allowed
  {
    assert ShutWhenInconsistent(WindowFor(p.operations, req.operation));
  }

  /** The role a decision names is one of the policy's own, whatever the request wrote. */
  lemma EchoesOnlyKnownRoles(vocab: Vocabulary, p: Policy, req: Request)
    ensures var role := Decide(vocab, p, req).role;
            (role.Some? ==> role.value in p.roles) && (Decide(vocab, p, req).allowed ==> role.Some?)
  {
  }

  // ----------------------------------------------------- the policy in force

  /** What the policy variable of the environment holds. */
  datatype Source = Absent | NotUnicode | Blank | Malformed | Document(document: Json)

  ghost function InForce(vocab: Vocabulary, source: Source): Option<Policy> {
    match source
    case Absent | Blank => Some(BUILTIN)
    case NotUnicode | Malformed => None
    case Document(j) => if NoRepeatedKey(j) then PolicyOf(vocab, Collapse(j)) else None
  }

  /** `session_authorization_decision`: an invalid policy denies, and is never replaced by
      the built-in one. */
  ghost function Session(vocab: Vocabulary, source: Source, req: Request): Decision {
    match InForce(vocab, source)
    case Some(p) => Decide(vocab, p, req)
    case None => Decision(false, PolicyInvalid, None, BuiltinAcr(req.operation), BuiltinClass(req.operation))
  }

  /** Every policy that can be in force keeps to its ceilings and shuts the fail-closed state. */
  lemma InForceIsSound(source: Source)
    requires InForce(VOCABULARY, source).Some?
    ensures WithinCeilings(InForce(VOCABULARY, source).value) && NeverInconsistent(InForce(VOCABULARY, source).value)
  {
    match source
    case Document(j) =>
      LoadedWithinCeilings(VOCABULARY, Collapse(j));
      LoadedNeverInconsistent(Collapse(j));
    case _ =>
      BuiltinWithinCeilings();
      BuiltinNeverInconsistent();
  }

  /** `AuthzPolicy::from_env_var`: nothing means an invalid policy, a policy is never unsound, and
      a configured document is never replaced by another policy than its own. */
  method FromEnv(source: Source) returns (p: Option<Policy>)
    ensures p == InForce(VOCABULARY, source)
    ensures p.Some? ==> WithinCeilings(p.value) && NeverInconsistent(p.value)
    ensures p.Some? && source.Document? ==> p.value.policyId == PolicyIdOf(source.document) != ""
  {
    match source {
      case Absent | Blank => p := Some(BUILTIN);
      case NotUnicode | Malformed => p := None;
      case Document(j) => p := FromJson(VOCABULARY, j);
    }
    if p.Some? {
      InForceIsSound(source);
      if source.Document? { OwnPolicyId(source); }
    }
  }

  lemma OwnPolicyId(source: Source)
    requires source.Document? && InForce(VOCABULARY, source).Some?
    ensures InForce(VOCABULARY, source).value.policyId == PolicyIdOf(source.document) != ""
  {
    CollapseKeepsAll(source.document);
    LoadedPolicyId(VOCABULARY, source.document);
  }

  lemma LoadedPolicyId(vocab: Vocabulary, j: Json)
    requires PolicyOf(vocab, j).Some?
    ensures PolicyOf(vocab, j).value.policyId == PolicyIdOf(j) != ""
  {
  }

  /** Whatever the environment holds, no session is ever denied for the data class, an
      inconsistent deployment is allowed only operations without a window, a policy that cannot
      be loaded allows nothing, and no decision names a role that is not in the policy. */
  lemma SessionsFailClosed(source: Source, req: Request)
    ensures var decision := Session(VOCABULARY, source, req);
            && decision.reason != DataDenied
            && (InForce(VOCABULARY, source).None? <==> decision.reason == PolicyInvalid)
            && (decision.allowed ==> InForce(VOCABULARY, source).Some?)
            && (decision.allowed && req.state == Inconsistent ==>
                  WindowFor(InForce(VOCABULARY, source).value.operations, req.operation).None?)
            && (decision.role.Some? ==>
                  InForce(VOCABULARY, source).Some? && decision.role.value in InForce(VOCABULARY, source).value.roles)
  {
    if InForce(VOCABULARY, source).Some? {
      InForceIsSound(source);
      SoundDecision(VOCABULARY, InForce(VOCABULARY, source).value, req);
    }
  }

  lemma SoundDecision(vocab: Vocabulary, p: Policy, req: Request)
    requires WithinCeilings(p) && NeverInconsistent(p)
    ensures var decision := Decide(vocab, p, req);
            && decision.reason != DataDenied && decision.reason != PolicyInvalid
            && (decision.allowed && req.state == Inconsistent ==> WindowFor(p.operations, req.operation).None?)
            && (decision.role.Some? ==> decision.role.value in p.roles)
  {
    NeverDataDenied(vocab, p, req);
    EchoesOnlyKnownRoles(vocab, p, req);
    if req.state == Inconsistent && WindowFor(p.operations, req.operation).Some? {
      InconsistentShutsWindows(vocab, p, req);
    }
  }

  /** A session is allowed an operation exactly when a policy is in force, the session was issued
      under it, its authentication is at the required level or above, its role holds the operation,
      tenant, legal entity and, where it is required, workplace are those of the deployment, and
      the window is open; otherwise it is told the first of these that fails. */
  lemma SessionAllowedIff(source: Source, req: Request)
    ensures Session(VOCABULARY, source, req).allowed <==>
              InForce(VOCABULARY, source).Some? && PassesGates(VOCABULARY, InForce(VOCABULARY, source).value, req)
    ensures InForce(VOCABULARY, source).Some? ==>
              SaysWhy(InForce(VOCABULARY, source).value, req, Session(VOCABULARY, source, req).reason)
  {
    if InForce(VOCABULARY, source).Some? {
      InForceIsSound(source);
      ReasonOf(VOCABULARY, InForce(VOCABULARY, source).value, req);
    }
  }

  /** Each reason with what must have failed, and what must have held before. */
  ghost predicate SaysWhy(p: Policy, req: Request, reason: Reason) {
    && (reason == PolicyVersionUntrusted <==> !IdMatches(p, req))
    && (reason == AcrMissing <==> IdMatches(p, req) && req.currentAcr.None?)
    && (reason == StepUpRequired <==> IdMatches(p, req) && req.currentAcr.Some? && !StrongEnough(p, req))
    && (reason == RoleMissing <==> IdMatches(p, req) && StrongEnough(p, req) && !NamesRole(req))
    && (reason == RbacDenied <==>
          IdMatches(p, req) && StrongEnough(p, req) && NamesRole(req) && !HoldsGrant(VOCABULARY, p, req))
    && (reason == ScopeDenied <==>
          IdMatches(p, req) && StrongEnough(p, req) && HoldsGrant(VOCABULARY, p, req) && !InScope(p, req))
    && (reason == WorkflowDenied <==>
          && IdMatches(p, req) && StrongEnough(p, req) && HoldsGrant(VOCABULARY, p, req) && InScope(p, req)
          && !WindowOpen(p, req))
    && (reason == Authorized <==> PassesGates(VOCABULARY, p, req))
  }

  /** Besides its reason a decision tells the level and the class that the operation requires, by
      its entry or else by the built-in one, and the role of the session where the policy has it. */
  lemma DecisionTells(source: Source, req: Request, r: string)
    ensures var decision, p, op := Session(VOCABULARY, source, req), InForce(VOCABULARY, source), req.operation;
            && (p.Some? && op in p.value.operations ==>
                  && decision.requiredAcr == p.value.operations[op].requiredAcr
                  && decision.requiredDataClass == p.value.operations[op].requiredDataClass)
            && (p.None? || op !in p.value.operations ==>
                  decision.requiredAcr == BuiltinAcr(op) && decision.requiredDataClass == BuiltinClass(op))
            && (decision.role == Some(r) <==>
                  p.Some? && NamesRole(req) && r == VOCABULARY.role(Trim(req.role.value)) && r in p.value.roles)
  {
    match InForce(VOCABULARY, source)
    case Some(p) => DecisionEchoes(VOCABULARY, p, req, r);
    case None =>
  }

  lemma DecisionEchoes(vocab: Vocabulary, p: Policy, req: Request, r: string)
    ensures var decision := Decide(vocab, p, req);
            && decision.requiredAcr == RequiredAcr(p.operations, req.operation)
            && decision.requiredDataClass == RequiredDataClass(p.operations, req.operation)
            && (decision.role == Some(r) <==>
                  NamesRole(req) && r == vocab.role(Trim(req.role.value)) && r in p.roles)
  {
  }

  /** No session reaches beyond its tenant, its legal entity or, where it matters, its workplace:
      what is allowed here is refused for its scope anywhere else. */
  lemma OtherPlacesRefused(source: Source, req: Request, other: string)
    requires Session(VOCABULARY, source, req).allowed
    ensures Trim(other) != Trim(req.resource.tenant) ==>
              Session(VOCABULARY, source, req.(resource := req.resource.(tenant := other))).reason == ScopeDenied
    ensures Trim(other) != Trim(req.resource.legalEntity) ==>
              Session(VOCABULARY, source, req.(resource := req.resource.(legalEntity := other))).reason == ScopeDenied
    ensures NeedsWorkplace(InForce(VOCABULARY, source).value, req.operation) ==>
              Trim(other) != Trim(req.resource.workplace) ==>
                Session(VOCABULARY, source, req.(resource := req.resource.(workplace := other))).reason == ScopeDenied
  {
    var p := InForce(VOCABULARY, source).value;
    SessionAllowedIff(source, req);
    OutOfScope(source, p, req, req.resource.(tenant := other));
    OutOfScope(source, p, req, req.resource.(legalEntity := other));
    OutOfScope(source, p, req, req.resource.(workplace := other));
  }

  lemma OutOfScope(source: Source, p: Policy, req: Request, resource: Scope)
    requires InForce(VOCABULARY, source) == Some(p) && PassesGates(VOCABULARY, p, req)
    ensures !InScope(p, req.(resource := resource)) ==>
              Session(VOCABULARY, source, req.(resource := resource)).reason == ScopeDenied
  {
    SessionAllowedIff(source, req.(resource := resource));
    assert HoldsGrant(VOCABULARY, p, req.(resource := resource));
  }

  // ------------------------------------------------------------ role aliases

  lemma {:induction false} FoldFixed(s: string)
    requires forall i :: 0 <= i < |s| ==> !('A' <= s[i] <= 'Z') && s[i] != '-'
    ensures Fold(s) == s
  {
    if s != "" {
      FoldFixed(s[1..]);
    }
  }

  lemma {:induction false} FoldedAt(s: string, i: nat)
    requires i < |s|
    ensures !('A' <= Fold(s)[i] <= 'Z') && Fold(s)[i] != '-'
    ensures IsWhite(Fold(s)[i]) <==> IsWhite(s[i])
  {
    if i > 0 {
      FoldedAt(s[1..], i - 1);
    }
  }

  /** Text that is already folded and trimmed reads as itself. */
  lemma SettledText(value: string)
    ensures var s := Fold(Trim(value)); Fold(Trim(s)) == s
  {
    var t := Trim(value);
    var s := Fold(t);
    forall i | 0 <= i < |s| ensures !('A' <= s[i] <= 'Z') && s[i] != '-' {
      FoldedAt(t, i);
    }
    if s != "" {
      FoldedAt(t, 0);
      FoldedAt(t, |t| - 1);
    }
    FoldFixed(s);
  }

  predicate Settled(s: string) {
    && s != "" && !IsWhite(s[0]) && !IsWhite(s[|s|-1])
    && forall i :: 0 <= i < |s| ==> !('A' <= s[i] <= 'Z') && s[i] != '-'
  }

  lemma SettledReads(s: string)
    requires Settled(s)
    ensures Fold(Trim(s)) == s
  {
    FoldFixed(s);
  }

  lemma OperatingNamesSettled()
    ensures Settled("payroll_operator") && Settled("payroll_manager") && Settled("hr_operator") && Settled("hr_manager")
  {
  }

  lemma OversightNamesSettled()
    ensures Settled("approval_signer") && Settled("it_security_admin") && Settled("platform_owner")
              && Settled("support_sre")
  {
  }

  lemma CanonicalIsSettled(s: string)
    ensures CanonicalRole(s) == s || Settled(CanonicalRole(s))
  {
    OperatingNamesSettled();
    OversightNamesSettled();
  }

  lemma CanonicalIdempotent(s: string)
    ensures CanonicalRole(CanonicalRole(s)) == CanonicalRole(s)
  {
  }

  /** Folding aliases twice is folding them once, so a session that names a role by its key
      in the policy finds it. */
  lemma NormalizeRoleIdempotent(value: string)
    ensures NormalizeRole(NormalizeRole(value)) == NormalizeRole(value)
  {
    var canonical := CanonicalRole;
    forall s ensures canonical(canonical(s)) == canonical(s) && (canonical(s) == s || Settled(canonical(s))) {
      CanonicalIsSettled(s);
      CanonicalIdempotent(s);
    }
    NormalizesOnce(canonical, value);
  }

  lemma NormalizesOnce(canonical: string -> string, value: string)
    requires forall s :: canonical(canonical(s)) == canonical(s)
    requires forall s :: canonical(s) == s || Settled(canonical(s))
    ensures canonical(Fold(Trim(canonical(Fold(Trim(value)))))) == canonical(Fold(Trim(value)))
  {
    var s := Fold(Trim(value));
    var t := canonical(s);
    if t == s {
      SettledText(value);
    } else {
      SettledReads(t);
    }
  }
}
