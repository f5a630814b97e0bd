/** The authorization policy: its vocabulary, the built-in matrix, the validating loader of
    policy documents, and the evaluator. */
module AuthPolicy {
  import opened JsonDocument
  import opened Text
  import opened Options

  // ------------------------------------------------------------- vocabulary

  datatype Acr = Routine | Elevated | Sensitive | Critical
  {
    function Rank(): nat {
      match this
      case Routine => 0 case Elevated => 1 case Sensitive => 2 case Critical => 3
    }
  }

  datatype DataClass = Internal | EmployeeRestricted | PayrollConfidential | TenantCritical
  {
    function Rank(): nat {
      match this
      case Internal => 0 case EmployeeRestricted => 1 case PayrollConfidential => 2 case TenantCritical => 3
    }
  }

  datatype State = Open | InputsClosed | Calculated | ApprovalPending | Approved | Archived | Inconsistent

  datatype Operation =
    | ReadWorkspace | HrEmployeeRead | HrEmployeeWrite | ArchiveRead | ArchiveUpload | ArchiveReview | ArchiveAdmit
    | ArchiveRollback | ArchiveSync | UserPreferenceUpdate | WorkflowTemplateRead | WorkflowTemplateWrite
    | WorkflowStepExecute | PayrollRun | PayrollExport | PayrollPolicyChange | ApprovalSigning | TenantDestructiveChange

  const ALL: seq<Operation> :=
    [ReadWorkspace, HrEmployeeRead, HrEmployeeWrite, ArchiveRead, ArchiveUpload, ArchiveReview, ArchiveAdmit,
     ArchiveRollback, ArchiveSync, UserPreferenceUpdate, WorkflowTemplateRead, WorkflowTemplateWrite,
     WorkflowStepExecute, PayrollRun, PayrollExport, PayrollPolicyChange, ApprovalSigning, TenantDestructiveChange]

  function BuiltinAcr(op: Operation): Acr {
    match op
    case ReadWorkspace | UserPreferenceUpdate | WorkflowTemplateRead => Routine
    case HrEmployeeRead | HrEmployeeWrite | ArchiveRead | ArchiveUpload => Elevated
    case TenantDestructiveChange => Critical
    case _ => Sensitive
  }

  function BuiltinClass(op: Operation): DataClass {
    match op
    case ReadWorkspace | UserPreferenceUpdate | WorkflowTemplateRead => Internal
    case PayrollRun | PayrollExport | PayrollPolicyChange | WorkflowTemplateWrite | WorkflowStepExecute
       | ApprovalSigning =>
      PayrollConfidential
    case TenantDestructiveChange => TenantCritical
    case _ => EmployeeRestricted
  }

  function BuiltinScope(op: Operation): bool {
    match op
    case ReadWorkspace | UserPreferenceUpdate | PayrollPolicyChange | WorkflowTemplateRead | WorkflowTemplateWrite
         | TenantDestructiveChange => false
    case _ => true
  }

  /** The states in which an operation is permitted; none means all of them. */
  function BuiltinWindow(op: Operation): Option<set<State>> {
    match op
    case WorkflowTemplateWrite | PayrollPolicyChange => Some({Open, Approved, Archived})
    case WorkflowStepExecute => Some({Open, InputsClosed, Calculated, ApprovalPending})
    case PayrollRun => Some({InputsClosed, Calculated})
    case PayrollExport => Some({Approved, Archived})
    case ApprovalSigning => Some({Calculated, ApprovalPending})
    case _ => None
  }

  // ----------------------------------------------------------------- policy

  datatype Grant = Every | One(operation: Operation)

  datatype RolePolicy = RolePolicy(maxDataClass: DataClass, grants: set<Grant>)
  {
    predicate Permits(op: Operation) {
      Every in grants || One(op) in grants
    }
  }

  datatype OperationPolicy = OperationPolicy(
    requiredAcr: Acr, requiredDataClass: DataClass, requiresWorkplaceScope: bool, window: Option<set<State>>)
  {
    predicate Allows(state: State) {
      window.Some? ==> state in window.value
    }
  }

  type Operations = map<Operation, OperationPolicy>
  type Roles = map<string, RolePolicy>

  /** Operation ids are folded onto the closed set of operations, role ids onto canonical names. */
  datatype Policy = Policy(policyId: string, roles: Roles, operations: Operations)

  function BuiltinEntry(op: Operation): OperationPolicy {
    OperationPolicy(BuiltinAcr(op), BuiltinClass(op), BuiltinScope(op), BuiltinWindow(op))
  }

  // Each accessor of the policy falls back to the built-in value by itself.

  function RequiredAcr(operations: Operations, op: Operation): Acr {
    if op in operations then operations[op].requiredAcr else BuiltinAcr(op)
  }

  function RequiredDataClass(operations: Operations, op: Operation): DataClass {
    if op in operations then operations[op].requiredDataClass else BuiltinClass(op)
  }

  predicate RequiresWorkplaceScope(operations: Operations, op: Operation) {
    if op in operations then operations[op].requiresWorkplaceScope else BuiltinScope(op)
  }

  predicate WorkflowAllows(operations: Operations, op: Operation, state: State) {
    if op in operations then operations[op].Allows(state)
    else
      match BuiltinWindow(op)
      case Some(states) => state in states
      case None => true
  }

  const POLICY_ID := "bitween.authz.rbac-abac-pbac.v1"

  const BUSINESS_READ: set<Grant> := {One(ReadWorkspace), One(UserPreferenceUpdate), One(WorkflowTemplateRead)}

  const ARCHIVE_WORK: set<Grant> := {One(ArchiveRead), One(ArchiveUpload), One(ArchiveReview)}

  const ARCHIVE_DUTY: set<Grant> := {One(ArchiveAdmit), One(ArchiveRollback), One(ArchiveSync)}

  const PAYROLL_OPERATOR := RolePolicy(
    PayrollConfidential, BUSINESS_READ + ARCHIVE_WORK + {One(PayrollRun), One(WorkflowStepExecute), One(PayrollExport)})

  const PAYROLL_MANAGER := RolePolicy(
    PayrollConfidential, PAYROLL_OPERATOR.grants + ARCHIVE_DUTY
      + {One(PayrollPolicyChange), One(WorkflowTemplateWrite)})

  const HR_OPERATOR := RolePolicy(
    EmployeeRestricted, BUSINESS_READ + ARCHIVE_WORK + {One(HrEmployeeRead), One(HrEmployeeWrite)})

  const HR_MANAGER := RolePolicy(EmployeeRestricted, HR_OPERATOR.grants + ARCHIVE_DUTY)

  const APPROVAL_SIGNER := RolePolicy(
    PayrollConfidential, BUSINESS_READ + {One(WorkflowStepExecute), One(ApprovalSigning)})

  const IT_SECURITY_ADMIN := RolePolicy(
    TenantCritical, BUSINESS_READ + {One(WorkflowTemplateWrite), One(TenantDestructiveChange)})

  const PLATFORM_OWNER := RolePolicy(TenantCritical, {Every})

  const SUPPORT_SRE := RolePolicy(Internal, BUSINESS_READ)

  const BUILTIN_ROLES: Roles :=
    map[
      "payroll_operator" := PAYROLL_OPERATOR, "payroll_manager" := PAYROLL_MANAGER, "hr_operator" := HR_OPERATOR,
      "hr_manager" := HR_MANAGER, "approval_signer" := APPROVAL_SIGNER, "it_security_admin" := IT_SECURITY_ADMIN,
      "platform_owner" := PLATFORM_OWNER, "support_sre" := SUPPORT_SRE]

  const BUILTIN: Policy := Policy(POLICY_ID, BUILTIN_ROLES, map op: Operation | op in ALL :: BuiltinEntry(op))

  // ---------------------------------------------------------------- spelling

  /** ASCII lower case, with '-' read as '_'. */
  function Fold(s: string): (r: string)
    ensures |r| == |s|
  {
    if s == "" then ""
    else
      var c := s[0];
      [if 'A' <= c <= 'Z' then (c as int + 32) as char else if c == '-' then '_' else c] + Fold(s[1..])
  }

  /** How the words of a policy document are read. */
  datatype Vocabulary = Vocabulary(
    acr: string -> Option<Acr>,
    dataClass: string -> Option<DataClass>,
    state: string -> Option<State>,
    operation: string -> Option<Operation>,
    role: string -> string)

  function AcrNamed(s: string): Option<Acr> {
    if s == "routine" then Some(Routine) else if s == "elevated" then Some(Elevated)
    else if s == "sensitive" then Some(Sensitive) else if s == "critical" then Some(Critical) else None
  }

  function ParseAcr(value: string): Option<Acr> {
    AcrNamed(Fold(Trim(value)))
  }

  function DataClassNamed(s: string): Option<DataClass> {
    if s == "internal" then Some(Internal) else if s == "employee_restricted" then Some(EmployeeRestricted)
    else if s == "payroll_confidential" then Some(PayrollConfidential)
    else if s == "tenant_critical" then Some(TenantCritical) else None
  }

  function ParseDataClass(value: string): Option<DataClass> {
    DataClassNamed(Fold(Trim(value)))
  }

  /** The fail-closed state cannot be written in a document. */
  function StateNamed(s: string): (r: Option<State>)
    ensures r != Some(Inconsistent)
  {
    if s == "open" then Some(Open) else if s == "inputs_closed" then Some(InputsClosed)
    else if s == "calculated" then Some(Calculated) else if s == "approval_pending" then Some(ApprovalPending)
    else if s == "approved" then Some(Approved) else if s == "archived" then Some(Archived) else None
  }

  function ParseState(value: string): Option<State> {
    StateNamed(Fold(Trim(value)))
  }

  function Id(op: Operation): string {
    match op
    case ReadWorkspace => "read_workspace"
    case HrEmployeeRead => "hr_employee_read"
    case HrEmployeeWrite => "hr_employee_write"
    case ArchiveRead => "archive_read"
    case ArchiveUpload => "archive_upload"
    case ArchiveReview => "archive_review"
    case ArchiveAdmit => "archive_admit"
    case ArchiveRollback => "archive_rollback"
    case ArchiveSync => "archive_sync"
    case UserPreferenceUpdate => "user_preference_update"
    case WorkflowTemplateRead => "workflow_template_read"
    case WorkflowTemplateWrite => "workflow_template_write"
    case WorkflowStepExecute => "workflow_step_execute"
    case PayrollRun => "payroll_run"
    case PayrollExport => "payroll_export"
    case PayrollPolicyChange => "payroll_policy_change"
    case ApprovalSigning => "approval_signing"
    case TenantDestructiveChange => "tenant_destructive_change"
  }

  /** The operation among the first `n` whose id is `s`. */
  function WithId(s: string, n: nat): (r: Option<Operation>)
    requires n <= |ALL|
    ensures r.Some? ==> Id(r.value) == s
  {
    if n == 0 then None
    else if Id(ALL[n-1]) == s then Some(ALL[n-1])
    else WithId(s, n - 1)
  }

  function ParseOperation(value: string): Option<Operation> {
    WithId(Fold(Trim(value)), |ALL|)
  }

  /** The canonical name of a folded role name. */
  function CanonicalRole(s: string): string {
    if s == "payroll_ops" then "payroll_operator"
    else if s == "payroll_lead" then "payroll_manager"
    else if s == "hr_ops" then "hr_operator"
    else if s == "people_manager" then "hr_manager"
    else if s == "approver" then "approval_signer"
    else if s == "security_admin" || s == "tenant_admin" then "it_security_admin"
    else if s == "product_platform_lead" then "platform_owner"
    else if s == "customer_support" then "support_sre"
    else s
  }

  function NormalizeRole(value: string): string {
    CanonicalRole(Fold(Trim(value)))
  }

  const VOCABULARY := Vocabulary(ParseAcr, ParseDataClass, ParseState, ParseOperation, NormalizeRole)

  // --------------------------------------------------------------- the loader

  function Lookup(members: seq<Member>, key: string): Option<Json> {
    if members == [] then None
    else if members[0].key == key then Some(members[0].value)
    else Lookup(members[1..], key)
  }

  function Field(j: Json, key: string): Option<Json> {
    if j.Obj? then Lookup(j.members, key) else None
  }

  function TextField(j: Json, key: string): Option<string> {
    match Field(j, key)
    case Some(Str(s)) => Some(s)
    case _ => None
  }

  /** Reads a list of members into a map: every key must be known, no two may fold onto the
      same key, and every value must be acceptable. */
  function Table<K(==), V>(members: seq<Member>, fold: string -> Option<K>,
      read: Json -> Option<V>): Option<map<K, V>> {
    if members == [] then Some(map[])
    else
      var last := members[|members|-1];
      match (Table(members[..|members|-1], fold, read), fold(last.key), read(last.value))
      case (Some(table), Some(k), Some(v)) => if k in table then None else Some(table[k := v])
      case _ => None
  }

  function StatesOf(vocab: Vocabulary, items: seq<Json>): Option<set<State>> {
    if items == [] then Some({})
    else if !items[0].Str? then None
    else
      match (vocab.state(items[0].s), StatesOf(vocab, items[1..]))
      case (Some(state), Some(rest)) => Some({state} + rest)
      case _ => None
  }

  function WindowOf(vocab: Vocabulary, j: Option<Json>): Option<Option<set<State>>> {
    match j
    case None => Some(None)
    case Some(Null) => Some(None)
    case Some(Arr(items)) =>
      (match StatesOf(vocab, items)
       case Some(states) => Some(Some(states))
       case None => None)
    case Some(_) => None
  }

  function OperationOf(vocab: Vocabulary, j: Json): Option<OperationPolicy> {
    var acr := match TextField(j, "required_acr") { case Some(s) => vocab.acr(s) case None => None };
    var class_ := match TextField(j, "required_data_class") { case Some(s) => vocab.dataClass(s) case None => None };
    match (acr, class_, Field(j, "requires_workplace_scope"), WindowOf(vocab, Field(j, "allowed_workflow_states")))
    case (Some(a), Some(c), Some(Bool(scope)), Some(window)) => Some(OperationPolicy(a, c, scope, window))
    case _ => None
  }

  /** The highest class among the first `n` operations. */
  function MaxRank(operations: Operations, n: nat): (r: nat)
    requires n <= |ALL|
    ensures forall i :: 0 <= i < n ==> RequiredDataClass(operations, ALL[i]).Rank() <= r
  {
    if n == 0 then 0
    else
      var rest, rank := MaxRank(operations, n - 1), RequiredDataClass(operations, ALL[n-1]).Rank();
      if rest < rank then rank else rest
  }

  function GrantOf(vocab: Vocabulary, s: string): Option<Grant> {
    if Trim(s) == "*" then Some(Every)
    else
      match vocab.operation(Trim(s))
      case Some(op) => Some(One(op))
      case None => None
  }

  /** A grant that the ceiling could never exercise is a configuration error. */
  predicate Exercisable(operations: Operations, ceiling: DataClass, grant: Grant) {
    match grant
    case Every => MaxRank(operations, |ALL|) <= ceiling.Rank()
    case One(op) => RequiredDataClass(operations, op).Rank() <= ceiling.Rank()
  }

  function GrantsOf(vocab: Vocabulary, operations: Operations, ceiling: DataClass,
      items: seq<Json>): Option<set<Grant>> {
    if items == [] then Some({})
    else if !items[0].Str? then None
    else
      match (GrantOf(vocab, items[0].s), GrantsOf(vocab, operations, ceiling, items[1..]))
      case (Some(grant), Some(rest)) => if Exercisable(operations, ceiling, grant) then Some({grant} + rest) else None
      case _ => None
  }

  function RoleOf(vocab: Vocabulary, operations: Operations, j: Json): Option<RolePolicy> {
    var ceiling := match TextField(j, "max_data_class") { case Some(s) => vocab.dataClass(s) case None => None };
    match (ceiling, Field(j, "grants"))
    case (Some(c), Some(Arr(items))) =>
      (match GrantsOf(vocab, operations, c, items)
       case Some(grants) => Some(RolePolicy(c, grants))
       case None => None)
    case _ => None
  }

  function OperationsOf(vocab: Vocabulary, members: seq<Member>): Option<Operations> {
    Table(members, vocab.operation, j => OperationOf(vocab, j))
  }

  function RolesOf(vocab: Vocabulary, operations: Operations, members: seq<Member>): Option<Roles> {
    if members == [] then None
    else Table(members, key => Some(vocab.role(key)), j => RoleOf(vocab, operations, j))
  }

  function PolicyIdOf(j: Json): string {
    match TextField(j, "policy_id") { case Some(s) => Trim(s) case None => "" }
  }

  /** A policy from its id and its two tables. */
  function PolicyFrom(vocab: Vocabulary, policyId: string, operations: Option<Json>,
      roles: Option<Json>): Option<Policy> {
    match (operations, roles)
    case (Some(Obj(xs)), Some(Obj(us))) =>
      if policyId == "" then None
      else
        (match OperationsOf(vocab, xs)
         case None => None
         case Some(table) =>
           match RolesOf(vocab, table, us)
           case None => None
           case Some(r) => Some(Policy(policyId, r, table)))
    case _ => None
  }

  function PolicyOf(vocab: Vocabulary, j: Json): Option<Policy> {
    PolicyFrom(vocab, PolicyIdOf(j), Field(j, "operations"), Field(j, "roles"))
  }

  /** `parse_operations` and `parse_roles`: insert one member after the other, or fail. */
  method ReadTable<K(==), V>(members: seq<Member>, fold: string -> Option<K>, read: Json -> Option<V>)
    returns (r: Option<map<K, V>>)
    ensures r == Table(members, fold, read)
  {
    var table: map<K, V> := map[];
    for i := 0 to |members|
      invariant Table(members[..i], fold, read) == Some(table)
    {
      assert members[..i+1][..i] == members[..i];
      var k := fold(members[i].key);
      var v := read(members[i].value);
      if k.None? || v.None? || k.value in table {
        FailedPrefix(members, i + 1, fold, read);
        return None;
      }
      table := table[k.value := v.value];
    }
    assert members[..|members|] == members;
    return Some(table);
  }

  lemma {:induction false} FailedPrefix<K, V>(members: seq<Member>, n: nat, fold: string -> Option<K>,
      read: Json -> Option<V>)
    requires n <= |members| && Table(members[..n], fold, read) == None
    ensures Table(members, fold, read) == None
    decreases |members| - n
  {
    if n < |members| {
      assert members[..n+1][..n] == members[..n];
      FailedPrefix(members, n + 1, fold, read);
    } else {
      assert members[..n] == members;
    }
  }

  /** `AuthzPolicy::from_json`, on a parsed document. */
  method FromJson(vocab: Vocabulary, j: Json) returns (r: Option<Policy>)
    ensures r == if NoRepeatedKey(j) then PolicyOf(vocab, Collapse(j)) else None
  {
    var repeated := Guard(j);
    if repeated.Some? {
      return None;
    }
    CollapseKeepsAll(j);
    var policyId := PolicyIdOf(j);
    if policyId == "" {
      return None;
    }
    match (Field(j, "operations"), Field(j, "roles")) {
      case (Some(Obj(operations)), Some(Obj(roles))) =>
        var table := ReadTable(operations, vocab.operation, j => OperationOf(vocab, j));
        if table.None? || roles == [] {
          return None;
        }
        var roleTable := ReadTable(roles, key => Some(vocab.role(key)), j => RoleOf(vocab, table.value, j));
        if roleTable.None? {
          return None;
        }
        return Some(Policy(policyId, roleTable.value, table.value));
      case _ =>
        return None;
    }
  }
}
