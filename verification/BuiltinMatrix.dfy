/** The built-in policy told from its other side: for each role text, level, class and state, the
    operations it is about. */
module BuiltinMatrix {
  import opened AuthPolicy

  datatype Who =
    | PayrollOperator | PayrollManager | HrOperator | HrManager | ApprovalSigner | ItSecurityAdmin | PlatformOwner
    | SupportSre

  function RoleName(who: Who): string {
    match who
    case PayrollOperator => "payroll_operator"
    case PayrollManager => "payroll_manager"
    case HrOperator => "hr_operator"
    case HrManager => "hr_manager"
    case ApprovalSigner => "approval_signer"
    case ItSecurityAdmin => "it_security_admin"
    case PlatformOwner => "platform_owner"
    case SupportSre => "support_sre"
  }

  /** The roles that may do an operation. */
  function RolesFor(op: Operation): set<Who> {
    match op
    case ReadWorkspace | UserPreferenceUpdate | WorkflowTemplateRead =>
      {PayrollOperator, PayrollManager, HrOperator, HrManager, ApprovalSigner, ItSecurityAdmin, PlatformOwner,
       SupportSre}
    case ArchiveRead | ArchiveUpload | ArchiveReview =>
      {PayrollOperator, PayrollManager, HrOperator, HrManager, PlatformOwner}
    case ArchiveAdmit | ArchiveRollback | ArchiveSync => {PayrollManager, HrManager, PlatformOwner}
    case HrEmployeeRead | HrEmployeeWrite => {HrOperator, HrManager, PlatformOwner}
    case PayrollRun | PayrollExport => {PayrollOperator, PayrollManager, PlatformOwner}
    case WorkflowStepExecute => {PayrollOperator, PayrollManager, ApprovalSigner, PlatformOwner}
    case PayrollPolicyChange => {PayrollManager, PlatformOwner}
    case WorkflowTemplateWrite => {PayrollManager, ItSecurityAdmin, PlatformOwner}
    case ApprovalSigning => {ApprovalSigner, PlatformOwner}
    case TenantDestructiveChange => {ItSecurityAdmin, PlatformOwner}
  }

  lemma PayrollGrants(op: Operation)
    ensures PAYROLL_OPERATOR.Permits(op) <==> PayrollOperator in RolesFor(op)
    ensures PAYROLL_MANAGER.Permits(op) <==> PayrollManager in RolesFor(op)
  {
  }

  lemma HrGrants(op: Operation)
    ensures HR_OPERATOR.Permits(op) <==> HrOperator in RolesFor(op)
    ensures HR_MANAGER.Permits(op) <==> HrManager in RolesFor(op)
  {
  }

  lemma SigningGrants(op: Operation)
    ensures APPROVAL_SIGNER.Permits(op) <==> ApprovalSigner in RolesFor(op)
    ensures IT_SECURITY_ADMIN.Permits(op) <==> ItSecurityAdmin in RolesFor(op)
  {
  }

  lemma OversightGrants(op: Operation)
    ensures PLATFORM_OWNER.Permits(op) <==> PlatformOwner in RolesFor(op)
    ensures SUPPORT_SRE.Permits(op) <==> SupportSre in RolesFor(op)
  {
  }

  /** The policy of a built-in role. */
  function PolicyFor(who: Who): RolePolicy {
    match who
    case PayrollOperator => PAYROLL_OPERATOR
    case PayrollManager => PAYROLL_MANAGER
    case HrOperator => HR_OPERATOR
    case HrManager => HR_MANAGER
    case ApprovalSigner => APPROVAL_SIGNER
    case ItSecurityAdmin => IT_SECURITY_ADMIN
    case PlatformOwner => PLATFORM_OWNER
    case SupportSre => SUPPORT_SRE
  }

  lemma FoundByName(who: Who)
    ensures RoleName(who) in BUILTIN_ROLES && BUILTIN_ROLES[RoleName(who)] == PolicyFor(who)
  {
  }

  lemma NamedByRole(r: string) returns (who: Who)
    requires r in BUILTIN_ROLES
    ensures r == RoleName(who)
  {
    who :=
      if r == "payroll_operator" then PayrollOperator else
      if r == "payroll_manager" then PayrollManager else
      if r == "hr_operator" then HrOperator else
      if r == "hr_manager" then HrManager else
      if r == "approval_signer" then ApprovalSigner else
      if r == "it_security_admin" then ItSecurityAdmin else
      if r == "platform_owner" then PlatformOwner else
      SupportSre;
  }

  lemma PermittedFor(who: Who, op: Operation)
    ensures PolicyFor(who).Permits(op) <==> who in RolesFor(op)
  {
    match who
    case PayrollOperator | PayrollManager => PayrollGrants(op);
    case HrOperator | HrManager => HrGrants(op);
    case ApprovalSigner | ItSecurityAdmin => SigningGrants(op);
    case PlatformOwner | SupportSre => OversightGrants(op);
  }

  /** The built-in roles permit exactly that. */
  lemma BuiltinGrants(r: string, op: Operation)
    ensures r in BUILTIN.roles && BUILTIN.roles[r].Permits(op) <==>
              exists who :: who in RolesFor(op) && RoleName(who) == r
  {
    if r in BUILTIN_ROLES {
      var who := NamedByRole(r);
      FoundByName(who);
      PermittedFor(who, op);
    }
    forall who | who in RolesFor(op) && RoleName(who) == r ensures r in BUILTIN_ROLES && BUILTIN_ROLES[r].Permits(op) {
      FoundByName(who);
      PermittedFor(who, op);
    }
  }

  /** The built-in operations of each level. */
  lemma BuiltinLevels(op: Operation)
    ensures BuiltinAcr(op) == Routine <==> op in {ReadWorkspace, UserPreferenceUpdate, WorkflowTemplateRead}
    ensures BuiltinAcr(op) == Elevated <==> op in {HrEmployeeRead, HrEmployeeWrite, ArchiveRead, ArchiveUpload}
    ensures BuiltinAcr(op) == Critical <==> op == TenantDestructiveChange
  {
  }

  /** The built-in operations of each data class. */
  lemma BuiltinClasses(op: Operation)
    ensures BuiltinClass(op) == Internal <==> op in {ReadWorkspace, UserPreferenceUpdate, WorkflowTemplateRead}
    ensures BuiltinClass(op) == EmployeeRestricted <==>
              op in {HrEmployeeRead, HrEmployeeWrite, ArchiveRead, ArchiveUpload, ArchiveReview, ArchiveAdmit,
                     ArchiveRollback, ArchiveSync}
    ensures BuiltinClass(op) == TenantCritical <==> op == TenantDestructiveChange
  {
  }

  /** The operations that are bound to a workplace. */
  lemma BuiltinScopes(op: Operation)
    ensures BuiltinScope(op) <==>
              op in {HrEmployeeRead, HrEmployeeWrite, ArchiveRead, ArchiveUpload, ArchiveReview, ArchiveAdmit,
                     ArchiveRollback, ArchiveSync, PayrollRun, WorkflowStepExecute, PayrollExport, ApprovalSigning}
  {
  }

  /** The operations that have a window, and those that a state leaves open of them. */
  function OpenIn(state: State): set<Operation> {
    match state
    case Open => {WorkflowTemplateWrite, PayrollPolicyChange, WorkflowStepExecute}
    case InputsClosed => {WorkflowStepExecute, PayrollRun}
    case Calculated => {WorkflowStepExecute, PayrollRun, ApprovalSigning}
    case ApprovalPending => {WorkflowStepExecute, ApprovalSigning}
    case Approved | Archived => {WorkflowTemplateWrite, PayrollPolicyChange, PayrollExport}
    case Inconsistent => {}
  }

  lemma BuiltinWindows(op: Operation, state: State)
    ensures BuiltinWindow(op).Some? <==>
              op in {WorkflowTemplateWrite, PayrollPolicyChange, WorkflowStepExecute, PayrollRun, PayrollExport,
                     ApprovalSigning}
    ensures BuiltinWindow(op).Some? ==> (state in BuiltinWindow(op).value <==> op in OpenIn(state))
  {
  }

  /** The ceilings of the built-in roles. */
  lemma BuiltinCeilings(who: Who)
    ensures PolicyFor(who).maxDataClass == Internal <==> who == SupportSre
    ensures PolicyFor(who).maxDataClass == EmployeeRestricted <==> who == HrOperator || who == HrManager
    ensures PolicyFor(who).maxDataClass == TenantCritical <==> who == ItSecurityAdmin || who == PlatformOwner
  {
  }

  /** The texts that stand for each operation. */
  lemma OperationIds()
    ensures Id(ReadWorkspace) == "read_workspace" && Id(HrEmployeeRead) == "hr_employee_read"
    ensures Id(HrEmployeeWrite) == "hr_employee_write" && Id(ArchiveRead) == "archive_read"
    ensures Id(ArchiveUpload) == "archive_upload" && Id(ArchiveReview) == "archive_review"
    ensures Id(ArchiveAdmit) == "archive_admit" && Id(ArchiveRollback) == "archive_rollback"
    ensures Id(ArchiveSync) == "archive_sync" && Id(UserPreferenceUpdate) == "user_preference_update"
    ensures Id(WorkflowTemplateRead) == "workflow_template_read"
    ensures Id(WorkflowTemplateWrite) == "workflow_template_write"
    ensures Id(WorkflowStepExecute) == "workflow_step_execute" && Id(PayrollRun) == "payroll_run"
    ensures Id(PayrollExport) == "payroll_export" && Id(PayrollPolicyChange) == "payroll_policy_change"
    ensures Id(ApprovalSigning) == "approval_signing" && Id(TenantDestructiveChange) == "tenant_destructive_change"
  {
  }

  /** The folded spellings of the canonical role names; every other text names itself. */
  lemma RoleSpellings(s: string)
    ensures CanonicalRole(s) == "payroll_operator" <==> s == "payroll_operator" || s == "payroll_ops"
    ensures CanonicalRole(s) == "payroll_manager" <==> s == "payroll_manager" || s == "payroll_lead"
    ensures CanonicalRole(s) == "hr_operator" <==> s == "hr_operator" || s == "hr_ops"
    ensures CanonicalRole(s) == "hr_manager" <==> s == "hr_manager" || s == "people_manager"
    ensures CanonicalRole(s) == "approval_signer" <==> s == "approval_signer" || s == "approver"
    ensures CanonicalRole(s) == "it_security_admin" <==>
              s == "it_security_admin" || s == "security_admin" || s == "tenant_admin"
    ensures CanonicalRole(s) == "platform_owner" <==> s == "platform_owner" || s == "product_platform_lead"
    ensures CanonicalRole(s) == "support_sre" <==> s == "support_sre" || s == "customer_support"
  {
  }

  lemma BuiltinId()
    ensures BUILTIN.policyId == "bitween.authz.rbac-abac-pbac.v1"
  {
  }
}
