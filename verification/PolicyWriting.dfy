/** Policy documents written out: the entry of an operation as a document spells it, and a
    document completed by the built-in entries it omits. */
module PolicyWriting {
  import opened JsonDocument
  import opened AuthPolicy
  import opened PolicyLoading
  import opened Authorization
  import opened Options

  // ------------------------------------------------------------- one entry

  function AcrName(acr: Acr): string {
    match acr
    case Routine => "routine"
    case Elevated => "elevated"
    case Sensitive => "sensitive"
    case Critical => "critical"
  }

  function DataClassName(class_: DataClass): string {
    match class_
    case Internal => "internal"
    case EmployeeRestricted => "employee_restricted"
    case PayrollConfidential => "payroll_confidential"
    case TenantCritical => "tenant_critical"
  }

  function StateName(state: State): string {
    match state
    case Open => "open"
    case InputsClosed => "inputs_closed"
    case Calculated => "calculated"
    case ApprovalPending => "approval_pending"
    case Approved => "approved"
    case Archived => "archived"
    case Inconsistent => "inconsistent"
  }

  const STATES: seq<State> := [Open, InputsClosed, Calculated, ApprovalPending, Approved, Archived, Inconsistent]

  /** The states of a window from the `i`-th on. */
  function StateItems(window: set<State>, i: nat): seq<Json>
    requires i <= |STATES|
    decreases |STATES| - i
  {
    if i == |STATES| then []
    else (if STATES[i] in window then [Str(StateName(STATES[i]))] else []) + StateItems(window, i + 1)
  }

  function WindowJson(window: Option<set<State>>): Json {
    match window
    case None => Null
    case Some(states) => Arr(StateItems(states, 0))
  }

  function EntryJson(e: OperationPolicy): Json {
    Obj([Member("required_acr", Str(AcrName(e.requiredAcr))),
         Member("required_data_class", Str(DataClassName(e.requiredDataClass))),
         Member("requires_workplace_scope", Bool(e.requiresWorkplaceScope)),
         Member("allowed_workflow_states", WindowJson(e.window))])
  }

  lemma AcrReads(acr: Acr)
    ensures ParseAcr(AcrName(acr)) == Some(acr)
  {
    NamedAcr(acr);
    AcrNameSettled(acr);
    SettledReads(AcrName(acr));
  }

  lemma NamedAcr(acr: Acr)
    ensures AcrNamed(AcrName(acr)) == Some(acr)
  {
  }

  lemma AcrNameSettled(acr: Acr)
    ensures Settled(AcrName(acr))
  {
  }

  lemma DataClassReads(class_: DataClass)
    ensures ParseDataClass(DataClassName(class_)) == Some(class_)
  {
    NamedDataClass(class_);
    DataClassNameSettled(class_);
    SettledReads(DataClassName(class_));
  }

  lemma NamedDataClass(class_: DataClass)
    ensures DataClassNamed(DataClassName(class_)) == Some(class_)
  {
  }

  lemma DataClassNameSettled(class_: DataClass)
    ensures Settled(DataClassName(class_))
  {
  }

  lemma StateReads(state: State)
    ensures ParseState(StateName(state)) == if state == Inconsistent then None else Some(state)
  {
    NamedState(state);
    StateNameSettled(state);
    SettledReads(StateName(state));
  }

  lemma NamedState(state: State)
    ensures StateNamed(StateName(state)) == if state == Inconsistent then None else Some(state)
  {
  }

  lemma StateNameSettled(state: State)
    ensures Settled(StateName(state))
  {
  }

  /** The states of `window` from the `i`-th on. */
  function Remaining(window: set<State>, i: nat): set<State>
    requires i <= |STATES|
  {
    set state | state in window && state in STATES[i..]
  }

  lemma {:induction false} StatesRead(window: set<State>, i: nat, items: seq<Json>, states: set<State>)
    requires i <= |STATES| && items == StateItems(window, i) && states == Remaining(window, i)
    ensures StatesOf(VOCABULARY, items) == if Inconsistent in states then None else Some(states)
    decreases |STATES| - i
  {
    if i < |STATES| {
      var rest, later := StateItems(window, i + 1), Remaining(window, i + 1);
      StatesRead(window, i + 1, rest, later);
      FirstState(window, i);
      StateReads(STATES[i]);
      OneStateMore(VOCABULARY, STATES[i], StateName(STATES[i]), STATES[i] in window, rest, later);
    } else {
      assert items == [] && states == {};
    }
  }

  lemma OneStateMore(vocab: Vocabulary, state: State, name: string, held: bool, items: seq<Json>, rest: set<State>)
    requires vocab.state(name) == if state == Inconsistent then None else Some(state)
    requires StatesOf(vocab, items) == if Inconsistent in rest then None else Some(rest)
    ensures var all := (if held then {state} else {}) + rest;
            StatesOf(vocab, (if held then [Str(name)] else []) + items) ==
              if Inconsistent in all then None else Some(all)
  {
    if held {
      assert ([Str(name)] + items)[1..] == items;
    } else {
      assert [] + items == items;
      assert {} + rest == rest;
    }
  }

  lemma FirstState(window: set<State>, i: nat)
    requires i < |STATES|
    ensures Remaining(window, i) == (if STATES[i] in window then {STATES[i]} else {}) + Remaining(window, i + 1)
  {
    assert STATES[i..] == [STATES[i]] + STATES[i+1..];
  }

  lemma EveryStateListed(window: set<State>)
    ensures Remaining(window, 0) == window
  {
    forall state: State ensures state in STATES {
      StateListed(state);
    }
    assert STATES[0..] == STATES;
  }

  lemma StateListed(state: State)
    ensures state in STATES
  {
    assert STATES[0] == Open && STATES[1] == InputsClosed && STATES[2] == Calculated && STATES[3] == ApprovalPending;
    assert STATES[4] == Approved && STATES[5] == Archived && STATES[6] == Inconsistent;
  }

  lemma WindowReads(window: Option<set<State>>)
    ensures WindowOf(VOCABULARY, Some(WindowJson(window))) ==
              if ShutWhenInconsistent(window) then Some(window) else None
  {
    if window.Some? {
      EveryStateListed(window.value);
      StatesRead(window.value, 0, StateItems(window.value, 0), window.value);
    }
  }

  /** A written entry is read back as it was, if and only if its window can be written at all. */
  lemma EntryReads(e: OperationPolicy)
    ensures OperationOf(VOCABULARY, EntryJson(e)) == if ShutWhenInconsistent(e.window) then Some(e) else None
  {
    AcrReads(e.requiredAcr);
    DataClassReads(e.requiredDataClass);
    WindowReads(e.window);
    EntryFields(e);
  }

  lemma EntryFields(e: OperationPolicy)
    ensures Field(EntryJson(e), "required_acr") == Some(Str(AcrName(e.requiredAcr)))
    ensures Field(EntryJson(e), "required_data_class") == Some(Str(DataClassName(e.requiredDataClass)))
    ensures Field(EntryJson(e), "requires_workplace_scope") == Some(Bool(e.requiresWorkplaceScope))
    ensures Field(EntryJson(e), "allowed_workflow_states") == Some(WindowJson(e.window))
  {
    EntryFlat(e);
    LookupAt(EntryJson(e).members, 0);
    LookupAt(EntryJson(e).members, 1);
    LookupAt(EntryJson(e).members, 2);
    LookupAt(EntryJson(e).members, 3);
  }

  lemma {:induction false} ItemsFlat(window: set<State>, i: nat)
    requires i <= |STATES|
    ensures forall k :: 0 <= k < |StateItems(window, i)| ==> StateItems(window, i)[k].Str?
    decreases |STATES| - i
  {
    if i < |STATES| { ItemsFlat(window, i + 1); }
  }

  lemma EntryFlat(e: OperationPolicy)
    ensures DistinctKeys(EntryJson(e).members) && NoRepeatedKey(EntryJson(e))
  {
    if e.window.Some? { ItemsFlat(e.window.value, 0); }
  }

  // -------------------------------------------------------- omitted entries

  lemma ReadNamesSettled(op: Operation)
    requires op.ReadWorkspace? || op.HrEmployeeRead? || op.HrEmployeeWrite?
    ensures Settled(Id(op))
  {
  }

  lemma TemplateNamesSettled(op: Operation)
    requires op.UserPreferenceUpdate? || op.WorkflowTemplateRead? || op.WorkflowTemplateWrite?
    ensures Settled(Id(op))
  {
  }

  lemma StepNamesSettled(op: Operation)
    requires op.WorkflowStepExecute? || op.ApprovalSigning?
    ensures Settled(Id(op))
  {
  }

  lemma TenantNameSettled()
    ensures Settled(Id(TenantDestructiveChange))
  {
  }

  lemma ArchiveNamesSettled(op: Operation)
    requires op.ArchiveRead? || op.ArchiveUpload? || op.ArchiveReview?
    ensures Settled(Id(op))
  {
  }

  lemma ArchiveDutyNamesSettled(op: Operation)
    requires op.ArchiveAdmit? || op.ArchiveRollback? || op.ArchiveSync?
    ensures Settled(Id(op))
  {
  }

  lemma PayrollNamesSettled(op: Operation)
    requires op.PayrollRun? || op.PayrollExport? || op.PayrollPolicyChange?
    ensures Settled(Id(op))
  {
  }

  /** An operation is read from its own id. */
  lemma IdReads(op: Operation)
    ensures VOCABULARY.operation(Id(op)) == Some(op)
  {
    match op {
      case ReadWorkspace | HrEmployeeRead | HrEmployeeWrite => ReadNamesSettled(op);
      case UserPreferenceUpdate | WorkflowTemplateRead | WorkflowTemplateWrite => TemplateNamesSettled(op);
      case WorkflowStepExecute | ApprovalSigning => StepNamesSettled(op);
      case TenantDestructiveChange => TenantNameSettled();
      case ArchiveRead | ArchiveUpload | ArchiveReview => ArchiveNamesSettled(op);
      case ArchiveAdmit | ArchiveRollback | ArchiveSync => ArchiveDutyNamesSettled(op);
      case PayrollRun | PayrollExport | PayrollPolicyChange => PayrollNamesSettled(op);
    }
    SettledReads(Id(op));
    OperationSpelling(Id(op), op);
  }

  /** Some member is about `op`. */
  ghost predicate Mentions(vocab: Vocabulary, members: seq<Member>, op: Operation) {
    exists i :: 0 <= i < |members| && vocab.operation(members[i].key) == Some(op)
  }

  function BuiltinMember(op: Operation): Member {
    Member(Id(op), EntryJson(BuiltinEntry(op)))
  }

  ghost function UnlessMentioned(vocab: Vocabulary, members: seq<Member>, op: Operation): seq<Member> {
    if Mentions(vocab, members, op) then [] else [BuiltinMember(op)]
  }

  /** The built-in entries of those operations that no member is about. */
  ghost function Omitted(vocab: Vocabulary, members: seq<Member>, ops: seq<Operation>): seq<Member> {
    if ops == [] then []
    else Omitted(vocab, members, ops[..|ops|-1]) + UnlessMentioned(vocab, members, ops[|ops|-1])
  }

  ghost function Completed(members: seq<Member>): seq<Member> {
    members + Omitted(VOCABULARY, members, ALL)
  }

  /** The table with the built-in entries of these operations filled in. */
  ghost function FilledBy(operations: Operations, ops: seq<Operation>): Operations {
    map op: Operation | op in operations.Keys + (set o | o in ops) ::
      if op in operations then operations[op] else BuiltinEntry(op)
  }

  /** The built-in entry of `op` is read as such. */
  ghost predicate BuiltinReads(vocab: Vocabulary, op: Operation) {
    && vocab.operation(BuiltinMember(op).key) == Some(op)
    && OperationOf(vocab, BuiltinMember(op).value) == Some(BuiltinEntry(op))
  }

  lemma BuiltinWindowWritten(op: Operation)
    ensures ShutWhenInconsistent(BuiltinEntry(op).window)
  {
  }

  lemma BuiltinMemberReads(op: Operation)
    ensures BuiltinReads(VOCABULARY, op)
  {
    var e := BuiltinEntry(op);
    IdReads(op);
    BuiltinWindowWritten(op);
    EntryReads(e);
  }

  lemma MentionsIffRead(vocab: Vocabulary, members: seq<Member>, operations: Operations, op: Operation)
    requires OperationsOf(vocab, members) == Some(operations)
    ensures Mentions(vocab, members, op) <==> op in operations
  {
    TableSpec(members, vocab.operation, j => OperationOf(vocab, j));
  }

  lemma OneEntryMore(vocab: Vocabulary, members: seq<Member>, table: Operations, m: Member, op: Operation,
      e: OperationPolicy)
    requires OperationsOf(vocab, members) == Some(table) && op !in table
    requires vocab.operation(m.key) == Some(op) && OperationOf(vocab, m.value) == Some(e)
    ensures OperationsOf(vocab, members + [m]) == Some(table[op := e])
  {
    assert (members + [m])[..|members|] == members;
  }

  /** What one operation more adds, to the members and to the table read from them. */
  lemma FillOne(vocab: Vocabulary, members: seq<Member>, init: seq<Member>, op: Operation, known: bool,
      table: Operations)
    requires BuiltinReads(vocab, op) && OperationsOf(vocab, init) == Some(table)
    requires (known <==> Mentions(vocab, members, op)) && (!known ==> op !in table)
    ensures OperationsOf(vocab, init + UnlessMentioned(vocab, members, op))
            == Some(if known then table else table[op := BuiltinEntry(op)])
  {
    if known {
      assert init + [] == init;
    } else {
      OneEntryMore(vocab, init, table, BuiltinMember(op), op, BuiltinEntry(op));
    }
  }

  lemma FilledMore(operations: Operations, ops: seq<Operation>, op: Operation)
    requires op !in ops
    ensures FilledBy(operations, ops + [op]) ==
              if op in operations then FilledBy(operations, ops) else FilledBy(operations, ops)[op := BuiltinEntry(op)]
    ensures op !in operations ==> op !in FilledBy(operations, ops)
  {
  }

  lemma {:induction false} FillsUp(vocab: Vocabulary, members: seq<Member>, operations: Operations,
                                   ops: seq<Operation>, table: Operations)
    requires OperationsOf(vocab, members) == Some(operations) && table == FilledBy(operations, ops)
    requires forall i, j :: 0 <= i < j < |ops| ==> ops[i] != ops[j]
    requires forall op :: BuiltinReads(vocab, op)
    ensures OperationsOf(vocab, members + Omitted(vocab, members, ops)) == Some(table)
  {
    if ops == [] {
      assert members + [] == members;
      assert table == operations;
    } else {
      var init, op := ops[..|ops|-1], ops[|ops|-1];
      var before := Omitted(vocab, members, init);
      FillsUp(vocab, members, operations, init, FilledBy(operations, init));
      assert ops == init + [op] && op !in init;
      FilledMore(operations, init, op);
      MentionsIffRead(vocab, members, operations, op);
      FillOne(vocab, members, members + before, op, op in operations, FilledBy(operations, init));
      assert members + Omitted(vocab, members, ops) == members + before + UnlessMentioned(vocab, members, op);
    }
  }

  /** The completed operations are read exactly when the given ones are, and as the filled table. */
  lemma CompletedReads(members: seq<Member>)
    ensures OperationsOf(VOCABULARY, Completed(members)) ==
              match OperationsOf(VOCABULARY, members)
              case Some(operations) => Some(Filled(operations))
              case None => None
  {
    match OperationsOf(VOCABULARY, members)
    case Some(operations) =>
      forall op ensures BuiltinReads(VOCABULARY, op) { BuiltinMemberReads(op); }
      ListedOnce();
      FillsUp(VOCABULARY, members, operations, ALL, FilledBy(operations, ALL));
      AllFilled(operations);
    case None =>
      assert Completed(members)[..|members|] == members;
      FailedPrefix(Completed(members), |members|, VOCABULARY.operation, j => OperationOf(VOCABULARY, j));
  }

  lemma ListedOnce()
    ensures forall i, j :: 0 <= i < j < |ALL| ==> ALL[i] != ALL[j]
  {
  }

  lemma AllFilled(operations: Operations)
    ensures FilledBy(operations, ALL) == Filled(operations)
  {
    forall op: Operation ensures op in ALL { EveryOperationListed(op); }
  }

  // ------------------------------------------------------ a whole document

  lemma {:induction false} FoundSomewhere(members: seq<Member>, key: string)
    requires Lookup(members, key).Some?
    ensures key in KeysOf(members) && members[IndexOf(members, key)].value == Lookup(members, key).value
  {
    if members[0].key != key {
      FoundSomewhere(members[1..], key);
      assert members == [members[0]] + members[1..];
    } else {
      assert members[0] in members;
    }
  }

  ghost function Replaced(members: seq<Member>, key: string, value: Json): seq<Member> {
    if Lookup(members, key).Some? then
      FoundSomewhere(members, key);
      members[IndexOf(members, key) := Member(key, value)]
    else members
  }

  /** The document with the built-in entry of every omitted operation written into it. */
  ghost function WriteOut(j: Json): Json {
    match Field(j, "operations")
    case Some(Obj(xs)) => Obj(Replaced(j.members, "operations", Obj(Completed(xs))))
    case _ => j
  }

  lemma {:induction false} LookupReplaced(members: seq<Member>, key: string, value: Json, other: string)
    requires Lookup(members, key).Some?
    ensures Lookup(Replaced(members, key, value), other) == if other == key then Some(value) else Lookup(members, other)
  {
    var first, rest := members[0], members[1..];
    assert members == [first] + rest;
    FoundSomewhere(members, key);
    if first.key == key {
      assert Replaced(members, key, value) == [Member(key, value)] + rest;
    } else {
      FoundSomewhere(rest, key);
      LookupReplaced(rest, key, value, other);
      assert Replaced(members, key, value) == [first] + Replaced(rest, key, value);
    }
  }

  /** What the loader reads in the written-out document. */
  lemma WrittenFields(j: Json, xs: seq<Member>, key: string)
    requires Field(j, "operations") == Some(Obj(xs))
    ensures Field(WriteOut(j), key) == if key == "operations" then Some(Obj(Completed(xs))) else Field(j, key)
  {
    LookupReplaced(j.members, "operations", Obj(Completed(xs)), key);
  }

  lemma FilledTablesLoad(vocab: Vocabulary, policyId: string, xs: seq<Member>, ys: seq<Member>, roles: Option<Json>)
    requires OperationsOf(vocab, ys) ==
               match OperationsOf(vocab, xs)
               case Some(operations) => Some(Filled(operations))
               case None => None
    ensures PolicyFrom(vocab, policyId, Some(Obj(ys)), roles) ==
              match PolicyFrom(vocab, policyId, Some(Obj(xs)), roles)
              case Some(p) => Some(FillIn(p))
              case None => None
  {
    match (OperationsOf(vocab, xs), roles)
    case (Some(operations), Some(Obj(us))) => OmissionLoadsAlike(vocab, operations, us);
    case _ =>
  }

  lemma WrittenOutLoads(j: Json)
    ensures PolicyOf(VOCABULARY, WriteOut(j)) ==
              match PolicyOf(VOCABULARY, j)
              case Some(p) => Some(FillIn(p))
              case None => None
  {
    match Field(j, "operations")
    case Some(Obj(xs)) =>
      WrittenFields(j, xs, "policy_id");
      WrittenFields(j, xs, "operations");
      WrittenFields(j, xs, "roles");
      CompletedReads(xs);
      FilledTablesLoad(VOCABULARY, PolicyIdOf(j), xs, Completed(xs), Field(j, "roles"));
    case _ =>
  }

  // ------------------------------------------------------- repeated keys

  lemma {:induction false} OmittedKeys(vocab: Vocabulary, members: seq<Member>, ops: seq<Operation>, m: Member)
    requires m in Omitted(vocab, members, ops)
    ensures exists op :: op in ops && m == BuiltinMember(op) && !Mentions(vocab, members, op)
  {
    var init, op := ops[..|ops|-1], ops[|ops|-1];
    if m in Omitted(vocab, members, init) {
      OmittedKeys(vocab, members, init, m);
      var o :| o in init && m == BuiltinMember(o) && !Mentions(vocab, members, o);
      assert o in ops;
    } else {
      assert op in ops;
    }
  }

  lemma {:induction false} OmittedDistinct(vocab: Vocabulary, members: seq<Member>, ops: seq<Operation>)
    requires forall i, j :: 0 <= i < j < |ops| ==> ops[i] != ops[j]
    ensures DistinctKeys(Omitted(vocab, members, ops))
  {
    if ops != [] {
      var init, op := ops[..|ops|-1], ops[|ops|-1];
      OmittedDistinct(vocab, members, init);
      forall m | m in Omitted(vocab, members, init) ensures m.key != Id(op) {
        OmittedKeys(vocab, members, init, m);
        var o :| o in init && m == BuiltinMember(o);
        if m.key == Id(op) { IdInjective(o, op); }
      }
    }
  }

  lemma BuiltinFlat(op: Operation)
    ensures NoRepeatedKey(BuiltinMember(op).value)
  {
    EntryFlat(BuiltinEntry(op));
  }

  lemma NewKey(vocab: Vocabulary, members: seq<Member>, op: Operation, key: string)
    requires vocab.operation(key) == Some(op) && !Mentions(vocab, members, op)
    ensures forall i :: 0 <= i < |members| ==> members[i].key != key
  {
  }

  lemma {:induction false} OmittedIsNew(vocab: Vocabulary, members: seq<Member>, ops: seq<Operation>, key: string,
                                        value: Json)
    requires Member(key, value) in Omitted(vocab, members, ops) && forall op :: BuiltinReads(vocab, op)
    ensures NoRepeatedKey(value) && forall i :: 0 <= i < |members| ==> members[i].key != key
  {
    OmittedKeys(vocab, members, ops, Member(key, value));
    var op :| Member(key, value) == BuiltinMember(op) && !Mentions(vocab, members, op);
    assert BuiltinReads(vocab, op);
    BuiltinFlat(op);
    NewKey(vocab, members, op, key);
  }

  lemma AppendedUnrepeated(xs: seq<Member>, more: seq<Member>)
    requires DistinctKeys(more) && forall m :: m in more ==> NoRepeatedKey(m.value)
    requires forall i, m :: 0 <= i < |xs| && m in more ==> xs[i].key != m.key
    ensures NoRepeatedKey(Obj(xs + more)) <==> NoRepeatedKey(Obj(xs))
  {
    var all := xs + more;
    if NoRepeatedKey(Obj(all)) {
      forall i, k | 0 <= i < k < |xs| ensures xs[i].key != xs[k].key { assert all[i].key != all[k].key; }
      forall i | 0 <= i < |xs| ensures NoRepeatedKey(xs[i].value) { assert NoRepeatedKey(all[i].value); }
    }
    if NoRepeatedKey(Obj(xs)) {
      forall i | |xs| <= i < |all| ensures all[i] in more { assert all[i] == more[i - |xs|]; }
    }
  }

  lemma CompletedUnrepeated(xs: seq<Member>)
    ensures NoRepeatedKey(Obj(Completed(xs))) <==> NoRepeatedKey(Obj(xs))
  {
    var more := Omitted(VOCABULARY, xs, ALL);
    ListedOnce();
    OmittedDistinct(VOCABULARY, xs, ALL);
    forall op ensures BuiltinReads(VOCABULARY, op) { BuiltinMemberReads(op); }
    forall m | m in more ensures NoRepeatedKey(m.value) && forall i :: 0 <= i < |xs| ==> xs[i].key != m.key {
      OmittedIsNew(VOCABULARY, xs, ALL, m.key, m.value);
    }
    AppendedUnrepeated(xs, more);
  }

  lemma ReplacedUnrepeated(members: seq<Member>, i: nat, value: Json)
    requires i < |members| && (NoRepeatedKey(value) <==> NoRepeatedKey(members[i].value))
    ensures NoRepeatedKey(Obj(members[i := Member(members[i].key, value)])) <==> NoRepeatedKey(Obj(members))
  {
    var all := members[i := Member(members[i].key, value)];
    assert forall k :: 0 <= k < |members| ==> all[k].key == members[k].key;
    forall k | 0 <= k < |members| ensures NoRepeatedKey(all[k].value) <==> NoRepeatedKey(members[k].value) {
      assert k != i ==> all[k] == members[k];
    }
    assert DistinctKeys(all) <==> DistinctKeys(members);
  }

  lemma WrittenOutUnrepeated(j: Json)
    ensures NoRepeatedKey(WriteOut(j)) <==> NoRepeatedKey(j)
  {
    match Field(j, "operations")
    case Some(Obj(xs)) =>
      FoundSomewhere(j.members, "operations");
      CompletedUnrepeated(xs);
      ReplacedUnrepeated(j.members, IndexOf(j.members, "operations"), Obj(Completed(xs)));
    case _ =>
  }

  /** Writing the built-in entry of every omitted operation into a document changes nothing: it
      is accepted exactly when it was, with the same id and roles, it now lists every operation,
      and every session request is decided as before. */
  lemma OmissionMeansBuiltin(j: Json, req: Request)
    ensures InForce(VOCABULARY, Document(WriteOut(j))) ==
              match InForce(VOCABULARY, Document(j))
              case Some(p) => Some(FillIn(p))
              case None => None
    ensures Session(VOCABULARY, Document(WriteOut(j)), req) == Session(VOCABULARY, Document(j), req)
  {
    WrittenOutUnrepeated(j);
    CollapseKeepsAll(j);
    CollapseKeepsAll(WriteOut(j));
    WrittenOutLoads(j);
    match InForce(VOCABULARY, Document(j))
    case Some(p) => FilledDecidesAlike(VOCABULARY, p, req);
    case None =>
  }
}
