/** What a policy document can and cannot do through the loader. */
module PolicyLoading {
  import opened JsonDocument
  import opened AuthPolicy
  import opened Options
  import opened Text

  // ------------------------------------------------------- reading a table

  ghost predicate Readable<K, V>(members: seq<Member>, fold: string -> Option<K>, read: Json -> Option<V>) {
    && (forall i :: 0 <= i < |members| ==> fold(members[i].key).Some? && read(members[i].value).Some?)
    && (forall i, j :: 0 <= i < j < |members| ==> fold(members[i].key) != fold(members[j].key))
  }

  /** `table` holds exactly the members, under their folded keys. */
  ghost predicate Holds<K(!new), V>(members: seq<Member>, fold: string -> Option<K>, read: Json -> Option<V>,
      table: map<K, V>) {
    && (forall i :: 0 <= i < |members| ==>
          fold(members[i].key).Some? && fold(members[i].key).value in table
          && read(members[i].value) == Some(table[fold(members[i].key).value]))
    && (forall k :: k in table ==> exists i :: 0 <= i < |members| && fold(members[i].key) == Some(k))
  }

  /** A table is read exactly when every member is acceptable and no two keys collide, and
      then it holds exactly the members: nothing is overwritten. */
  lemma {:induction false} TableSpec<K(!new), V>(members: seq<Member>, fold: string -> Option<K>,
      read: Json -> Option<V>)
    ensures Table(members, fold, read).Some? <==> Readable(members, fold, read)
    ensures Table(members, fold, read).Some? ==> Holds(members, fold, read, Table(members, fold, read).value)
  {
    if members != [] {
      var init, last := members[..|members|-1], members[|members|-1];
      TableSpec(init, fold, read);
      assert members == init + [last];
      ReadableSnoc(init, last, fold, read);
      if Table(members, fold, read).Some? {
        HoldsSnoc(init, last, fold, read, Table(init, fold, read).value);
      }
    }
  }

  lemma ReadableSnoc<K(!new), V>(init: seq<Member>, last: Member, fold: string -> Option<K>, read: Json -> Option<V>)
    ensures Readable(init + [last], fold, read) <==>
              && Readable(init, fold, read) && fold(last.key).Some? && read(last.value).Some?
              && forall i :: 0 <= i < |init| ==> fold(init[i].key) != fold(last.key)
  {
    var members := init + [last];
    assert members[|init|] == last;
    assert forall i :: 0 <= i < |init| ==> init[i] == members[i];
  }

  lemma HoldsSnoc<K(!new), V>(init: seq<Member>, last: Member, fold: string -> Option<K>, read: Json -> Option<V>,
      table: map<K, V>)
    requires Holds(init, fold, read, table)
    requires fold(last.key).Some? && fold(last.key).value !in table && read(last.value).Some?
    ensures Holds(init + [last], fold, read, table[fold(last.key).value := read(last.value).value])
  {
    var members := init + [last];
    assert members[|init|] == last;
    forall k | k in table ensures exists i :: 0 <= i < |members| && fold(members[i].key) == Some(k) {
      var i :| 0 <= i < |init| && fold(init[i].key) == Some(k);
      assert members[i] == init[i];
    }
  }

  // ----------------------------------------------- the order of members

  ghost function KeysOf(members: seq<Member>): set<string> {
    set m | m in members :: m.key
  }

  /** Where `key` first occurs. */
  ghost function IndexOf(members: seq<Member>, key: string): (i: nat)
    requires key in KeysOf(members)
    ensures i < |members| && members[i].key == key
  {
    if members[0].key == key then 0
    else
      assert members == [members[0]] + members[1..];
      1 + IndexOf(members[1..], key)
  }

  /** The same document up to the order of the members of its objects. */
  ghost predicate Same(a: Json, b: Json) {
    match (a, b)
    case (Arr(xs), Arr(ys)) => |xs| == |ys| && forall i :: 0 <= i < |xs| ==> Same(xs[i], ys[i])
    case (Obj(xs), Obj(ys)) =>
      && KeysOf(xs) == KeysOf(ys)
      && forall i :: 0 <= i < |xs| && xs[i].key in KeysOf(ys) ==> Same(xs[i].value, ys[IndexOf(ys, xs[i].key)].value)
    case _ => a == b
  }

  lemma {:induction false} LookupAt(members: seq<Member>, i: nat)
    requires DistinctKeys(members) && i < |members|
    ensures Lookup(members, members[i].key) == Some(members[i].value)
  {
    if i > 0 { LookupAt(members[1..], i - 1); }
  }

  lemma {:induction false} LookupMissing(members: seq<Member>, key: string)
    requires key !in KeysOf(members)
    ensures Lookup(members, key) == None
  {
    if members != [] {
      assert members[0] in members;
      assert forall m :: m in members[1..] ==> m in members;
      LookupMissing(members[1..], key);
    }
  }

  /** The members of `xs` and `ys` with the same key. */
  lemma Partners(xs: seq<Member>, ys: seq<Member>, key: string)
    requires NoRepeatedKey(Obj(xs)) && NoRepeatedKey(Obj(ys)) && Same(Obj(xs), Obj(ys)) && key in KeysOf(xs)
    ensures key in KeysOf(ys)
    ensures var x, y := xs[IndexOf(xs, key)].value, ys[IndexOf(ys, key)].value;
            NoRepeatedKey(x) && NoRepeatedKey(y) && Same(x, y)
  {
    var i := IndexOf(xs, key);
    assert xs[i].key == key;
  }

  ghost predicate SameOption(a: Option<Json>, b: Option<Json>) {
    (a.None? && b.None?) || (a.Some? && b.Some? && NoRepeatedKey(a.value) && NoRepeatedKey(b.value)
      && Same(a.value, b.value))
  }

  lemma FieldSame(a: Json, b: Json, key: string)
    requires NoRepeatedKey(a) && NoRepeatedKey(b) && Same(a, b)
    ensures SameOption(Field(a, key), Field(b, key))
  {
    if a.Obj? && b.Obj? {
      MemberSame(a.members, b.members, key);
    }
  }

  lemma MemberSame(xs: seq<Member>, ys: seq<Member>, key: string)
    requires NoRepeatedKey(Obj(xs)) && NoRepeatedKey(Obj(ys)) && Same(Obj(xs), Obj(ys))
    ensures SameOption(Lookup(xs, key), Lookup(ys, key))
  {
    if key in KeysOf(xs) {
      Partners(xs, ys, key);
      LookupAt(xs, IndexOf(xs, key));
      LookupAt(ys, IndexOf(ys, key));
    } else {
      LookupMissing(xs, key);
      LookupMissing(ys, key);
    }
  }

  lemma {:induction false} StatesSame(vocab: Vocabulary, xs: seq<Json>, ys: seq<Json>)
    requires |xs| == |ys| && forall i :: 0 <= i < |xs| ==> Same(xs[i], ys[i])
    ensures StatesOf(vocab, xs) == StatesOf(vocab, ys)
  {
    if xs != [] {
      assert Same(xs[0], ys[0]);
      StatesSame(vocab, xs[1..], ys[1..]);
    }
  }

  lemma {:induction false} GrantsSame(vocab: Vocabulary, operations: Operations, ceiling: DataClass, xs: seq<Json>,
      ys: seq<Json>)
    requires |xs| == |ys| && forall i :: 0 <= i < |xs| ==> Same(xs[i], ys[i])
    ensures GrantsOf(vocab, operations, ceiling, xs) == GrantsOf(vocab, operations, ceiling, ys)
  {
    if xs != [] {
      assert Same(xs[0], ys[0]);
      GrantsSame(vocab, operations, ceiling, xs[1..], ys[1..]);
    }
  }

  lemma OperationSame(vocab: Vocabulary, a: Json, b: Json)
    requires NoRepeatedKey(a) && NoRepeatedKey(b) && Same(a, b)
    ensures OperationOf(vocab, a) == OperationOf(vocab, b)
  {
    FieldSame(a, b, "required_acr");
    FieldSame(a, b, "required_data_class");
    FieldSame(a, b, "requires_workplace_scope");
    FieldSame(a, b, "allowed_workflow_states");
    WindowSame(vocab, Field(a, "allowed_workflow_states"), Field(b, "allowed_workflow_states"));
  }

  lemma WindowSame(vocab: Vocabulary, a: Option<Json>, b: Option<Json>)
    requires SameOption(a, b)
    ensures WindowOf(vocab, a) == WindowOf(vocab, b)
  {
    if a.Some? && a.value.Arr? { StatesSame(vocab, a.value.items, b.value.items); }
  }

  lemma RoleSame(vocab: Vocabulary, operations: Operations, a: Json, b: Json)
    requires NoRepeatedKey(a) && NoRepeatedKey(b) && Same(a, b)
    ensures RoleOf(vocab, operations, a) == RoleOf(vocab, operations, b)
  {
    FieldSame(a, b, "max_data_class");
    FieldSame(a, b, "grants");
    var ceiling := match TextField(a, "max_data_class") { case Some(s) => vocab.dataClass(s) case None => None };
    match (ceiling, Field(a, "grants"), Field(b, "grants"))
    case (Some(c), Some(Arr(xs)), Some(Arr(ys))) => GrantsSame(vocab, operations, c, xs, ys);
    case _ =>
  }

  ghost predicate ReadsAlike<V>(read: Json -> Option<V>) {
    forall a, b :: NoRepeatedKey(a) && NoRepeatedKey(b) && Same(a, b) ==> read(a) == read(b)
  }

  /** Reordering the members of an object without repeated keys changes neither whether its
      table is read nor what it holds. */
  lemma TableSame<K(!new), V>(xs: seq<Member>, ys: seq<Member>, fold: string -> Option<K>, read: Json -> Option<V>)
    requires NoRepeatedKey(Obj(xs)) && NoRepeatedKey(Obj(ys)) && Same(Obj(xs), Obj(ys)) && ReadsAlike(read)
    ensures Table(xs, fold, read) == Table(ys, fold, read)
  {
    TableSpec(xs, fold, read);
    TableSpec(ys, fold, read);
    ValuesSame(xs, ys, read);
    ReadableSame(xs, ys, fold, read);
    ReadableSame(ys, xs, fold, read);
    if Table(xs, fold, read).Some? {
      HoldsSame(xs, ys, fold, read, Table(xs, fold, read).value, Table(ys, fold, read).value);
    }
  }

  /** Members with the same key read alike. */
  ghost predicate ReadTogether<V>(xs: seq<Member>, ys: seq<Member>, read: Json -> Option<V>) {
    && DistinctKeys(xs) && DistinctKeys(ys) && KeysOf(xs) == KeysOf(ys)
    && forall key :: key in KeysOf(xs) ==> ReadTogetherAt(xs, ys, read, key)
  }

  ghost predicate ReadTogetherAt<V>(xs: seq<Member>, ys: seq<Member>, read: Json -> Option<V>, key: string) {
    key in KeysOf(xs) && key in KeysOf(ys) ==> read(xs[IndexOf(xs, key)].value) == read(ys[IndexOf(ys, key)].value)
  }

  lemma ValuesSame<V>(xs: seq<Member>, ys: seq<Member>, read: Json -> Option<V>)
    requires NoRepeatedKey(Obj(xs)) && NoRepeatedKey(Obj(ys)) && Same(Obj(xs), Obj(ys)) && ReadsAlike(read)
    ensures ReadTogether(xs, ys, read) && ReadTogether(ys, xs, read)
  {
    forall key | key in KeysOf(xs) ensures ReadTogetherAt(xs, ys, read, key) && ReadTogetherAt(ys, xs, read, key) {
      Partners(xs, ys, key);
    }
  }

  /** The member of `ys` with the key of `xs[i]`. */
  lemma Partner<V>(xs: seq<Member>, ys: seq<Member>, read: Json -> Option<V>, i: nat) returns (j: nat)
    requires ReadTogether(xs, ys, read) && i < |xs|
    ensures j < |ys| && ys[j].key == xs[i].key && read(ys[j].value) == read(xs[i].value)
  {
    var key := xs[i].key;
    assert xs[i] in xs;
    assert ReadTogetherAt(xs, ys, read, key);
    j := IndexOf(ys, key);
    assert IndexOf(xs, key) == i;
  }

  lemma ReadableSame<K(!new), V>(xs: seq<Member>, ys: seq<Member>, fold: string -> Option<K>, read: Json -> Option<V>)
    requires ReadTogether(xs, ys, read)
    ensures Readable(ys, fold, read) ==> Readable(xs, fold, read)
  {
    if Readable(ys, fold, read) {
      forall i | 0 <= i < |xs| ensures fold(xs[i].key).Some? && read(xs[i].value).Some? {
        var j := Partner(xs, ys, read, i);
      }
      forall i, k | 0 <= i < k < |xs| ensures fold(xs[i].key) != fold(xs[k].key) {
        var j := Partner(xs, ys, read, i);
        var l := Partner(xs, ys, read, k);
        assert xs[i].key != xs[k].key;
        assert j < l || l < j;
      }
    }
  }

  lemma HoldsSame<K(!new), V>(xs: seq<Member>, ys: seq<Member>, fold: string -> Option<K>, read: Json -> Option<V>,
                              s: map<K, V>, t: map<K, V>)
    requires ReadTogether(xs, ys, read) && ReadTogether(ys, xs, read)
    requires Holds(xs, fold, read, s) && Holds(ys, fold, read, t)
    ensures s == t
  {
    forall k | k in s ensures k in t && t[k] == s[k] {
      var i :| 0 <= i < |xs| && fold(xs[i].key) == Some(k);
      var j := Partner(xs, ys, read, i);
    }
    forall k | k in t ensures k in s {
      var j :| 0 <= j < |ys| && fold(ys[j].key) == Some(k);
      var i := Partner(ys, xs, read, j);
    }
  }

  /** The members of every object may be written in any order: the loader accepts the same
      documents and builds the same policy. */
  lemma OrderDoesNotMatter(vocab: Vocabulary, a: Json, b: Json)
    requires NoRepeatedKey(a) && NoRepeatedKey(b) && Same(a, b)
    ensures PolicyOf(vocab, a) == PolicyOf(vocab, b)
  {
    FieldSame(a, b, "policy_id");
    FieldSame(a, b, "operations");
    FieldSame(a, b, "roles");
    PolicyFromSame(vocab, PolicyIdOf(a), Field(a, "operations"), Field(b, "operations"), Field(a, "roles"),
      Field(b, "roles"));
  }

  lemma PolicyFromSame(vocab: Vocabulary, policyId: string, a: Option<Json>, b: Option<Json>, c: Option<Json>,
      d: Option<Json>)
    requires SameOption(a, b) && SameOption(c, d)
    ensures PolicyFrom(vocab, policyId, a, c) == PolicyFrom(vocab, policyId, b, d)
  {
    match (a, b, c, d)
    case (Some(Obj(xs)), Some(Obj(ys)), Some(Obj(us)), Some(Obj(vs))) => TablesSame(vocab, xs, ys, us, vs);
    case _ =>
  }

  lemma TablesSame(vocab: Vocabulary, xs: seq<Member>, ys: seq<Member>, us: seq<Member>, vs: seq<Member>)
    requires NoRepeatedKey(Obj(xs)) && NoRepeatedKey(Obj(ys)) && Same(Obj(xs), Obj(ys))
    requires NoRepeatedKey(Obj(us)) && NoRepeatedKey(Obj(vs)) && Same(Obj(us), Obj(vs))
    ensures OperationsOf(vocab, xs) == OperationsOf(vocab, ys)
    ensures OperationsOf(vocab, xs).Some? ==>
              RolesOf(vocab, OperationsOf(vocab, xs).value, us) == RolesOf(vocab, OperationsOf(vocab, xs).value, vs)
  {
    OperationsSame(vocab, xs, ys);
    if OperationsOf(vocab, xs).Some? {
      RolesSame(vocab, OperationsOf(vocab, xs).value, us, vs);
    }
  }

  lemma OperationsSame(vocab: Vocabulary, xs: seq<Member>, ys: seq<Member>)
    requires NoRepeatedKey(Obj(xs)) && NoRepeatedKey(Obj(ys)) && Same(Obj(xs), Obj(ys))
    ensures OperationsOf(vocab, xs) == OperationsOf(vocab, ys)
  {
    var read := j => OperationOf(vocab, j);
    forall a, b | NoRepeatedKey(a) && NoRepeatedKey(b) && Same(a, b) ensures read(a) == read(b) {
      OperationSame(vocab, a, b);
    }
    TableSame(xs, ys, vocab.operation, read);
  }

  lemma RolesSame(vocab: Vocabulary, operations: Operations, xs: seq<Member>, ys: seq<Member>)
    requires NoRepeatedKey(Obj(xs)) && NoRepeatedKey(Obj(ys)) && Same(Obj(xs), Obj(ys))
    ensures RolesOf(vocab, operations, xs) == RolesOf(vocab, operations, ys)
  {
    var fold := key => Some(vocab.role(key));
    var read := j => RoleOf(vocab, operations, j);
    forall a, b | NoRepeatedKey(a) && NoRepeatedKey(b) && Same(a, b) ensures read(a) == read(b) {
      RoleSame(vocab, operations, a, b);
    }
    TableSame(xs, ys, fold, read);
    assert xs != [] ==> xs[0].key in KeysOf(xs) by { assert xs != [] ==> xs[0] in xs; }
    assert ys != [] ==> ys[0].key in KeysOf(ys) by { assert ys != [] ==> ys[0] in ys; }
  }

  // --------------------------------------------------- what loading rules out

  /** No grant, wildcard included, exceeds the data-class ceiling of its role. */
  ghost predicate WithinCeilings(p: Policy) {
    forall r, op :: r in p.roles && p.roles[r].Permits(op) ==>
      RequiredDataClass(p.operations, op).Rank() <= p.roles[r].maxDataClass.Rank()
  }

  /** The window of an operation, its own or the built-in one. */
  function WindowFor(operations: Operations, op: Operation): Option<set<State>> {
    if op in operations then operations[op].window else BuiltinWindow(op)
  }

  predicate ShutWhenInconsistent(window: Option<set<State>>) {
    window.Some? ==> Inconsistent !in window.value
  }

  /** No window opens on the fail-closed state. */
  ghost predicate NeverInconsistent(p: Policy) {
    forall op :: ShutWhenInconsistent(WindowFor(p.operations, op))
  }

  lemma EveryOperationListed(op: Operation)
    ensures exists i :: 0 <= i < |ALL| && ALL[i] == op
  {
    var all := ALL;
    assert all[0] == ReadWorkspace && all[1] == HrEmployeeRead && all[2] == HrEmployeeWrite && all[3] == ArchiveRead;
    assert all[4] == ArchiveUpload && all[5] == ArchiveReview && all[6] == ArchiveAdmit && all[7] == ArchiveRollback;
    assert all[8] == ArchiveSync && all[9] == UserPreferenceUpdate && all[10] == WorkflowTemplateRead;
    assert all[11] == WorkflowTemplateWrite && all[12] == WorkflowStepExecute && all[13] == PayrollRun;
    assert all[14] == PayrollExport && all[15] == PayrollPolicyChange && all[16] == ApprovalSigning;
    assert all[17] == TenantDestructiveChange;
  }

  lemma {:induction false} GrantsExercisable(vocab: Vocabulary, operations: Operations, ceiling: DataClass,
      items: seq<Json>, grant: Grant)
    requires GrantsOf(vocab, operations, ceiling, items).Some?
             && grant in GrantsOf(vocab, operations, ceiling, items).value
    ensures Exercisable(operations, ceiling, grant)
  {
    if GrantOf(vocab, items[0].s) != Some(grant) {
      GrantsExercisable(vocab, operations, ceiling, items[1..], grant);
    }
  }

  lemma RoleWithinCeiling(vocab: Vocabulary, operations: Operations, j: Json, role: RolePolicy, op: Operation)
    requires RoleOf(vocab, operations, j) == Some(role) && role.Permits(op)
    ensures RequiredDataClass(operations, op).Rank() <= role.maxDataClass.Rank()
  {
    match Field(j, "grants")
    case Some(Arr(items)) =>
      if Every in role.grants {
        GrantsExercisable(vocab, operations, role.maxDataClass, items, Every);
        EveryOperationListed(op);
        var i :| 0 <= i < |ALL| && ALL[i] == op;
      } else {
        GrantsExercisable(vocab, operations, role.maxDataClass, items, One(op));
      }
    case _ =>
  }

  /** Every policy the loader accepts keeps its grants within their ceilings. */
  lemma LoadedWithinCeilings(vocab: Vocabulary, j: Json)
    requires PolicyOf(vocab, j).Some?
    ensures WithinCeilings(PolicyOf(vocab, j).value)
  {
    match Field(j, "roles")
    case Some(Obj(members)) =>
      var p := PolicyOf(vocab, j).value;
      RolesWithinCeilings(vocab, p.operations, members, p.roles);
    case _ =>
  }

  lemma RolesWithinCeilings(vocab: Vocabulary, operations: Operations, members: seq<Member>, roles: Roles)
    requires RolesOf(vocab, operations, members) == Some(roles)
    ensures forall r, op :: r in roles && roles[r].Permits(op) ==>
              RequiredDataClass(operations, op).Rank() <= roles[r].maxDataClass.Rank()
  {
    var fold := key => Some(vocab.role(key));
    var read := j => RoleOf(vocab, operations, j);
    TableSpec(members, fold, read);
    forall r, op | r in roles && roles[r].Permits(op)
      ensures RequiredDataClass(operations, op).Rank() <= roles[r].maxDataClass.Rank()
    {
      var i :| 0 <= i < |members| && fold(members[i].key) == Some(r);
      assert read(members[i].value) == Some(roles[r]);
      RoleWithinCeiling(vocab, operations, members[i].value, roles[r], op);
    }
  }

  lemma {:induction false} StatesParsed(vocab: Vocabulary, items: seq<Json>, state: State)
    requires StatesOf(vocab, items).Some? && state in StatesOf(vocab, items).value
    ensures exists s :: vocab.state(s) == Some(state)
  {
    if vocab.state(items[0].s) != Some(state) {
      StatesParsed(vocab, items[1..], state);
    }
  }

  lemma OperationShut(vocab: Vocabulary, j: Json)
    requires (forall s :: vocab.state(s) != Some(Inconsistent)) && OperationOf(vocab, j).Some?
    ensures ShutWhenInconsistent(OperationOf(vocab, j).value.window)
  {
    match Field(j, "allowed_workflow_states")
    case Some(Arr(items)) =>
      if Inconsistent in StatesOf(vocab, items).value { StatesParsed(vocab, items, Inconsistent); }
    case _ =>
  }

  lemma LoadedShut(vocab: Vocabulary, j: Json)
    requires (forall s :: vocab.state(s) != Some(Inconsistent)) && PolicyOf(vocab, j).Some?
    ensures NeverInconsistent(PolicyOf(vocab, j).value)
  {
    match Field(j, "operations")
    case Some(Obj(members)) => OperationsShut(vocab, members, PolicyOf(vocab, j).value.operations);
    case _ =>
  }

  lemma OperationsShut(vocab: Vocabulary, members: seq<Member>, operations: Operations)
    requires (forall s :: vocab.state(s) != Some(Inconsistent)) && OperationsOf(vocab, members) == Some(operations)
    ensures forall op :: ShutWhenInconsistent(WindowFor(operations, op))
  {
    var read := j => OperationOf(vocab, j);
    TableSpec(members, vocab.operation, read);
    forall op ensures ShutWhenInconsistent(WindowFor(operations, op)) {
      if op in operations {
        var i :| 0 <= i < |members| && vocab.operation(members[i].key) == Some(op);
        assert read(members[i].value) == Some(operations[op]);
        OperationShut(vocab, members[i].value);
      }
    }
  }

  /** The words of the program have none for the fail-closed state. */
  lemma NoWordForInconsistent()
    ensures forall s :: VOCABULARY.state(s) != Some(Inconsistent)
  {
  }

  /** No policy document can open a window on the fail-closed state. */
  lemma LoadedNeverInconsistent(j: Json)
    requires PolicyOf(VOCABULARY, j).Some?
    ensures NeverInconsistent(PolicyOf(VOCABULARY, j).value)
  {
    NoWordForInconsistent();
    LoadedShut(VOCABULARY, j);
  }

  lemma BuiltinIsComplete(op: Operation)
    ensures op in BUILTIN.operations && BUILTIN.operations[op] == BuiltinEntry(op)
  {
    EveryOperationListed(op);
  }

  /** The built-in windows are shut too. */
  lemma BuiltinWindowsShut(p: Policy)
    requires forall op :: op in p.operations ==> p.operations[op] == BuiltinEntry(op)
    ensures NeverInconsistent(p)
  {
  }

  lemma BuiltinNeverInconsistent()
    ensures NeverInconsistent(BUILTIN)
  {
    BuiltinWindowsShut(BUILTIN);
  }

  ghost predicate Fits(role: RolePolicy) {
    forall op :: role.Permits(op) ==> BuiltinClass(op).Rank() <= role.maxDataClass.Rank()
  }

  lemma PayrollRolesFit()
    ensures Fits(PAYROLL_OPERATOR) && Fits(PAYROLL_MANAGER) && Fits(APPROVAL_SIGNER)
  {
  }

  lemma OtherRolesFit()
    ensures Fits(HR_OPERATOR) && Fits(HR_MANAGER) && Fits(IT_SECURITY_ADMIN) && Fits(PLATFORM_OWNER)
              && Fits(SUPPORT_SRE)
  {
  }

  lemma BuiltinRoleIsOneOf(r: string)
    requires r in BUILTIN_ROLES
    ensures BUILTIN_ROLES[r] in
              {PAYROLL_OPERATOR, PAYROLL_MANAGER, APPROVAL_SIGNER, HR_OPERATOR, HR_MANAGER, IT_SECURITY_ADMIN,
               PLATFORM_OWNER, SUPPORT_SRE}
  {
  }

  lemma BuiltinRoleFits(r: string)
    requires r in BUILTIN_ROLES
    ensures Fits(BUILTIN_ROLES[r])
  {
    BuiltinRoleIsOneOf(r);
    PayrollRolesFit();
    OtherRolesFit();
  }

  /** The built-in matrix too keeps every grant within its role's ceiling. */
  lemma BuiltinWithinCeilings()
    ensures WithinCeilings(BUILTIN)
  {
    forall r, op | r in BUILTIN.roles && BUILTIN.roles[r].Permits(op)
      ensures RequiredDataClass(BUILTIN.operations, op).Rank() <= BUILTIN.roles[r].maxDataClass.Rank()
    {
      BuiltinIsComplete(op);
      BuiltinRoleFits(r);
    }
  }

  // ------------------------------------------------------ aliases and words

  lemma IdInjective(a: Operation, b: Operation)
    requires Id(a) == Id(b)
    ensures a == b
  {
    assert |Id(a)| == |Id(b)|;
  }

  lemma {:induction false} FindsSome(s: string, i: nat, n: nat)
    requires i < n <= |ALL| && Id(ALL[i]) == s
    ensures WithId(s, n).Some?
  {
    if i < n - 1 {
      FindsSome(s, i, n - 1);
    }
  }

  /** A key names an operation exactly when it is its id, up to case, dashes and outer blanks:
      no two operations share a spelling, and every operation has one. */
  lemma OperationSpelling(text: string, op: Operation)
    ensures VOCABULARY.operation(text) == Some(op) <==> Fold(Trim(text)) == Id(op)
  {
    SpellsId(Fold(Trim(text)), op);
  }

  lemma SpellsId(s: string, op: Operation)
    ensures WithId(s, |ALL|) == Some(op) <==> s == Id(op)
  {
    if s == Id(op) {
      var i := IndexOfOperation(op);
      FindsSome(s, i, |ALL|);
      IdInjective(WithId(s, |ALL|).value, op);
    }
  }

  lemma IndexOfOperation(op: Operation) returns (i: nat)
    ensures i < |ALL| && ALL[i] == op
  {
    EveryOperationListed(op);
    i :| 0 <= i < |ALL| && ALL[i] == op;
  }

  /** A document in which two role keys are spellings or aliases of one role is refused. */
  lemma RoleAliasesRefused(j: Json, members: seq<Member>, i: nat, k: nat)
    requires Field(j, "roles") == Some(Obj(members)) && i < k < |members|
    requires NormalizeRole(members[i].key) == NormalizeRole(members[k].key)
    ensures PolicyOf(VOCABULARY, j) == None
  {
    forall operations: Operations ensures RolesOf(VOCABULARY, operations, members) == None {
      RolesCollide(VOCABULARY, operations, members, i, k);
    }
  }

  lemma RolesCollide(vocab: Vocabulary, operations: Operations, members: seq<Member>, i: nat, k: nat)
    requires i < k < |members| && vocab.role(members[i].key) == vocab.role(members[k].key)
    ensures RolesOf(vocab, operations, members) == None
  {
    var fold: string -> Option<string> := key => Some(vocab.role(key));
    var read := j => RoleOf(vocab, operations, j);
    TableSpec(members, fold, read);
    assert fold(members[i].key) == fold(members[k].key);
  }

  /** A document with a key that spells no operation is refused. */
  lemma UnknownOperationRefused(j: Json, members: seq<Member>, i: nat)
    requires Field(j, "operations") == Some(Obj(members)) && i < |members|
    requires VOCABULARY.operation(members[i].key) == None
    ensures PolicyOf(VOCABULARY, j) == None
  {
    TableSpec(members, VOCABULARY.operation, e => OperationOf(VOCABULARY, e));
  }

  /** So is one in which two keys spell one operation. */
  lemma OperationSpellingsRefused(j: Json, members: seq<Member>, i: nat, k: nat)
    requires Field(j, "operations") == Some(Obj(members)) && i < k < |members|
    requires Fold(Trim(members[i].key)) == Fold(Trim(members[k].key))
    ensures PolicyOf(VOCABULARY, j) == None
  {
    OperationsCollide(VOCABULARY, members, i, k);
  }

  lemma OperationsCollide(vocab: Vocabulary, members: seq<Member>, i: nat, k: nat)
    requires i < k < |members| && vocab.operation(members[i].key) == vocab.operation(members[k].key)
    ensures OperationsOf(vocab, members) == None
  {
    TableSpec(members, vocab.operation, j => OperationOf(vocab, j));
  }
}
