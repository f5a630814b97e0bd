/** What the roles of a policy are, read from a document and built in, in the words of documents. */
module PolicyRoles {
  import opened JsonDocument
  import opened AuthPolicy
  import opened PolicyLoading
  import opened PolicyWriting
  import opened Options
  import opened Text

  // ------------------------------------------------------- a loaded role

  /** The text is the wildcard, or spells the id of the operation. */
  predicate Spells(text: string, op: Operation) {
    Trim(text) == "*" || Fold(Trim(text)) == Id(op)
  }

  /** The entry of a role lists a grant of `op`. */
  ghost predicate Lists(entry: Json, op: Operation) {
    match Field(entry, "grants")
    case Some(Arr(items)) => exists k :: 0 <= k < |items| && items[k].Str? && Spells(items[k].s, op)
    case _ => false
  }

  /** The entry of a role names its ceiling. */
  ghost predicate NamesClass(entry: Json, class_: DataClass) {
    match Field(entry, "max_data_class")
    case Some(Str(s)) => Fold(Trim(s)) == DataClassName(class_)
    case _ => false
  }

  lemma StarIsNoId(op: Operation)
    ensures Fold("*") == "*" && Id(op) != "*"
  {
  }

  /** A grant is read for what it spells. */
  lemma GrantReads(s: string, op: Operation)
    ensures GrantOf(VOCABULARY, s) == Some(Every) <==> Trim(s) == "*"
    ensures GrantOf(VOCABULARY, s) == Some(One(op)) <==> Trim(s) != "*" && Fold(Trim(s)) == Id(op)
  {
    TrimIdempotent(s);
    GrantNamed(VOCABULARY, s, Trim(s), op);
    OperationSpelling(Trim(s), op);
  }

  lemma GrantNamed(vocab: Vocabulary, s: string, t: string, op: Operation)
    requires t == Trim(s)
    ensures GrantOf(vocab, s) == Some(Every) <==> t == "*"
    ensures GrantOf(vocab, s) == Some(One(op)) <==> t != "*" && vocab.operation(t) == Some(op)
  {
  }

  lemma GrantSpells(s: string, op: Operation)
    ensures GrantOf(VOCABULARY, s) == Some(Every) || GrantOf(VOCABULARY, s) == Some(One(op)) <==> Spells(s, op)
  {
    GrantReads(s, op);
  }

  /** Some item is read as the grant. */
  ghost predicate Among(vocab: Vocabulary, items: seq<Json>, grant: Grant) {
    exists k :: 0 <= k < |items| && items[k].Str? && GrantOf(vocab, items[k].s) == Some(grant)
  }

  lemma {:induction false} GrantsRead(vocab: Vocabulary, operations: Operations, ceiling: DataClass, items: seq<Json>,
                                      grant: Grant)
    requires GrantsOf(vocab, operations, ceiling, items).Some?
    ensures grant in GrantsOf(vocab, operations, ceiling, items).value <==> Among(vocab, items, grant)
  {
    if items != [] {
      assert items == [items[0]] + items[1..];
      FirstGrant(vocab, operations, ceiling, items[0], items[1..], grant);
      GrantsRead(vocab, operations, ceiling, items[1..], grant);
      AmongCons(vocab, items[0], items[1..], grant);
    }
  }

  lemma FirstGrant(vocab: Vocabulary, operations: Operations, ceiling: DataClass, first: Json, rest: seq<Json>,
                   grant: Grant)
    requires GrantsOf(vocab, operations, ceiling, [first] + rest).Some?
    ensures first.Str? && GrantsOf(vocab, operations, ceiling, rest).Some?
    ensures grant in GrantsOf(vocab, operations, ceiling, [first] + rest).value <==>
              GrantOf(vocab, first.s) == Some(grant) || grant in GrantsOf(vocab, operations, ceiling, rest).value
  {
    assert ([first] + rest)[1..] == rest;
  }

  lemma AmongCons(vocab: Vocabulary, first: Json, rest: seq<Json>, grant: Grant)
    requires first.Str?
    ensures Among(vocab, [first] + rest, grant) <==> GrantOf(vocab, first.s) == Some(grant) || Among(vocab, rest, grant)
  {
    var items := [first] + rest;
    assert items[0] == first;
    if k :| 0 <= k < |rest| && rest[k].Str? && GrantOf(vocab, rest[k].s) == Some(grant) {
      assert items[k+1] == rest[k];
    }
  }

  lemma GrantsSay(operations: Operations, ceiling: DataClass, items: seq<Json>, op: Operation)
    requires GrantsOf(VOCABULARY, operations, ceiling, items).Some?
    ensures var grants := GrantsOf(VOCABULARY, operations, ceiling, items).value;
            Every in grants || One(op) in grants <==>
              exists k :: 0 <= k < |items| && items[k].Str? && Spells(items[k].s, op)
  {
    GrantsRead(VOCABULARY, operations, ceiling, items, Every);
    GrantsRead(VOCABULARY, operations, ceiling, items, One(op));
    forall k | 0 <= k < |items| && items[k].Str?
      ensures GrantOf(VOCABULARY, items[k].s) == Some(Every) || GrantOf(VOCABULARY, items[k].s) == Some(One(op))
              <==> Spells(items[k].s, op)
    {
      GrantSpells(items[k].s, op);
    }
  }

  /** What a role permits is what its entry lists, and its ceiling is the class the entry names. */
  lemma RoleSays(operations: Operations, entry: Json, role: RolePolicy, op: Operation)
    requires RoleOf(VOCABULARY, operations, entry) == Some(role)
    ensures role.Permits(op) <==> Lists(entry, op)
    ensures NamesClass(entry, role.maxDataClass)
  {
    match Field(entry, "grants")
    case Some(Arr(items)) =>
      GrantsSay(operations, role.maxDataClass, items, op);
      ClassRead(entry, role.maxDataClass);
    case _ =>
  }

  lemma ClassRead(entry: Json, class_: DataClass)
    requires TextField(entry, "max_data_class").Some?
    requires ParseDataClass(TextField(entry, "max_data_class").value) == Some(class_)
    ensures NamesClass(entry, class_)
  {
  }

  /** For every loaded policy: its roles are those of the document under their canonical names, and
      each permits exactly the operations that its entry lists, up to the class the entry names. */
  lemma LoadedRoles(j: Json, members: seq<Member>, r: string, op: Operation)
    requires PolicyOf(VOCABULARY, j).Some? && Field(j, "roles") == Some(Obj(members))
    ensures var roles := PolicyOf(VOCABULARY, j).value.roles;
            && (r in roles <==> exists i :: 0 <= i < |members| && NormalizeRole(members[i].key) == r)
            && (r in roles && roles[r].Permits(op) <==>
                  exists i :: 0 <= i < |members| && NormalizeRole(members[i].key) == r && Lists(members[i].value, op))
            && (r in roles ==>
                  exists i :: 0 <= i < |members| && NormalizeRole(members[i].key) == r
                              && NamesClass(members[i].value, roles[r].maxDataClass))
  {
    var p := PolicyOf(VOCABULARY, j).value;
    RolesHold(p.operations, members, p.roles);
    if r in p.roles {
      var i :| 0 <= i < |members| && NormalizeRole(members[i].key) == r;
      RoleSays(p.operations, members[i].value, p.roles[r], op);
    }
    forall i | 0 <= i < |members| && NormalizeRole(members[i].key) == r
      ensures r in p.roles && (p.roles[r].Permits(op) <==> Lists(members[i].value, op))
    {
      RoleSays(p.operations, members[i].value, p.roles[r], op);
    }
  }

  lemma RolesHold(operations: Operations, members: seq<Member>, roles: Roles)
    requires RolesOf(VOCABULARY, operations, members) == Some(roles)
    ensures forall r :: r in roles <==> exists i :: 0 <= i < |members| && NormalizeRole(members[i].key) == r
    ensures forall i :: 0 <= i < |members| ==>
              && NormalizeRole(members[i].key) in roles
              && RoleOf(VOCABULARY, operations, members[i].value) == Some(roles[NormalizeRole(members[i].key)])
  {
    var fold := key => Some(VOCABULARY.role(key));
    var read := entry => RoleOf(VOCABULARY, operations, entry);
    TableSpec(members, fold, read);
    assert Table(members, fold, read) == Some(roles);
    forall i | 0 <= i < |members|
      ensures NormalizeRole(members[i].key) in roles
      ensures RoleOf(VOCABULARY, operations, members[i].value) == Some(roles[NormalizeRole(members[i].key)])
    {
      assert fold(members[i].key).value == NormalizeRole(members[i].key);
      assert read(members[i].value) == Some(roles[fold(members[i].key).value]);
    }
    forall r | r in roles ensures exists i :: 0 <= i < |members| && NormalizeRole(members[i].key) == r {
      var i :| 0 <= i < |members| && fold(members[i].key) == Some(r);
      assert NormalizeRole(members[i].key) == r;
    }
  }

  // ---------------------------------------------------- the ceiling of a role

  /** The data classes from the lowest to the highest. */
  const CLASSES: seq<DataClass> := [Internal, EmployeeRestricted, PayrollConfidential, TenantCritical]

  ghost predicate NoHigher(a: DataClass, b: DataClass) {
    exists i, j :: 0 <= i <= j < |CLASSES| && CLASSES[i] == a && CLASSES[j] == b
  }

  lemma ClassesInOrder(a: DataClass, b: DataClass)
    ensures NoHigher(a, b) <==> a.Rank() <= b.Rank()
  {
    var i, j := a.Rank(), b.Rank();
    assert CLASSES[0] == Internal && CLASSES[1] == EmployeeRestricted && CLASSES[2] == PayrollConfidential;
    assert CLASSES[3] == TenantCritical;
    assert CLASSES[i] == a && CLASSES[j] == b;
  }

  /** The class an operation requires: that of its entry, or else the built-in one. */
  function ClassOf(operations: Operations, op: Operation): DataClass {
    if op in operations then operations[op].requiredDataClass else BuiltinClass(op)
  }

  /** No operation at all requires a class beyond the ceiling. */
  ghost predicate NoneHigher(operations: Operations, ceiling: DataClass) {
    forall op :: NoHigher(ClassOf(operations, op), ceiling)
  }

  /** A grant can be exercised under a ceiling exactly when no operation it covers, one or all of
      them, requires a higher class. */
  lemma ExercisableMeans(operations: Operations, ceiling: DataClass, op: Operation)
    ensures Exercisable(operations, ceiling, One(op)) <==> NoHigher(ClassOf(operations, op), ceiling)
    ensures Exercisable(operations, ceiling, Every) <==> NoneHigher(operations, ceiling)
  {
    ClassesInOrder(ClassOf(operations, op), ceiling);
    WildcardMeans(operations, ceiling);
  }

  lemma WildcardMeans(operations: Operations, ceiling: DataClass)
    ensures Exercisable(operations, ceiling, Every) <==> NoneHigher(operations, ceiling)
  {
    var highest := HighestOperation(operations, |ALL|);
    ClassesInOrder(ClassOf(operations, highest), ceiling);
    if Exercisable(operations, ceiling, Every) {
      forall op ensures NoHigher(ClassOf(operations, op), ceiling) {
        BelowHighest(operations, op);
        ClassesInOrder(ClassOf(operations, op), ceiling);
      }
    }
  }

  lemma BelowHighest(operations: Operations, op: Operation)
    ensures ClassOf(operations, op).Rank() <= MaxRank(operations, |ALL|)
  {
    EveryOperationListed(op);
    var i :| 0 <= i < |ALL| && ALL[i] == op;
    assert RequiredDataClass(operations, ALL[i]) == ClassOf(operations, op);
  }

  lemma {:induction false} HighestOperation(operations: Operations, n: nat) returns (op: Operation)
    requires 0 < n <= |ALL|
    ensures MaxRank(operations, n) == ClassOf(operations, op).Rank()
  {
    op := ALL[n-1];
    if n > 1 {
      var before := HighestOperation(operations, n - 1);
      if MaxRank(operations, n - 1) >= ClassOf(operations, op).Rank() { op := before; }
    }
  }

  // ------------------------------------------------------------- spelling

  /** Folding turns upper case into lower case and dashes into underscores, and nothing else. */
  lemma {:induction false} FoldedChar(s: string, i: nat)
    requires i < |s|
    ensures 'A' <= s[i] <= 'Z' ==> Fold(s)[i] as int - 'a' as int == s[i] as int - 'A' as int
    ensures s[i] == '-' ==> Fold(s)[i] == '_'
    ensures !('A' <= s[i] <= 'Z') && s[i] != '-' ==> Fold(s)[i] == s[i]
  {
    if i > 0 { FoldedChar(s[1..], i - 1); }
  }

  // ------------------------------------------------------- a written role

  /** The named grants, in the order of the operations. */
  function GrantItems(grants: set<Grant>, ops: seq<Operation>): seq<Json> {
    if ops == [] then []
    else (if One(ops[0]) in grants then [Str(Id(ops[0]))] else []) + GrantItems(grants, ops[1..])
  }

  function RoleJson(role: RolePolicy): Json {
    var wildcard := if Every in role.grants then [Str("*")] else [];
    Obj([Member("max_data_class", Str(DataClassName(role.maxDataClass))),
         Member("grants", Arr(wildcard + GrantItems(role.grants, ALL)))])
  }

  ghost function Held(grants: set<Grant>, ops: seq<Operation>): set<Grant> {
    set op | op in ops && One(op) in grants :: One(op)
  }

  ghost predicate AllExercisable(operations: Operations, ceiling: DataClass, grants: set<Grant>) {
    forall grant :: grant in grants ==> Exercisable(operations, ceiling, grant)
  }

  /** What is read is what was written, if every grant can be exercised, and nothing otherwise. */
  ghost predicate ReadsAs(operations: Operations, ceiling: DataClass, items: seq<Json>, grants: set<Grant>) {
    GrantsOf(VOCABULARY, operations, ceiling, items) ==
      if AllExercisable(operations, ceiling, grants) then Some(grants) else None
  }

  lemma OneGrantMore(operations: Operations, ceiling: DataClass, name: string, grant: Grant, held: bool,
                     items: seq<Json>, grants: set<Grant>)
    requires GrantOf(VOCABULARY, name) == Some(grant) && ReadsAs(operations, ceiling, items, grants)
    ensures ReadsAs(operations, ceiling, (if held then [Str(name)] else []) + items,
                    (if held then {grant} else {}) + grants)
  {
    if held {
      assert ([Str(name)] + items)[1..] == items;
    } else {
      assert [] + items == items && {} + grants == grants;
    }
  }

  lemma HeldCons(grants: set<Grant>, ops: seq<Operation>)
    requires ops != []
    ensures Held(grants, ops) == (if One(ops[0]) in grants then {One(ops[0])} else {}) + Held(grants, ops[1..])
  {
    assert ops == [ops[0]] + ops[1..];
  }

  lemma IdIsGrant(op: Operation)
    ensures GrantOf(VOCABULARY, Id(op)) == Some(One(op))
  {
    IdReads(op);
    StarIsNoId(op);
    GrantReads(Id(op), op);
    OperationSpelling(Id(op), op);
    FoldedStar(Id(op));
  }

  lemma FoldedStar(s: string)
    ensures Trim(s) == "*" ==> Fold(Trim(s)) == "*"
  {
    StarIsNoId(PayrollRun);
  }

  lemma {:induction false} GrantItemsRead(operations: Operations, ceiling: DataClass, grants: set<Grant>,
                                          ops: seq<Operation>)
    ensures ReadsAs(operations, ceiling, GrantItems(grants, ops), Held(grants, ops))
  {
    if ops != [] {
      GrantItemsRead(operations, ceiling, grants, ops[1..]);
      IdIsGrant(ops[0]);
      HeldCons(grants, ops);
      OneGrantMore(operations, ceiling, Id(ops[0]), One(ops[0]), One(ops[0]) in grants, GrantItems(grants, ops[1..]),
                   Held(grants, ops[1..]));
    } else {
      assert Held(grants, ops) == {};
    }
  }

  lemma AllHeld(grants: set<Grant>)
    ensures (if Every in grants then {Every} else {}) + Held(grants, ALL) == grants
  {
    var all := (if Every in grants then {Every} else {}) + Held(grants, ALL);
    forall grant | grant in grants ensures grant in all {
      if grant.One? { EveryOperationListed(grant.operation); }
    }
  }

  lemma StarIsGrant()
    ensures GrantOf(VOCABULARY, "*") == Some(Every)
  {
    assert Trim("*") == "*";
  }

  /** A written role is read back as it was, if and only if its ceiling lets every grant of it be
      exercised. */
  lemma RoleReads(operations: Operations, role: RolePolicy)
    ensures RoleOf(VOCABULARY, operations, RoleJson(role)) ==
              if AllExercisable(operations, role.maxDataClass, role.grants) then Some(role) else None
  {
    GrantItemsRead(operations, role.maxDataClass, role.grants, ALL);
    StarIsGrant();
    OneGrantMore(operations, role.maxDataClass, "*", Every, Every in role.grants, GrantItems(role.grants, ALL),
                 Held(role.grants, ALL));
    AllHeld(role.grants);
    DataClassReads(role.maxDataClass);
    RoleFields(role);
  }

  lemma RoleFields(role: RolePolicy)
    ensures Field(RoleJson(role), "max_data_class") == Some(Str(DataClassName(role.maxDataClass)))
    ensures Field(RoleJson(role), "grants")
            == Some(Arr((if Every in role.grants then [Str("*")] else []) + GrantItems(role.grants, ALL)))
  {
    LookupAt(RoleJson(role).members, 0);
    LookupAt(RoleJson(role).members, 1);
  }

  // ------------------------------------------------------- a whole policy

  /** A policy document. */
  function PolicyJson(policyId: string, operations: seq<Member>, roles: seq<Member>): Json {
    Obj([Member("policy_id", Str(policyId)), Member("operations", Obj(operations)), Member("roles", Obj(roles))])
  }

  /** A written policy is loaded exactly when its id is not blank, its operations and its roles can
      be read, and there is a role; and then as what they read as, under the trimmed id. */
  lemma PolicyReads(policyId: string, operations: seq<Member>, roles: seq<Member>)
    ensures var entries := OperationsOf(VOCABULARY, operations);
            PolicyOf(VOCABULARY, PolicyJson(policyId, operations, roles)) ==
              if Trim(policyId) == "" || entries.None? || roles == [] then None
              else
                match RolesOf(VOCABULARY, entries.value, roles)
                case Some(read) => Some(Policy(Trim(policyId), read, entries.value))
                case None => None
  {
    var j := PolicyJson(policyId, operations, roles);
    LookupAt(j.members, 0);
    LookupAt(j.members, 1);
    LookupAt(j.members, 2);
  }
}
