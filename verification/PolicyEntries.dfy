/** Exactly which entries of a policy document are accepted, and as what. */
module PolicyEntries {
  import opened JsonDocument
  import opened AuthPolicy
  import opened PolicyWriting
  import opened PolicyRoles
  import opened Options
  import opened Text

  // ------------------------------------------------------------- the words

  lemma AcrWord(s: string, acr: Acr)
    ensures AcrNamed(s) == Some(acr) <==> s == AcrName(acr)
  {
  }

  lemma ClassWord(s: string, class_: DataClass)
    ensures DataClassNamed(s) == Some(class_) <==> s == DataClassName(class_)
  {
  }

  lemma StateWord(s: string, state: State)
    ensures StateNamed(s) == Some(state) <==> state != Inconsistent && s == StateName(state)
  {
  }

  /** A field that is a text, and what that text is but for case, dashes and outer blanks. */
  ghost predicate TextIs(j: Json, key: string, word: string) {
    match Field(j, key)
    case Some(Str(s)) => Fold(Trim(s)) == word
    case _ => false
  }

  predicate NamesState(item: Json, state: State) {
    item.Str? && Fold(Trim(item.s)) == StateName(state) && state != Inconsistent
  }

  // ------------------------------------------------------------ the window

  ghost predicate NamesSome(item: Json) {
    exists state :: NamesState(item, state)
  }

  ghost predicate AllNameStates(items: seq<Json>) {
    forall i :: 0 <= i < |items| ==> NamesSome(items[i])
  }

  ghost predicate SomeNames(items: seq<Json>, state: State) {
    exists i :: 0 <= i < |items| && NamesState(items[i], state)
  }

  lemma SomeNamesCons(items: seq<Json>, state: State)
    requires items != []
    ensures SomeNames(items, state) <==> NamesState(items[0], state) || SomeNames(items[1..], state)
  {
    var rest := items[1..];
    if i :| 0 <= i < |rest| && NamesState(rest[i], state) { assert NamesState(items[i+1], state); }
    if i :| 0 <= i < |items| && NamesState(items[i], state) { assert i > 0 ==> NamesState(rest[i-1], state); }
  }

  lemma AllNameStatesCons(items: seq<Json>)
    requires items != []
    ensures AllNameStates(items) <==> NamesSome(items[0]) && AllNameStates(items[1..])
  {
    var rest := items[1..];
    assert items == [items[0]] + rest;
    assert forall i :: 0 < i < |items| ==> items[i] == rest[i-1];
    assert forall i :: 0 <= i < |rest| ==> rest[i] == items[i+1];
  }

  lemma StateRead(s: string, state: State)
    ensures VOCABULARY.state(s) == Some(state) <==> NamesState(Str(s), state)
  {
    StateWord(Fold(Trim(s)), state);
  }

  lemma {:induction false} StatesMean(items: seq<Json>)
    ensures StatesOf(VOCABULARY, items).Some? <==> AllNameStates(items)
    ensures StatesOf(VOCABULARY, items).Some? ==>
              forall state :: state in StatesOf(VOCABULARY, items).value <==> SomeNames(items, state)
  {
    if items != [] {
      StatesMean(items[1..]);
      AllNameStatesCons(items);
      if items[0].Str? {
        forall state ensures VOCABULARY.state(items[0].s) == Some(state) <==> NamesState(items[0], state) {
          StateRead(items[0].s, state);
        }
      }
      forall state ensures SomeNames(items, state) <==> NamesState(items[0], state) || SomeNames(items[1..], state) {
        SomeNamesCons(items, state);
      }
    }
  }

  /** A field that gives a window: none or null for none, or a list of the names of its states. */
  ghost predicate WindowIs(field: Option<Json>, window: Option<set<State>>) {
    match field
    case None => window == None
    case Some(Null) => window == None
    case Some(Arr(items)) =>
      window.Some? && AllNameStates(items) && forall state :: state in window.value <==> SomeNames(items, state)
    case Some(_) => false
  }

  lemma WindowMeans(field: Option<Json>, window: Option<set<State>>)
    ensures WindowOf(VOCABULARY, field) == Some(window) <==> WindowIs(field, window)
  {
    match field
    case Some(Arr(items)) =>
      StatesMean(items);
      if WindowIs(field, window) { assert window.value == StatesOf(VOCABULARY, items).value; }
    case _ =>
  }

  // ------------------------------------------------------------ operations

  lemma AcrField(j: Json, acr: Acr)
    ensures (match TextField(j, "required_acr") { case Some(s) => VOCABULARY.acr(s) case None => None }) == Some(acr)
            <==> TextIs(j, "required_acr", AcrName(acr))
  {
    match TextField(j, "required_acr")
    case Some(s) => AcrWord(Fold(Trim(s)), acr);
    case None =>
  }

  lemma ClassField(j: Json, key: string, class_: DataClass)
    ensures (match TextField(j, key) { case Some(s) => VOCABULARY.dataClass(s) case None => None }) == Some(class_)
            <==> TextIs(j, key, DataClassName(class_))
  {
    match TextField(j, key)
    case Some(s) => ClassWord(Fold(Trim(s)), class_);
    case None =>
  }

  /** An operation is read from an entry exactly when the entry names its level and its class, says
      whether it is bound to a workplace, and gives its window. */
  lemma EntryMeans(j: Json, e: OperationPolicy)
    ensures OperationOf(VOCABULARY, j) == Some(e) <==>
              && TextIs(j, "required_acr", AcrName(e.requiredAcr))
              && TextIs(j, "required_data_class", DataClassName(e.requiredDataClass))
              && Field(j, "requires_workplace_scope") == Some(Bool(e.requiresWorkplaceScope))
              && WindowIs(Field(j, "allowed_workflow_states"), e.window)
  {
    AcrField(j, e.requiredAcr);
    ClassField(j, "required_data_class", e.requiredDataClass);
    WindowMeans(Field(j, "allowed_workflow_states"), e.window);
  }

  // ----------------------------------------------------------------- roles

  /** The item grants everything, or one operation, and the ceiling lets it be exercised. */
  ghost predicate Grants(operations: Operations, ceiling: DataClass, item: Json) {
    && item.Str?
    && ((Trim(item.s) == "*" && NoneHigher(operations, ceiling))
        || exists op :: Fold(Trim(item.s)) == Id(op) && NoHigher(ClassOf(operations, op), ceiling))
  }

  lemma GrantAccepted(operations: Operations, ceiling: DataClass, s: string)
    ensures (GrantOf(VOCABULARY, s).Some? && Exercisable(operations, ceiling, GrantOf(VOCABULARY, s).value))
            <==> Grants(operations, ceiling, Str(s))
  {
    forall op
      ensures GrantOf(VOCABULARY, s) == Some(Every) <==> Trim(s) == "*"
      ensures GrantOf(VOCABULARY, s) == Some(One(op)) <==> Trim(s) != "*" && Fold(Trim(s)) == Id(op)
      ensures Exercisable(operations, ceiling, One(op)) <==> NoHigher(ClassOf(operations, op), ceiling)
      ensures Trim(s) == "*" ==> Fold(Trim(s)) != Id(op)
    {
      GrantReads(s, op);
      ExercisableMeans(operations, ceiling, op);
      StarIsNoId(op);
      FoldedStar(s);
    }
    WildcardMeans(operations, ceiling);
  }

  ghost predicate AllGrants(operations: Operations, ceiling: DataClass, items: seq<Json>) {
    forall i :: 0 <= i < |items| ==> Grants(operations, ceiling, items[i])
  }

  lemma {:induction false} GrantsAccepted(operations: Operations, ceiling: DataClass, items: seq<Json>)
    ensures GrantsOf(VOCABULARY, operations, ceiling, items).Some? <==> AllGrants(operations, ceiling, items)
  {
    if items != [] {
      var first, rest := items[0], items[1..];
      assert items == [first] + rest;
      GrantsAccepted(operations, ceiling, rest);
      if first.Str? { GrantAccepted(operations, ceiling, first.s); }
      assert AllGrants(operations, ceiling, items) <==>
          Grants(operations, ceiling, first) && AllGrants(operations, ceiling, rest) by {
        assert forall i :: 0 < i < |items| ==> items[i] == rest[i-1];
        assert forall i :: 0 <= i < |rest| ==> rest[i] == items[i+1];
      }
    }
  }

  /** A role is read from an entry exactly when the entry names a ceiling and lists grants, each of
      which spells an operation or the wildcard and can be exercised under that ceiling. */
  lemma RoleAccepted(operations: Operations, j: Json)
    ensures RoleOf(VOCABULARY, operations, j).Some? <==>
              exists ceiling ::
                && TextIs(j, "max_data_class", DataClassName(ceiling))
                && Field(j, "grants").Some? && Field(j, "grants").value.Arr?
                && AllGrants(operations, ceiling, Field(j, "grants").value.items)
  {
    forall ceiling ensures (match TextField(j, "max_data_class") {
                              case Some(s) => VOCABULARY.dataClass(s) case None => None }) == Some(ceiling)
                           <==> TextIs(j, "max_data_class", DataClassName(ceiling))
    {
      ClassField(j, "max_data_class", ceiling);
    }
    match Field(j, "grants")
    case Some(Arr(items)) =>
      forall ceiling
        ensures GrantsOf(VOCABULARY, operations, ceiling, items).Some? <==> AllGrants(operations, ceiling, items)
      {
        GrantsAccepted(operations, ceiling, items);
      }
    case _ =>
  }

  // -------------------------------------------------------------- documents

  /** A document is only loaded with a policy id that is a text and not blank, and with operations
      and roles that are objects, and the loaded policy bears that id. */
  lemma DocumentNeeds(j: Json)
    requires PolicyOf(VOCABULARY, j).Some?
    ensures Field(j, "policy_id").Some? && Field(j, "policy_id").value.Str?
    ensures PolicyOf(VOCABULARY, j).value.policyId == Trim(Field(j, "policy_id").value.s) != ""
    ensures Field(j, "operations").Some? && Field(j, "operations").value.Obj?
    ensures Field(j, "roles").Some? && Field(j, "roles").value.Obj? && Field(j, "roles").value.members != []
  {
  }
}
