/** Decoding the predefined entities of XML (section 4.6 of XML 1.0) in workbook text. */
module XmlEntities {

  predicate StartsWith(s: string, prefix: string) {
    |prefix| <= |s| && s[..|prefix|] == prefix
  }

  lemma StartsWithCons(c: char, rest: string, prefix: string)
    requires prefix != ""
    ensures StartsWith([c] + rest, prefix) <==> prefix[0] == c && StartsWith(rest, prefix[1..])
  {
    var s := [c] + rest;
    if |prefix| <= |s| {
      assert s[..|prefix|] == [c] + rest[..|prefix|-1];
      assert prefix == [prefix[0]] + prefix[1..];
    }
  }

  lemma DiffersAt(s: string, prefix: string, m: nat)
    requires m < |prefix| && (m < |s| ==> s[m] != prefix[m])
    ensures !StartsWith(s, prefix)
  {
    if |prefix| <= |s| { assert s[..|prefix|][m] == s[m]; }
  }

  /** `s.replace(/pattern/g, by)` for a literal pattern: left to right, never rescanning. */
  function ReplaceAll(s: string, pattern: string, sub: char): string
    requires pattern != ""
  {
    if s == "" then ""
    else if StartsWith(s, pattern) then [sub] + ReplaceAll(s[|pattern|..], pattern, sub)
    else [s[0]] + ReplaceAll(s[1..], pattern, sub)
  }

  // -------------------------------------------------------------- the entities

  datatype Entity = Entity(body: string, meaning: char)

  function Reference(e: Entity): (s: string)
    ensures s != "" && s[0] == '&' && s[1..] == e.body
  {
    ['&'] + e.body
  }

  /** The predefined entities, in the order the source replaces them. */
  const ENTITIES: seq<Entity> :=
    [Entity("lt;", '<'), Entity("gt;", '>'), Entity("quot;", '"'), Entity("apos;", '\''), Entity("amp;", '&')]

  function Replace(s: string, e: Entity): string {
    ReplaceAll(s, Reference(e), e.meaning)
  }

  /** A global replacement for each of the first `k` entities, one after the other. */
  function ReplaceEach(s: string, table: seq<Entity>, k: nat): string
    requires k <= |table|
  {
    if k == 0 then s else Replace(ReplaceEach(s, table, k - 1), table[k - 1])
  }

  /** `xmlDecode` */
  function XmlDecode(value: string): string {
    ReplaceEach(value, ENTITIES, |ENTITIES|)
  }

  // --------------------------------------------------------- a single pass

  /** The first of the first `k` entities whose reference starts `s`; `k` when there is none. */
  function Find(s: string, table: seq<Entity>, k: nat): (i: nat)
    requires k <= |table|
    ensures i <= k
    ensures i < k ==> StartsWith(s, Reference(table[i]))
  {
    if k == 0 then 0
    else
      var i := Find(s, table, k - 1);
      if i < k - 1 || StartsWith(s, Reference(table[k - 1])) then i else k
  }

  ghost predicate NoneStarts(s: string, table: seq<Entity>, k: nat)
    requires k <= |table|
  {
    forall j :: 0 <= j < k ==> !StartsWith(s, Reference(table[j]))
  }

  lemma {:induction false} FindsFirst(s: string, table: seq<Entity>, k: nat, i: nat)
    requires i <= k <= |table| && NoneStarts(s, table, i)
    requires i < k ==> StartsWith(s, Reference(table[i]))
    ensures Find(s, table, k) == i
  {
    if k > 0 {
      if i < k {
        FindsFirst(s, table, k - 1, i);
      } else {
        FindsFirst(s, table, k - 1, k - 1);
      }
    }
  }

  /** One left-to-right pass that decodes the first `k` entities. */
  function DecodeOnce(s: string, table: seq<Entity>, k: nat): string
    requires k <= |table|
  {
    if s == "" then ""
    else
      var i := Find(s, table, k);
      if i < k then [table[i].meaning] + DecodeOnce(s[|Reference(table[i])|..], table, k)
      else [s[0]] + DecodeOnce(s[1..], table, k)
  }

  ghost predicate NoAmpersand(p: string) {
    forall c :: c in p ==> c != '&'
  }

  /** No character of `p` is the meaning of one of the first `k` entities. */
  ghost predicate NotProduced(p: string, table: seq<Entity>, k: nat)
    requires k <= |table|
  {
    forall c, i :: c in p && 0 <= i < k ==> c != table[i].meaning
  }

  /** What makes one-by-one replacement safe: a reference contains one ampersand only, and
      nothing that an earlier replacement produces. */
  ghost predicate Safe(table: seq<Entity>) {
    && (forall i :: 0 <= i < |table| ==> NoAmpersand(table[i].body) && NotProduced(table[i].body, table, i))
    && (forall i :: 0 <= i < |table| - 1 ==> table[i].meaning != '&')
  }

  lemma EntitiesSafe()
    ensures Safe(ENTITIES)
  {
    forall i | 0 <= i < |ENTITIES| ensures NoAmpersand(ENTITIES[i].body) && NotProduced(ENTITIES[i].body, ENTITIES, i) {
      forall c | c in ENTITIES[i].body ensures c !in ['<', '>', '"', '\'', '&'] {
        LettersOnly(i, c);
      }
    }
  }

  lemma LettersOnly(i: nat, c: char)
    requires i < |ENTITIES| && c in ENTITIES[i].body
    ensures c == ';' || 'a' <= c <= 'z'
  {
  }

  lemma NoReferenceAt(s: string, table: seq<Entity>, k: nat)
    requires k <= |table| && s != "" && s[0] != '&'
    ensures Find(s, table, k) == k
  {
    forall j | 0 <= j < k ensures !StartsWith(s, Reference(table[j])) {
      DiffersAt(s, Reference(table[j]), 0);
    }
    FindsFirst(s, table, k, k);
  }

  lemma CopiesChar(c: char, rest: string, table: seq<Entity>, k: nat)
    requires k <= |table| && c != '&'
    ensures DecodeOnce([c] + rest, table, k) == [c] + DecodeOnce(rest, table, k)
  {
    NoReferenceAt([c] + rest, table, k);
    assert ([c] + rest)[1..] == rest;
  }

  /** Text without '&' passes through unchanged. */
  lemma {:induction false} PlainPasses(p: string, s: string, table: seq<Entity>, k: nat)
    requires k <= |table| && NoAmpersand(p)
    ensures DecodeOnce(p + s, table, k) == p + DecodeOnce(s, table, k)
  {
    if p == "" {
      assert p + s == s;
    } else {
      assert p[0] in p && p + s == [p[0]] + (p[1..] + s);
      assert forall c :: c in p[1..] ==> c in p;
      PlainPasses(p[1..], s, table, k);
      CopiesChar(p[0], p[1..] + s, table, k);
      assert [p[0]] + (p[1..] + DecodeOnce(s, table, k)) == p + DecodeOnce(s, table, k);
    }
  }

  /** Plain text that starts the output already started the input. */
  lemma {:induction false} PlainPrefixKept(s: string, p: string, table: seq<Entity>, k: nat)
    requires k <= |table| && NoAmpersand(p) && NotProduced(p, table, k)
    requires StartsWith(DecodeOnce(s, table, k), p)
    ensures StartsWith(s, p)
    decreases |p|
  {
    if p != "" {
      assert p[0] in p && DecodeOnce(s, table, k)[..|p|][0] == p[0];
      assert Find(s, table, k) == k;
      StartsWithCons(s[0], DecodeOnce(s[1..], table, k), p);
      assert forall c :: c in p[1..] ==> c in p;
      PlainPrefixKept(s[1..], p[1..], table, k);
      StartsWithCons(s[0], s[1..], p);
      assert s == [s[0]] + s[1..];
    }
  }

  lemma ReplaceCopies(c: char, rest: string, e: Entity)
    requires c == '&' ==> !StartsWith(rest, e.body)
    ensures Replace([c] + rest, e) == [c] + Replace(rest, e)
  {
    StartsWithCons(c, rest, Reference(e));
    assert ([c] + rest)[1..] == rest;
  }

  lemma ReplaceHead(rest: string, e: Entity)
    ensures Replace(Reference(e) + rest, e) == [e.meaning] + Replace(rest, e)
  {
    var s := Reference(e) + rest;
    assert s[..|Reference(e)|] == Reference(e) && s[|Reference(e)|..] == rest;
  }

  /** Replacing one more entity after a pass is a pass that decodes it too. */
  lemma {:induction false} OneMoreEntity(s: string, table: seq<Entity>, k: nat)
    requires Safe(table) && k < |table|
    ensures Replace(DecodeOnce(s, table, k), table[k]) == DecodeOnce(s, table, k + 1)
  {
    if s != "" {
      var i := Find(s, table, k + 1);
      if i < k {
        assert Find(s, table, k) == i;
        OneMoreEntity(s[|Reference(table[i])|..], table, k);
        ReplaceCopies(table[i].meaning, DecodeOnce(s[|Reference(table[i])|..], table, k), table[k]);
      } else if i == k {
        OneMoreReplaced(s, table, k);
        OneMoreEntity(s[|Reference(table[k])|..], table, k);
      } else {
        OneMoreCopied(s, table, k);
        OneMoreEntity(s[1..], table, k);
      }
    }
  }

  /** A reference that none of the first `k` entities claims passes through unchanged. */
  lemma ReferencePasses(e: Entity, rest: string, table: seq<Entity>, k: nat)
    requires k <= |table| && NoAmpersand(e.body) && Find(Reference(e) + rest, table, k) == k
    ensures DecodeOnce(Reference(e) + rest, table, k) == Reference(e) + DecodeOnce(rest, table, k)
  {
    var s := Reference(e) + rest;
    assert s[1..] == e.body + rest && s[0] == '&';
    PlainPasses(e.body, rest, table, k);
    AmpersandFirst(e, DecodeOnce(rest, table, k));
  }

  lemma AmpersandFirst(e: Entity, rest: string)
    ensures ['&'] + (e.body + rest) == Reference(e) + rest
  {
  }

  lemma OneMoreReplaced(s: string, table: seq<Entity>, k: nat)
    requires Safe(table) && k < |table| && s != "" && Find(s, table, k + 1) == k
    ensures var rest := s[|Reference(table[k])|..];
            Replace(DecodeOnce(s, table, k), table[k])
              == [table[k].meaning] + Replace(DecodeOnce(rest, table, k), table[k])
  {
    var e, rest := table[k], s[|Reference(table[k])|..];
    assert Find(s, table, k) == k;
    assert s == Reference(e) + rest;
    ReferencePasses(e, rest, table, k);
    ReplaceHead(DecodeOnce(rest, table, k), e);
  }

  /** Decoding earlier entities does not complete a reference to this one. */
  lemma NoNewReference(s: string, table: seq<Entity>, k: nat)
    requires Safe(table) && k < |table| && s != "" && !StartsWith(s, Reference(table[k]))
    ensures s[0] == '&' ==> !StartsWith(DecodeOnce(s[1..], table, k), table[k].body)
  {
    assert s == [s[0]] + s[1..];
    StartsWithCons(s[0], s[1..], Reference(table[k]));
    if StartsWith(DecodeOnce(s[1..], table, k), table[k].body) {
      PlainPrefixKept(s[1..], table[k].body, table, k);
    }
  }

  lemma OneMoreCopied(s: string, table: seq<Entity>, k: nat)
    requires Safe(table) && k < |table| && s != "" && Find(s, table, k + 1) == k + 1
    ensures Replace(DecodeOnce(s, table, k), table[k]) == [s[0]] + Replace(DecodeOnce(s[1..], table, k), table[k])
  {
    assert Find(s, table, k) == k;
    NoNewReference(s, table, k);
    ReplaceCopies(s[0], DecodeOnce(s[1..], table, k), table[k]);
  }

  lemma {:induction false} EmptyPass(s: string, table: seq<Entity>)
    ensures DecodeOnce(s, table, 0) == s
  {
    if s != "" { EmptyPass(s[1..], table); }
  }

  lemma {:induction false} ReplaceEachIsOnePass(s: string, table: seq<Entity>, k: nat)
    requires Safe(table) && k <= |table|
    ensures ReplaceEach(s, table, k) == DecodeOnce(s, table, k)
  {
    if k == 0 {
      EmptyPass(s, table);
    } else {
      ReplaceEachIsOnePass(s, table, k - 1);
      OneMoreEntity(s, table, k - 1);
    }
  }

  /** On every string the five replacements equal one left-to-right decode: no replacement
      makes a reference that a later one would decode again. */
  lemma XmlDecodeIsOnePass(s: string)
    ensures XmlDecode(s) == DecodeOnce(s, ENTITIES, |ENTITIES|)
  {
    EntitiesSafe();
    ReplaceEachIsOnePass(s, ENTITIES, |ENTITIES|);
  }

  // ---------------------------------------------------------------- escaping

  /** The entity that `c` must be written as; `|table|` when it may stand for itself. */
  function EntityOf(c: char, table: seq<Entity>): (i: nat)
    ensures i <= |table|
    ensures i < |table| ==> table[i].meaning == c
    ensures i == |table| ==> forall j :: 0 <= j < |table| ==> table[j].meaning != c
  {
    if table == [] || table[0].meaning == c then 0 else 1 + EntityOf(c, table[1..])
  }

  function EscapeChar(c: char, table: seq<Entity>): string {
    var i := EntityOf(c, table);
    if i < |table| then Reference(table[i]) else [c]
  }

  /** Every character that means an entity written as that entity. */
  function Escape(s: string, table: seq<Entity>): string {
    if s == "" then "" else EscapeChar(s[0], table) + Escape(s[1..], table)
  }

  /** `escapeText` of the preview pages, which writes the apostrophe as a number. */
  function EscapeText(s: string): string {
    if s == "" then "" else (if s[0] == '\'' then "&#39;" else EscapeChar(s[0], ENTITIES)) + EscapeText(s[1..])
  }

  ghost predicate Differ(a: string, b: string) {
    exists m :: 0 <= m < |a| && m < |b| && a[m] != b[m]
  }

  /** References can be told apart, and the ampersand itself has one. */
  ghost predicate Readable(table: seq<Entity>) {
    && (forall i, j :: 0 <= i < j < |table| ==> Differ(table[i].body, table[j].body))
    && (exists i :: 0 <= i < |table| && table[i].meaning == '&')
  }

  lemma EntitiesReadable()
    ensures Readable(ENTITIES)
  {
    var bodies := ["lt;", "gt;", "quot;", "apos;", "amp;"];
    assert bodies[0][0] == 'l' && bodies[1][0] == 'g' && bodies[2][0] == 'q' && bodies[3][0] == 'a'
      && bodies[4][0] == 'a';
    assert bodies[3][1] == 'p' && bodies[4][1] == 'm';
    assert forall i :: 0 <= i < 5 ==> ENTITIES[i].body == bodies[i];
    assert ENTITIES[4].meaning == '&';
  }

  lemma FindsReference(table: seq<Entity>, i: nat, rest: string)
    requires Readable(table) && i < |table|
    ensures Find(Reference(table[i]) + rest, table, |table|) == i
  {
    var s := Reference(table[i]) + rest;
    assert s[..|Reference(table[i])|] == Reference(table[i]);
    forall j | 0 <= j < i ensures !StartsWith(s, Reference(table[j])) {
      var m :| 0 <= m < |table[j].body| && m < |table[i].body| && table[j].body[m] != table[i].body[m];
      assert Reference(table[j])[m + 1] == table[j].body[m] && s[m + 1] == table[i].body[m];
      DiffersAt(s, Reference(table[j]), m + 1);
    }
    FindsFirst(s, table, |table|, i);
  }

  lemma DecodesChar(c: char, rest: string, table: seq<Entity>)
    requires Readable(table)
    ensures DecodeOnce(EscapeChar(c, table) + rest, table, |table|) == [c] + DecodeOnce(rest, table, |table|)
  {
    var i := EntityOf(c, table);
    if i < |table| {
      FindsReference(table, i, rest);
      assert (Reference(table[i]) + rest)[|Reference(table[i])|..] == rest;
    } else {
      CopiesChar(c, rest, table, |table|);
    }
  }

  lemma {:induction false} DecodesEscape(s: string, table: seq<Entity>)
    requires Readable(table)
    ensures DecodeOnce(Escape(s, table), table, |table|) == s
  {
    if s != "" {
      DecodesEscape(s[1..], table);
      DecodesOneMore(s[0], s[1..], Escape(s[1..], table), table);
      assert [s[0]] + s[1..] == s;
    }
  }

  lemma DecodesOneMore(c: char, tail: string, rest: string, table: seq<Entity>)
    requires Readable(table) && DecodeOnce(rest, table, |table|) == tail
    ensures DecodeOnce(EscapeChar(c, table) + rest, table, |table|) == [c] + tail
  {
    DecodesChar(c, rest, table);
  }

  /** Decoding undoes the escaping of every string. */
  lemma DecodeUndoesEscape(s: string)
    ensures XmlDecode(Escape(s, ENTITIES)) == s
  {
    XmlDecodeIsOnePass(Escape(s, ENTITIES));
    EntitiesReadable();
    DecodesEscape(s, ENTITIES);
  }

  ghost function SpellApostrophes(s: string): (r: string)
    ensures |r| >= |s|
    ensures r == s <==> '\'' !in s
  {
    if s == "" then ""
    else
      assert s == [s[0]] + s[1..];
      (if s[0] == '\'' then "&#39;" else [s[0]]) + SpellApostrophes(s[1..])
  }

  lemma NumberIsNoReference(rest: string)
    ensures Find("&#39;" + rest, ENTITIES, |ENTITIES|) == |ENTITIES|
  {
    var text := "&#39;" + rest;
    assert text[1] == '#';
    forall j | 0 <= j < |ENTITIES| ensures !StartsWith(text, Reference(ENTITIES[j])) {
      EntityStarts(j);
      DiffersAt(text, Reference(ENTITIES[j]), 1);
    }
    FindsFirst(text, ENTITIES, |ENTITIES|, |ENTITIES|);
  }

  lemma EntityStarts(j: nat)
    requires j < |ENTITIES|
    ensures |Reference(ENTITIES[j])| > 1 && Reference(ENTITIES[j])[1] != '#'
  {
  }

  lemma KeepsNumber(rest: string, table: seq<Entity>)
    requires Find("&#39;" + rest, table, |table|) == |table|
    ensures DecodeOnce("&#39;" + rest, table, |table|) == "&#39;" + DecodeOnce(rest, table, |table|)
  {
    var text, tail := "&#39;" + rest, "#39;";
    assert text[1..] == tail + rest && text[0] == '&';
    PlainPasses(tail, rest, table, |table|);
    assert ['&'] + (tail + DecodeOnce(rest, table, |table|)) == "&#39;" + DecodeOnce(rest, table, |table|);
  }

  lemma {:induction false} DecodesEscapeText(s: string)
    ensures DecodeOnce(EscapeText(s), ENTITIES, |ENTITIES|) == SpellApostrophes(s)
  {
    if s != "" {
      DecodesEscapeText(s[1..]);
      if s[0] == '\'' {
        NumberIsNoReference(EscapeText(s[1..]));
        KeepsNumber(EscapeText(s[1..]), ENTITIES);
      } else {
        EntitiesReadable();
        DecodesChar(s[0], EscapeText(s[1..]), ENTITIES);
      }
    }
  }

  /** Text escaped by the preview pages survives workbook decoding exactly when it has no
      apostrophe. */
  lemma DecodeUndoesEscapeText(s: string)
    ensures XmlDecode(EscapeText(s)) == s <==> '\'' !in s
  {
    XmlDecodeIsOnePass(EscapeText(s));
    DecodesEscapeText(s);
  }

  // ------------------------------------------------- the five references

  lemma ReferencesSpelled()
    ensures |ENTITIES| == 5
    ensures Reference(ENTITIES[0]) == "&lt;" && ENTITIES[0].meaning == '<'
    ensures Reference(ENTITIES[1]) == "&gt;" && ENTITIES[1].meaning == '>'
    ensures Reference(ENTITIES[2]) == "&quot;" && ENTITIES[2].meaning == '\"'
    ensures Reference(ENTITIES[3]) == "&apos;" && ENTITIES[3].meaning == '\''
    ensures Reference(ENTITIES[4]) == "&amp;" && ENTITIES[4].meaning == '&'
  {
  }

  lemma DecodesReference(i: nat, rest: string)
    requires i < |ENTITIES|
    ensures XmlDecode(Reference(ENTITIES[i]) + rest) == [ENTITIES[i].meaning] + XmlDecode(rest)
  {
    var s := Reference(ENTITIES[i]) + rest;
    XmlDecodeIsOnePass(s);
    XmlDecodeIsOnePass(rest);
    EntitiesReadable();
    FindsReference(ENTITIES, i, rest);
    assert s[|Reference(ENTITIES[i])|..] == rest;
  }

  /** What decoding does with each of the five references of section 4.6 of XML 1.0. */
  lemma FiveReferences(rest: string)
    ensures XmlDecode("&lt;" + rest) == "<" + XmlDecode(rest)
    ensures XmlDecode("&gt;" + rest) == ">" + XmlDecode(rest)
    ensures XmlDecode("&quot;" + rest) == "\"" + XmlDecode(rest)
    ensures XmlDecode("&apos;" + rest) == "'" + XmlDecode(rest)
    ensures XmlDecode("&amp;" + rest) == "&" + XmlDecode(rest)
  {
    ReferencesSpelled();
    DecodesReference(0, rest);
    DecodesReference(1, rest);
    DecodesReference(2, rest);
    DecodesReference(3, rest);
    DecodesReference(4, rest);
  }

  /** Everything else is copied, character by character. */
  lemma OtherTextStays(c: char, rest: string)
    requires c != '&' || !(StartsWith(rest, "lt;") || StartsWith(rest, "gt;") || StartsWith(rest, "quot;")
                           || StartsWith(rest, "apos;") || StartsWith(rest, "amp;"))
    ensures XmlDecode("") == ""
    ensures XmlDecode([c] + rest) == [c] + XmlDecode(rest)
  {
    var s := [c] + rest;
    ReferencesSpelled();
    XmlDecodeIsOnePass("");
    XmlDecodeIsOnePass(s);
    XmlDecodeIsOnePass(rest);
    forall i | 0 <= i < |ENTITIES| ensures !StartsWith(s, Reference(ENTITIES[i])) {
      StartsWithCons(c, rest, Reference(ENTITIES[i]));
    }
    FindsFirst(s, ENTITIES, |ENTITIES|, |ENTITIES|);
    assert s[1..] == rest;
  }
}
