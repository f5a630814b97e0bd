/** JSON documents as a streaming parser sees them, members in order and repetitions included,
    and the guard that refuses repeated keys. */
module JsonDocument {
  import opened Options

  datatype Json =
    Null | Bool(b: bool) | Number(n: real) | Str(s: string) | Arr(items: seq<Json>) | Obj(members: seq<Member>)

  datatype Member = Member(key: string, value: Json)

  ghost predicate DistinctKeys(members: seq<Member>) {
    forall i, j :: 0 <= i < j < |members| ==> members[i].key != members[j].key
  }

  /** No object at any depth repeats a key (RFC 8259 section 4). */
  ghost predicate NoRepeatedKey(j: Json) {
    match j
    case Arr(items) => forall i :: 0 <= i < |items| ==> NoRepeatedKey(items[i])
    case Obj(members) => DistinctKeys(members) && forall i :: 0 <= i < |members| ==> NoRepeatedKey(members[i].value)
    case _ => true
  }

  /** Some object of `j` has `key` twice. */
  ghost predicate Repeats(j: Json, key: string) {
    match j
    case Arr(items) => exists i :: 0 <= i < |items| && Repeats(items[i], key)
    case Obj(members) =>
      || (exists i, k :: 0 <= i < k < |members| && members[i].key == key == members[k].key)
      || (exists i :: 0 <= i < |members| && Repeats(members[i].value, key))
    case _ => false
  }

  lemma {:induction false} RepeatedKeyRepeats(j: Json, key: string)
    requires Repeats(j, key)
    ensures !NoRepeatedKey(j)
  {
    match j
    case Arr(items) =>
      var i :| 0 <= i < |items| && Repeats(items[i], key);
      RepeatedKeyRepeats(items[i], key);
    case Obj(members) =>
      if i :| 0 <= i < |members| && Repeats(members[i].value, key) {
        RepeatedKeyRepeats(members[i].value, key);
      }
    case _ =>
  }

  /** `DuplicateKeyGuard`: the first repeated key met, if any. */
  method Guard(j: Json) returns (repeated: Option<string>)
    ensures repeated.None? <==> NoRepeatedKey(j)
    ensures repeated.Some? ==> Repeats(j, repeated.value)
  {
    match j {
      case Arr(items) =>
        for i := 0 to |items|
          invariant forall k :: 0 <= k < i ==> NoRepeatedKey(items[k])
        {
          repeated := Guard(items[i]);
          if repeated.Some? {
            return;
          }
        }
      case Obj(members) =>
        var seen: set<string> := {};
        for i := 0 to |members|
          invariant forall key :: key in seen <==> exists k :: 0 <= k < i && members[k].key == key
          invariant forall k, l :: 0 <= k < l < i ==> members[k].key != members[l].key
          invariant forall k :: 0 <= k < i ==> NoRepeatedKey(members[k].value)
        {
          if members[i].key in seen {
            RepeatedKeyRepeats(j, members[i].key);
            return Some(members[i].key);
          }
          seen := seen + {members[i].key};
          repeated := Guard(members[i].value);
          if repeated.Some? {
            return;
          }
        }
      case _ =>
    }
    return None;
  }

  // ------------------------------------------------------- last-wins parsing

  /** Of members with equal keys, only the last. */
  function LastOnly(members: seq<Member>): (r: seq<Member>)
    ensures |r| <= |members|
  {
    if members == [] then []
    else if exists k :: 1 <= k < |members| && members[k].key == members[0].key then LastOnly(members[1..])
    else [members[0]] + LastOnly(members[1..])
  }

  function CollapseItems(items: seq<Json>): (r: seq<Json>)
    ensures |r| == |items|
  {
    if items == [] then [] else [Collapse(items[0])] + CollapseItems(items[1..])
  }

  function CollapseMembers(members: seq<Member>): (r: seq<Member>)
    ensures |r| == |members|
    ensures forall i :: 0 <= i < |members| ==> r[i].key == members[i].key
  {
    if members == [] then []
    else [Member(members[0].key, Collapse(members[0].value))] + CollapseMembers(members[1..])
  }

  /** What `serde_json::Value` keeps of a document. */
  function Collapse(j: Json): Json {
    match j
    case Arr(items) => Arr(CollapseItems(items))
    case Obj(members) => Obj(LastOnly(CollapseMembers(members)))
    case _ => j
  }

  lemma {:induction false} LastOnlyKeepsAll(members: seq<Member>)
    ensures |LastOnly(members)| == |members| <==> DistinctKeys(members)
    ensures DistinctKeys(members) ==> LastOnly(members) == members
  {
    if members != [] {
      LastOnlyKeepsAll(members[1..]);
      assert members == [members[0]] + members[1..];
      if exists k :: 1 <= k < |members| && members[k].key == members[0].key {
      } else if DistinctKeys(members[1..]) {
        forall i, k | 0 <= i < k < |members| ensures members[i].key != members[k].key {
          if i > 0 { assert members[1..][i-1].key != members[1..][k-1].key; }
        }
      }
    }
  }

  lemma {:induction false} CollapseItemsKeepsAll(items: seq<Json>)
    ensures CollapseItems(items) == items <==> forall i :: 0 <= i < |items| ==> NoRepeatedKey(items[i])
  {
    if items != [] {
      CollapseKeepsAll(items[0]);
      CollapseItemsKeepsAll(items[1..]);
      assert items == [items[0]] + items[1..];
      assert CollapseItems(items)[1..] == CollapseItems(items[1..]);
      assert forall i :: 0 < i < |items| ==> items[i] == items[1..][i-1];
      assert forall i :: 0 <= i < |items[1..]| ==> items[1..][i] == items[i+1];
    }
  }

  lemma {:induction false} CollapseMembersKeepsAll(members: seq<Member>)
    ensures CollapseMembers(members) == members <==> forall i :: 0 <= i < |members| ==> NoRepeatedKey(members[i].value)
  {
    if members != [] {
      CollapseKeepsAll(members[0].value);
      CollapseMembersKeepsAll(members[1..]);
      assert members == [members[0]] + members[1..];
      assert CollapseMembers(members)[1..] == CollapseMembers(members[1..]);
      assert forall i :: 0 < i < |members| ==> members[i] == members[1..][i-1];
      assert forall i :: 0 <= i < |members[1..]| ==> members[1..][i] == members[i+1];
    }
  }

  /** The guard accepts exactly the documents of which last-wins parsing loses nothing. */
  lemma {:induction false} CollapseKeepsAll(j: Json)
    ensures Collapse(j) == j <==> NoRepeatedKey(j)
  {
    match j
    case Arr(items) => CollapseItemsKeepsAll(items);
    case Obj(members) =>
      CollapseMembersKeepsAll(members);
      LastOnlyKeepsAll(CollapseMembers(members));
      LastOnlyKeepsAll(members);
    case _ =>
  }

  /** The member is the last one with its key. */
  ghost predicate IsLast(members: seq<Member>, i: nat)
    requires i < |members|
  {
    forall k :: i < k < |members| ==> members[k].key != members[i].key
  }

  /** Of an object with repeated keys exactly the last member of each key is kept. */
  lemma {:induction false} LastWins(members: seq<Member>, m: Member)
    ensures m in LastOnly(members) <==> exists i :: 0 <= i < |members| && members[i] == m && IsLast(members, i)
  {
    if members != [] {
      var rest := members[1..];
      LastWins(rest, m);
      forall i | 0 <= i < |rest| ensures IsLast(members, i + 1) <==> IsLast(rest, i) {
        LastInRest(members, i);
      }
      if i :| 0 <= i < |rest| && rest[i] == m && IsLast(rest, i) { assert members[i+1] == m && IsLast(members, i + 1); }
      if i :| 0 <= i < |members| && members[i] == m && IsLast(members, i) {
        if i > 0 { assert rest[i-1] == m && IsLast(rest, i - 1); }
      }
    }
  }

  lemma LastInRest(members: seq<Member>, i: nat)
    requires i + 1 < |members|
    ensures IsLast(members, i + 1) <==> IsLast(members[1..], i)
  {
    var rest := members[1..];
    assert forall k :: 0 <= k < |rest| ==> rest[k] == members[k+1];
    if IsLast(rest, i) {
      forall k | i + 1 < k < |members| ensures members[k].key != members[i+1].key { assert rest[k-1] == members[k]; }
    }
  }
}
