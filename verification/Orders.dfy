/** Sequences in strict order. */
module Orders {

  ghost predicate InStrictOrder<T(!new)>(s: seq<T>, before: (T, T) -> bool) {
    forall i, j :: 0 <= i < j < |s| ==> before(s[i], s[j])
  }

  /** Nothing in `s` comes before itself, and no two elements before one another. */
  ghost predicate OneWay<T(!new)>(s: seq<T>, before: (T, T) -> bool) {
    forall x, y :: x in s && y in s && before(x, y) ==> !before(y, x)
  }

  /** Two sequences of the same elements in the same strict order are the same sequence. */
  lemma {:induction false} OrderUnique<T(!new)>(s: seq<T>, t: seq<T>, before: (T, T) -> bool)
    requires InStrictOrder(s, before) && InStrictOrder(t, before) && OneWay(s, before)
    requires forall x :: x in s <==> x in t
    ensures s == t
  {
    if s == [] {
      assert forall i :: 0 <= i < |t| ==> t[i] in t;
    } else {
      assert s[0] in t && t[0] in s;
      assert s[0] == t[0];
      NotAgain(s, before);
      NotAgain(t, before);
      OrderUnique(s[1..], t[1..], before);
      assert s == [s[0]] + s[1..] && t == [t[0]] + t[1..];
    }
  }

  lemma NotAgain<T(!new)>(s: seq<T>, before: (T, T) -> bool)
    requires s != [] && InStrictOrder(s, before) && OneWay(s, before)
    ensures forall x :: x in s[1..] <==> x in s && x != s[0]
    ensures InStrictOrder(s[1..], before) && OneWay(s[1..], before)
  {
    assert s == [s[0]] + s[1..];
    forall x | x in s[1..] ensures x in s && x != s[0] {
      var i :| 1 <= i < |s| && s[i] == x;
      assert before(s[0], s[i]);
    }
  }
}
