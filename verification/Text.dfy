/** White space as the payroll crate's text helpers see it. */
module Text {

  /** Unicode white space, as `str::trim` removes it. */
  predicate IsWhite(c: char) {
    || c == ' ' || '\t' <= c <= '\r' || c == '\U{0085}' || c == '\U{00a0}' || c == '\U{1680}'
    || '\U{2000}' <= c <= '\U{200a}'
    || c == '\U{2028}' || c == '\U{2029}' || c == '\U{202f}' || c == '\U{205f}' || c == '\U{3000}'
  }

  function Trim(s: string): (t: string)
    ensures t != "" ==> !IsWhite(t[0]) && !IsWhite(t[|t|-1])
  {
    if s == "" then ""
    else if IsWhite(s[0]) then Trim(s[1..])
    else if IsWhite(s[|s|-1]) then Trim(s[..|s|-1])
    else s
  }

  lemma {:induction false} TrimIdempotent(s: string)
    ensures Trim(Trim(s)) == Trim(s)
  {
    if s != "" && IsWhite(s[0]) {
      TrimIdempotent(s[1..]);
    } else if s != "" && IsWhite(s[|s|-1]) {
      TrimIdempotent(s[..|s|-1]);
    }
  }

  /** The text without its white space, inside included. */
  function Strip(s: string): (t: string)
    ensures forall i :: 0 <= i < |t| ==> !IsWhite(t[i])
  {
    if s == "" then ""
    else if IsWhite(s[0]) then Strip(s[1..])
    else [s[0]] + Strip(s[1..])
  }

  /** The byte order of UTF-8 text, which is the order of its code points. */
  predicate Below(a: string, b: string) {
    b != "" && (a == "" || a[0] < b[0] || (a[0] == b[0] && Below(a[1..], b[1..])))
  }

  lemma {:induction false} BelowIrreflexive(a: string)
    ensures !Below(a, a)
  {
    if a != "" { BelowIrreflexive(a[1..]); }
  }

  lemma {:induction false} BelowTransitive(a: string, b: string, c: string)
    requires Below(a, b) && Below(b, c)
    ensures Below(a, c)
  {
    if a != "" && a[0] == b[0] && b[0] == c[0] { BelowTransitive(a[1..], b[1..], c[1..]); }
  }

  lemma {:induction false} BelowTotal(a: string, b: string)
    ensures Below(a, b) || Below(b, a) || a == b
  {
    if a != "" && b != "" && a[0] == b[0] {
      BelowTotal(a[1..], b[1..]);
      assert a == [a[0]] + a[1..] && b == [b[0]] + b[1..];
    }
  }

  /** White space by code point. */
  lemma WhiteCodes(c: char)
    ensures IsWhite(c) <==>
              || 9 <= c as int <= 13 || c as int == 32 || c as int == 133 || c as int == 160 || c as int == 0x1680
              || 0x2000 <= c as int <= 0x200a || c as int == 0x2028 || c as int == 0x2029 || c as int == 0x202f
              || c as int == 0x205f || c as int == 0x3000
  {
  }

  /** The first place where two texts differ, and the smaller character of the first one there. */
  ghost predicate SmallerAt(a: string, b: string, i: nat) {
    i < |a| && i < |b| && a[..i] == b[..i] && (a[i] as int) < b[i] as int
  }

  /** One text comes before another if it is a proper beginning of it, or has the smaller code
      point where they first differ. */
  lemma {:induction false} BelowIff(a: string, b: string)
    ensures Below(a, b) <==> (|a| < |b| && b[..|a|] == a) || exists i: nat :: SmallerAt(a, b, i)
  {
    if a != "" && b != "" {
      assert a == [a[0]] + a[1..] && b == [b[0]] + b[1..];
      BelowIff(a[1..], b[1..]);
      BeginsAlike(a, b);
      if a[0] == b[0] {
        forall i: nat ensures SmallerAt(a, b, i + 1) <==> SmallerAt(a[1..], b[1..], i) { SmallerNext(a, b, i); }
        if i: nat :| SmallerAt(a, b, i) { assert SmallerAt(a[1..], b[1..], i - 1); }
        if i: nat :| SmallerAt(a[1..], b[1..], i) { assert SmallerAt(a, b, i + 1); }
      } else {
        assert SmallerAt(a, b, 0) <==> a[0] < b[0];
      }
    }
  }

  lemma SmallerNext(a: string, b: string, i: nat)
    requires a != "" && b != "" && a[0] == b[0]
    ensures SmallerAt(a, b, i + 1) <==> SmallerAt(a[1..], b[1..], i)
  {
    if i + 1 <= |a| && i + 1 <= |b| {
      assert a[..i+1] == [a[0]] + a[1..][..i] && b[..i+1] == [b[0]] + b[1..][..i];
    }
  }

  lemma BeginsAlike(a: string, b: string)
    requires a != "" && b != ""
    ensures |a| < |b| && b[..|a|] == a <==> |a| < |b| && a[0] == b[0] && b[1..][..|a|-1] == a[1..]
  {
    assert a == [a[0]] + a[1..];
    if |a| < |b| { assert b[..|a|] == [b[0]] + b[1..][..|a|-1]; }
  }

  predicate AllWhite(s: string) {
    forall i :: 0 <= i < |s| ==> IsWhite(s[i])
  }

  /** Trimming takes away white space only, and only at the two ends. */
  lemma {:induction false} TrimParts(s: string) returns (before: string, after: string)
    ensures AllWhite(before) && AllWhite(after) && s == before + Trim(s) + after
  {
    if s != "" && IsWhite(s[0]) {
      var b, a := TrimParts(s[1..]);
      before, after := [s[0]] + b, a;
      Rejoined([s[0]], b, Trim(s[1..]), a, "");
    } else if s != "" && IsWhite(s[|s|-1]) {
      var b, a := TrimParts(s[..|s|-1]);
      before, after := b, a + [s[|s|-1]];
      Rejoined("", b, Trim(s[..|s|-1]), a, [s[|s|-1]]);
    } else {
      before, after := "", "";
    }
  }

  lemma Rejoined(x: string, b: string, t: string, a: string, y: string)
    ensures x + (b + t + a) + y == (x + b) + t + (a + y)
  {
  }
}
