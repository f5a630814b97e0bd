/** Unpadded base64url as the session verifier reads it (RFC 4648 sections 3.2, 3.5 and 5). */
module Base64Url {
  import opened Options

  type byte = b: int | 0 <= b < 256
  type sextet = v: int | 0 <= v < 64

  const UPPER: string := "ABCDEFGHIJKLMNOPQRSTUVWXYZ"
  const LOWER: string := "abcdefghijklmnopqrstuvwxyz"
  const DIGITS: string := "0123456789"
  const TABLE: string := UPPER + LOWER + DIGITS + "-_"

  const WORD := 0x1_0000_0000

  // --------------------------------------------------------------- alphabet

  predicate InAlphabet(c: char) {
    'A' <= c <= 'Z' || 'a' <= c <= 'z' || '0' <= c <= '9' || c == '-' || c == '_'
  }

  function SextetOf(c: char): sextet
    requires InAlphabet(c)
  {
    if 'A' <= c <= 'Z' then c as int - 'A' as int
    else if 'a' <= c <= 'z' then c as int - 'a' as int + 26
    else if '0' <= c <= '9' then c as int - '0' as int + 52
    else if c == '-' then 62
    else 63
  }

  lemma UpperAt(v: nat)
    ensures |UPPER| == 26 && (v < 26 ==> UPPER[v] as int == 'A' as int + v)
  {
    var text := "ABCDEFGHIJKLMNOPQRSTUVWXYZ";
    assert UPPER == text;
  }

  lemma LowerAt(v: nat)
    ensures |LOWER| == 26 && (v < 26 ==> LOWER[v] as int == 'a' as int + v)
  {
    var text := "abcdefghijklmnopqrstuvwxyz";
    assert LOWER == text;
  }

  lemma DigitAt(v: nat)
    ensures |DIGITS| == 10 && (v < 10 ==> DIGITS[v] as int == '0' as int + v)
  {
    var text := "0123456789";
    assert DIGITS == text;
  }

  lemma TableRanges(v: sextet)
    ensures |TABLE| == 64
    ensures v < 26 ==> TABLE[v] as int == 'A' as int + v
    ensures 26 <= v < 52 ==> TABLE[v] as int == 'a' as int + v - 26
    ensures 52 <= v < 62 ==> TABLE[v] as int == '0' as int + v - 52
    ensures v == 62 ==> TABLE[v] == '-'
    ensures v == 63 ==> TABLE[v] == '_'
  {
    UpperAt(v);
    LowerAt(if v < 26 then 0 else v - 26);
    DigitAt(if v < 52 then 0 else v - 52);
  }

  function TableChar(v: sextet): (c: char)
    ensures InAlphabet(c) && SextetOf(c) == v
  {
    TableRanges(v);
    TABLE[v]
  }

  lemma SextetInverse(c: char)
    requires InAlphabet(c)
    ensures TableChar(SextetOf(c)) == c
  {
    var d := TableChar(SextetOf(c));
  }

  ghost predicate AllInAlphabet(s: string) {
    forall c :: c in s ==> InAlphabet(c)
  }

  ghost function SextetsOf(s: string): (r: seq<sextet>)
    requires AllInAlphabet(s)
    ensures |r| == |s| && forall i :: 0 <= i < |s| ==> r[i] == SextetOf(s[i])
  {
    seq(|s|, i requires 0 <= i < |s| => SextetOf(s[i]))
  }

  ghost function CharsOf(x: seq<sextet>): (s: string)
    ensures |s| == |x| && AllInAlphabet(s) && SextetsOf(s) == x
  {
    seq(|x|, i requires 0 <= i < |x| => TableChar(x[i]))
  }

  lemma CharsUnique(s: string, t: string)
    requires AllInAlphabet(s) && AllInAlphabet(t) && SextetsOf(s) == SextetsOf(t)
    ensures s == t
  {
    forall i | 0 <= i < |s| ensures s[i] == t[i] {
      assert SextetsOf(s)[i] == SextetsOf(t)[i];
      SextetInverse(s[i]);
      SextetInverse(t[i]);
    }
  }

  // ---------------------------------------------- bit streams as big numbers

  function Pow2(n: nat): (p: nat)
    ensures p > 0
  {
    if n == 0 then 1 else 2 * Pow2(n - 1)
  }

  /** The number whose base-256 digits are `b`, most significant first. */
  ghost function Value256(b: seq<byte>): nat {
    if b == [] then 0 else Value256(b[..|b|-1]) * 256 + b[|b|-1]
  }

  ghost function Value64(x: seq<sextet>): nat {
    if x == [] then 0 else Value64(x[..|x|-1]) * 64 + x[|x|-1]
  }

  /** The last `n` base-256 digits of `v`, most significant first. */
  ghost function Digits256(v: nat, n: nat): (b: seq<byte>)
    ensures |b| == n
  {
    if n == 0 then [] else Digits256(v / 256, n - 1) + [v % 256]
  }

  ghost function Digits64(v: nat, n: nat): (x: seq<sextet>)
    ensures |x| == n
  {
    if n == 0 then [] else Digits64(v / 64, n - 1) + [v % 64]
  }

  lemma DivMod(a: int, d: nat, q: int, r: nat)
    requires r < d && a == d * q + r
    ensures a / d == q && a % d == r
  {
    Multiple(d, a / d - q);
  }

  lemma Multiple(d: int, k: int)
    requires -d < d * k < d
    ensures k == 0
  {
    if k > 0 {
      Stretch(d, k);
    } else if k < 0 {
      Stretch(d, -k);
    }
  }

  lemma Stretch(d: int, k: int)
    requires d > 0 && k >= 1
    ensures d * k >= d
  {
  }

  lemma {:induction false} DigitsOfValue256(b: seq<byte>)
    ensures Digits256(Value256(b), |b|) == b
  {
    if b != [] {
      var init, last := b[..|b|-1], b[|b|-1];
      DigitsOfValue256(init);
      DivMod(Value256(b), 256, Value256(init), last);
      assert b == init + [last];
    }
  }

  lemma {:induction false} DigitsOfValue64(x: seq<sextet>)
    ensures Digits64(Value64(x), |x|) == x
  {
    if x != [] {
      var init, last := x[..|x|-1], x[|x|-1];
      DigitsOfValue64(init);
      DivMod(Value64(x), 64, Value64(init), last);
      assert x == init + [last];
    }
  }

  lemma {:induction false} ValueOfDigits64(v: nat, n: nat)
    requires v < Pow2(6 * n)
    ensures Value64(Digits64(v, n)) == v
  {
    if n > 0 {
      PowSum(6, 6 * n - 6);
      assert Pow2(6) == 64;
      ValueOfDigits64(v / 64, n - 1);
      var x := Digits64(v, n);
      assert x[..|x|-1] == Digits64(v / 64, n - 1);
    }
  }

  lemma {:induction false} ValueOfDigits256(v: nat, n: nat)
    requires v < Pow2(8 * n)
    ensures Value256(Digits256(v, n)) == v
  {
    if n > 0 {
      PowSum(8, 8 * n - 8);
      assert Pow2(8) == 256;
      ValueOfDigits256(v / 256, n - 1);
      var b := Digits256(v, n);
      assert b[..|b|-1] == Digits256(v / 256, n - 1);
    }
  }

  lemma {:induction false} ValueBound64(x: seq<sextet>)
    ensures Value64(x) < Pow2(6 * |x|)
  {
    if x != [] {
      ValueBound64(x[..|x|-1]);
      PowSum(6, 6 * |x| - 6);
      assert Pow2(6) == 64;
    }
  }

  lemma {:induction false} ValueBound256(b: seq<byte>)
    ensures Value256(b) < Pow2(8 * |b|)
  {
    if b != [] {
      ValueBound256(b[..|b|-1]);
      PowSum(8, 8 * |b| - 8);
      assert Pow2(8) == 256;
    }
  }

  // ------------------------------------------------------------ what they do

  /** The bits of the text left over after its last whole byte. */
  ghost function LeftOver(n: nat): nat {
    6 * n % 8
  }

  /** The text read as one bit stream: its whole bytes, provided the left-over bits are zero. */
  ghost function DecodeText(s: string): Option<seq<byte>> {
    if !AllInAlphabet(s) then None
    else
      var v, unit := Value64(SextetsOf(s)), Pow2(LeftOver(|s|));
      if v % unit != 0 then None else Some(Digits256(v / unit, 6 * |s| / 8))
  }

  /** The fewest sextets that hold `n` bytes. */
  ghost function SextetCount(n: nat): nat {
    (8 * n + 5) / 6
  }

  /** The zero bits that fill up the last of them. */
  ghost function Padding(n: nat): nat {
    6 * SextetCount(n) - 8 * n
  }

  /** The bytes as one bit stream with its padding, as a number. */
  ghost function PaddedValue(b: seq<byte>): nat {
    Value256(b) * Pow2(Padding(|b|))
  }

  /** The bytes read as one bit stream, filled up with zero bits and cut into sextets. */
  ghost function EncodeBytes(b: seq<byte>): string {
    CharsOf(Digits64(PaddedValue(b), SextetCount(|b|)))
  }

  // ------------------------------------------------------------- the decoder

  /** What the decoder holds after the sextets `x`: whole bytes in `output`, and the `bits`
      bits after them at the low end of a 32-bit word that has been shifted in place. */
  ghost predicate Holds(x: seq<sextet>, output: seq<byte>, buffer: int, bits: nat) {
    && 0 <= buffer < WORD
    && 6 * |x| == 8 * |output| + bits
    && Value64(x) == Value256(output) * Pow2(bits) + buffer % Pow2(bits)
  }

  /** Bits shifted out of the word have already been written out. */
  lemma ShiftIn(x: seq<sextet>, output: seq<byte>, buffer: int, bits: nat, v: sextet)
    requires Holds(x, output, buffer, bits) && bits < 8
    ensures Holds(x + [v], output, buffer * 64 % WORD + v, bits + 6)
  {
    assert (x + [v])[..|x|] == x;
    assert bits == 0 || bits == 2 || bits == 4 || bits == 6;
    PowSum(bits, 6);
    SmallPowers();
    ShiftedWord(buffer, bits, v);
  }

  lemma ShiftedWord(buffer: int, bits: nat, v: sextet)
    requires 0 <= buffer < WORD && (bits == 0 || bits == 2 || bits == 4 || bits == 6)
    ensures 0 <= buffer * 64 % WORD + v < WORD
    ensures (buffer * 64 % WORD + v) % (Pow2(bits) * 64) == buffer % Pow2(bits) * 64 + v
  {
    SmallPowers();
    var word := WrappedWord(buffer);
    Remainders(word, v);
  }

  /** The word that keeps its place when the top six bits are shifted out. */
  lemma WrappedWord(buffer: nat) returns (word: nat)
    ensures buffer * 64 % WORD == 64 * word && word < WORD / 64
    ensures word % 4 == buffer % 4 && word % 16 == buffer % 16 && word % 64 == buffer % 64
  {
    word := buffer % 67108864;
    var q := buffer / 67108864;
    DivMod(buffer * 64, WORD, q, 64 * word);
    DivMod(buffer, 4, q * 16777216 + word / 4, word % 4);
    DivMod(buffer, 16, q * 4194304 + word / 16, word % 16);
    DivMod(buffer, 64, q * 1048576 + word / 64, word % 64);
  }

  lemma Remainders(word: nat, v: sextet)
    ensures (64 * word + v) % 64 == v
    ensures (64 * word + v) % 256 == word % 4 * 64 + v
    ensures (64 * word + v) % 1024 == word % 16 * 64 + v
    ensures (64 * word + v) % 4096 == word % 64 * 64 + v
  {
    DivMod(64 * word + v, 64, word, v);
    DivMod(64 * word + v, 256, word / 4, word % 4 * 64 + v);
    DivMod(64 * word + v, 1024, word / 16, word % 16 * 64 + v);
    DivMod(64 * word + v, 4096, word / 64, word % 64 * 64 + v);
  }

  lemma TakeByte(x: seq<sextet>, output: seq<byte>, buffer: int, bits: nat)
    requires Holds(x, output, buffer, bits) && 8 <= bits < 14
    ensures Holds(x, output + [buffer / Pow2(bits - 8) % 256], buffer, bits - 8)
  {
    var b: byte := buffer / Pow2(bits - 8) % 256;
    assert (output + [b])[..|output|] == output;
    assert bits == 8 || bits == 10 || bits == 12;
    PowSum(8, bits - 8);
    assert Pow2(8) == 256;
    SmallPowers();
    HighByte(buffer, Pow2(bits - 8));
    ScaleByte(Value256(output), Pow2(bits - 8), b);
  }

  lemma HighByte(buffer: nat, low: nat)
    requires low == 1 || low == 4 || low == 16
    ensures buffer % (256 * low) == buffer / low % 256 * low + buffer % low
  {
    var high := buffer / low;
    DivMod(buffer, 256 * low, high / 256, high % 256 * low + buffer % low);
  }

  lemma ScaleByte(v: nat, low: nat, b: byte)
    ensures v * (256 * low) + b * low == (v * 256 + b) * low
  {
  }

  lemma NextChar(input: string, k: nat)
    requires k < |input| && AllInAlphabet(input[..k])
    ensures InAlphabet(input[k]) <==> AllInAlphabet(input[..k+1])
    ensures InAlphabet(input[k]) ==> SextetsOf(input[..k+1]) == SextetsOf(input[..k]) + [SextetOf(input[k])]
  {
    assert input[..k+1] == input[..k] + [input[k]];
    assert input[k] in input[..k+1];
  }

  lemma AllRead(input: string, output: seq<byte>, buffer: int, bits: nat)
    requires AllInAlphabet(input) && Holds(SextetsOf(input), output, buffer, bits) && bits < 8
    ensures DecodeText(input) == if bits > 0 && buffer % Pow2(bits) != 0 then None else Some(output)
  {
    assert bits == LeftOver(|input|) && |output| == 6 * |input| / 8;
    SplitLeftOver(|input|, Value256(output), buffer % Pow2(bits));
    DigitsOfValue256(output);
  }

  /** Shifts one more sextet in and writes out the bytes that are whole. */
  method Feed(ghost x: seq<sextet>, output: seq<byte>, buffer: int, bits: nat, value: sextet)
    returns (newOutput: seq<byte>, newBuffer: int, newBits: nat)
    requires Holds(x, output, buffer, bits) && bits < 8
    ensures Holds(x + [value], newOutput, newBuffer, newBits) && newBits < 8
  {
    ShiftIn(x, output, buffer, bits, value);
    newOutput, newBuffer, newBits := output, buffer * 64 % WORD + value, bits + 6;
    while newBits >= 8
      invariant newBits < 14 && Holds(x + [value], newOutput, newBuffer, newBits)
    {
      TakeByte(x + [value], newOutput, newBuffer, newBits);
      newBits := newBits - 8;
      newOutput := newOutput + [newBuffer / Pow2(newBits) % 256];
    }
  }

  /** `decode_base64url` */
  method Decode(input: string) returns (r: Option<seq<byte>>)
    ensures r == DecodeText(input)
  {
    if '=' in input {
      return None;
    }
    var output: seq<byte>, buffer, bits: nat := [], 0, 0;
    for k := 0 to |input|
      invariant bits < 8 && AllInAlphabet(input[..k])
      invariant Holds(SextetsOf(input[..k]), output, buffer, bits)
    {
      NextChar(input, k);
      if !InAlphabet(input[k]) {
        return None;
      }
      output, buffer, bits := Feed(SextetsOf(input[..k]), output, buffer, bits, SextetOf(input[k]));
    }
    assert input[..|input|] == input;
    AllRead(input, output, buffer, bits);
    if bits > 0 && buffer % Pow2(bits) != 0 {
      return None;
    }
    return Some(output);
  }

  // ------------------------------------------------------------- the encoder

  ghost predicate Encoded(b: seq<byte>, output: string) {
    AllInAlphabet(output) && Value64(SextetsOf(output)) == PaddedValue(b) && |output| == SextetCount(|b|)
  }

  lemma EncodedIsEncoding(b: seq<byte>, output: string)
    requires Encoded(b, output)
    ensures output == EncodeBytes(b)
  {
    DigitsOfValue64(SextetsOf(output));
    CharsUnique(output, EncodeBytes(b));
  }

  lemma AddChar(output: string, v: sextet)
    requires AllInAlphabet(output)
    ensures AllInAlphabet(output + [TableChar(v)])
    ensures Value64(SextetsOf(output + [TableChar(v)])) == Value64(SextetsOf(output)) * 64 + v
  {
    var longer := output + [TableChar(v)];
    assert SextetsOf(longer)[..|output|] == SextetsOf(output);
  }

  /** `base64url_encode`, the encoder beside the tests of the decoder. */
  method Encode(bytes: seq<byte>) returns (output: string)
    ensures output == EncodeBytes(bytes)
  {
    output := "";
    var index := 0;
    while index + 3 <= |bytes|
      invariant 0 <= index <= |bytes| && index % 3 == 0
      invariant AllInAlphabet(output) && |output| == index / 3 * 4
      invariant Value64(SextetsOf(output)) == Value256(bytes[..index])
    {
      AddThree(bytes, index);
      output := AddGroup(output, bytes[index] as int * 65536 + bytes[index+1] as int * 256 + bytes[index+2], 4);
      index := index + 3;
    }
    ghost var whole := output;
    match |bytes| - index {
      case 1 =>
        output := AddGroup(output, bytes[index] as int * 65536, 2);
      case 2 =>
        output := AddGroup(output, bytes[index] as int * 65536 + bytes[index+1] as int * 256, 3);
      case _ =>
    }
    LastGroup(bytes, index, whole, output);
  }

  lemma LastGroup(bytes: seq<byte>, index: nat, whole: string, output: string)
    requires index <= |bytes| < index + 3 && index % 3 == 0
    requires AllInAlphabet(whole) && |whole| == index / 3 * 4
    requires Value64(SextetsOf(whole)) == Value256(bytes[..index])
    requires AllInAlphabet(output)
    requires |bytes| == index ==> output == whole
    requires |bytes| == index + 1 ==>
               && |output| == |whole| + 2
               && Value64(SextetsOf(output)) == AfterGroup(Value64(SextetsOf(whole)), bytes[index] as int * 65536, 2)
    requires |bytes| == index + 2 ==>
               && |output| == |whole| + 3
               && Value64(SextetsOf(output))
                  == AfterGroup(Value64(SextetsOf(whole)), bytes[index] as int * 65536 + bytes[index+1] as int * 256, 3)
    ensures output == EncodeBytes(bytes)
  {
    PaddingCases(|bytes|);
    assert bytes[..|bytes|] == bytes;
    if index < |bytes| { AddByte(bytes, index); }
    if index + 1 < |bytes| { AddByte(bytes, index + 1); }
    EncodedIsEncoding(bytes, output);
  }

  lemma AddThree(bytes: seq<byte>, index: nat)
    requires index + 3 <= |bytes|
    ensures Value256(bytes[..index+3])
            == AfterGroup(Value256(bytes[..index]),
                          bytes[index] as int * 65536 + bytes[index+1] as int * 256 + bytes[index+2], 4)
  {
    AddByte(bytes, index);
    AddByte(bytes, index + 1);
    AddByte(bytes, index + 2);
  }

  lemma AddByte(bytes: seq<byte>, index: nat)
    requires index < |bytes|
    ensures Value256(bytes[..index+1]) == Value256(bytes[..index]) * 256 + bytes[index]
  {
    assert bytes[..index+1][..index] == bytes[..index];
  }

  /** Writes the first `n` sextets of a 24-bit group. */
  method AddGroup(output0: string, chunk: nat, n: nat) returns (output: string)
    requires AllInAlphabet(output0) && chunk < 0x1000000 && 2 <= n <= 4
    ensures AllInAlphabet(output) && |output| == |output0| + n
    ensures Value64(SextetsOf(output)) == AfterGroup(Value64(SextetsOf(output0)), chunk, n)
  {
    GroupDigits(chunk);
    AddChar(output0, chunk / 262144 % 64);
    output := output0 + [TableChar(chunk / 262144 % 64)];
    AddChar(output, chunk / 4096 % 64);
    output := output + [TableChar(chunk / 4096 % 64)];
    if n >= 3 {
      AddChar(output, chunk / 64 % 64);
      output := output + [TableChar(chunk / 64 % 64)];
    }
    if n == 4 {
      AddChar(output, chunk % 64);
      output := output + [TableChar(chunk % 64)];
    }
  }

  ghost function AfterGroup(v: nat, chunk: nat, n: nat): nat {
    if n == 4 then v * 0x1000000 + chunk
    else if n == 3 then v * 262144 + chunk / 64
    else v * 4096 + chunk / 4096
  }

  lemma GroupDigits(chunk: nat)
    requires chunk < 0x1000000
    ensures chunk / 262144 % 64 == chunk / 262144
    ensures chunk / 262144 * 64 + chunk / 4096 % 64 == chunk / 4096
    ensures chunk / 4096 * 64 + chunk / 64 % 64 == chunk / 64
    ensures chunk / 64 * 64 + chunk % 64 == chunk
  {
  }

  lemma PaddingCases(n: nat)
    ensures n % 3 == 0 ==> Pow2(Padding(n)) == 1 && SextetCount(n) == n / 3 * 4
    ensures n % 3 == 1 ==> Pow2(Padding(n)) == 16 && SextetCount(n) == n / 3 * 4 + 2
    ensures n % 3 == 2 ==> Pow2(Padding(n)) == 4 && SextetCount(n) == n / 3 * 4 + 3
  {
    var k, r := n / 3, n % 3;
    assert n == 3 * k + r;
    assert SextetCount(n) == 4 * k + if r == 0 then 0 else r + 1;
    SmallPowers();
  }

  // -------------------------------------------------------------- round trips

  lemma {:induction false} PowSum(m: nat, n: nat)
    ensures Pow2(m + n) == Pow2(m) * Pow2(n)
  {
    if m > 0 { PowSum(m - 1, n); }
  }

  lemma SmallPowers()
    ensures Pow2(0) == 1 && Pow2(2) == 4 && Pow2(4) == 16 && Pow2(6) == 64
  {
  }

  lemma ScaleBound(a: nat, b: nat, unit: nat)
    requires a < b && unit > 0
    ensures a * unit < b * unit
  {
  }

  lemma Eighths(x: nat, q: nat)
    requires 8 * q <= x < 8 * q + 8
    ensures x / 8 == q && x % 8 == x - 8 * q
  {
  }

  lemma Sixths(x: nat, q: nat)
    requires 6 * q <= x < 6 * q + 6
    ensures x / 6 == q
  {
  }

  lemma CountFacts(n: nat)
    ensures Padding(n) in {0, 2, 4}
    ensures LeftOver(SextetCount(n)) == Padding(n)
    ensures 6 * SextetCount(n) / 8 == n
  {
    var k, r := n / 3, n % 3;
    var count := 4 * k + if r == 0 then 0 else r + 1;
    Sixths(8 * n + 5, count);
    Eighths(6 * count, n);
  }

  lemma PaddedValueFits(b: seq<byte>)
    ensures PaddedValue(b) < Pow2(6 * SextetCount(|b|))
  {
    ValueBound256(b);
    PowSum(8 * |b|, Padding(|b|));
    ScaleBound(Value256(b), Pow2(8 * |b|), Pow2(Padding(|b|)));
  }

  lemma EncodedValue(b: seq<byte>)
    ensures var s := EncodeBytes(b);
            |s| == SextetCount(|b|) && AllInAlphabet(s) && Value64(SextetsOf(s)) == PaddedValue(b)
  {
    PaddedValueFits(b);
    ValueOfDigits64(PaddedValue(b), SextetCount(|b|));
  }

  /** Splitting a stream into whole bytes and left-over bits. */
  lemma SplitLeftOver(n: nat, q: nat, r: nat)
    requires r < Pow2(LeftOver(n))
    ensures (q * Pow2(LeftOver(n)) + r) / Pow2(LeftOver(n)) == q
    ensures (q * Pow2(LeftOver(n)) + r) % Pow2(LeftOver(n)) == r
  {
    DivMod(q * Pow2(LeftOver(n)) + r, Pow2(LeftOver(n)), q, r);
  }

  /** Decoding undoes encoding, for every byte sequence. */
  lemma DecodeEncode(b: seq<byte>)
    ensures DecodeText(EncodeBytes(b)) == Some(b)
  {
    var s, n := EncodeBytes(b), SextetCount(|b|);
    EncodedValue(b);
    CountFacts(|b|);
    SplitLeftOver(n, Value256(b), 0);
    DigitsOfValue256(b);
  }

  /** What an accepted text says: its sextets are the bytes followed by zero bits. */
  lemma DecodedValue(s: string)
    requires DecodeText(s).Some?
    ensures var b := DecodeText(s).value;
            && |b| == 6 * |s| / 8 && AllInAlphabet(s)
            && Value64(SextetsOf(s)) == Value256(b) * Pow2(LeftOver(|s|))
  {
    ValueBound64(SextetsOf(s));
    WholeBytes(Value64(SextetsOf(s)), |s|);
  }

  lemma WholeBytes(v: nat, length: nat)
    requires v < Pow2(6 * length)
    ensures v % Pow2(LeftOver(length)) == 0 ==>
              Value256(Digits256(v / Pow2(LeftOver(length)), 6 * length / 8)) * Pow2(LeftOver(length)) == v
  {
    var n, left := 6 * length / 8, LeftOver(length);
    assert 6 * length == 8 * n + left;
    PowSum(8 * n, left);
    QuotientBound(v, Pow2(8 * n), left);
    ValueOfDigits256(v / Pow2(left), n);
  }

  lemma QuotientBound(v: nat, p: nat, left: nat)
    requires left in {0, 2, 4, 6} && v < p * Pow2(left)
    ensures v / Pow2(left) < p
    ensures v % Pow2(left) == 0 ==> v == v / Pow2(left) * Pow2(left)
  {
    SmallPowers();
  }

  /** Encoding undoes decoding exactly on the accepted texts that are not one character
      longer than a multiple of four. */
  lemma EncodeDecode(s: string)
    requires DecodeText(s).Some?
    ensures EncodeBytes(DecodeText(s).value) == s <==> |s| % 4 != 1
  {
    DecodedValue(s);
    EncodesTo(DecodeText(s).value, s);
  }

  lemma EncodesTo(b: seq<byte>, s: string)
    requires |b| == 6 * |s| / 8 && AllInAlphabet(s) && Value64(SextetsOf(s)) == Value256(b) * Pow2(LeftOver(|s|))
    ensures EncodeBytes(b) == s <==> |s| % 4 != 1
  {
    var t := EncodeBytes(b);
    EncodedValue(b);
    LengthsAgree(|s|, |b|);
    if |t| == |s| {
      SameValueSameText(t, s);
    }
  }

  lemma LengthsAgree(n: nat, m: nat)
    requires m == 6 * n / 8
    ensures SextetCount(m) == n <==> n % 4 != 1
    ensures SextetCount(m) == n ==> Padding(m) == LeftOver(n)
  {
    LengthFacts(n);
  }

  lemma SameValueSameText(s: string, t: string)
    requires AllInAlphabet(s) && AllInAlphabet(t) && |s| == |t|
    requires Value64(SextetsOf(s)) == Value64(SextetsOf(t))
    ensures s == t
  {
    DigitsOfValue64(SextetsOf(s));
    DigitsOfValue64(SextetsOf(t));
    CharsUnique(s, t);
  }

  lemma LengthFacts(n: nat)
    ensures LeftOver(n) == 6 <==> n % 4 == 1
    ensures n % 4 != 1 ==> SextetCount(6 * n / 8) == n && LeftOver(n) == 6 * n - 8 * (6 * n / 8)
    ensures n % 4 == 1 ==> SextetCount(6 * n / 8) == n - 1 && 6 * (n - 1) / 8 == 6 * n / 8 && LeftOver(n - 1) == 0
  {
    var k, r := n / 4, n % 4;
    var bytes := 3 * k + if r == 0 then 0 else r - 1;
    Eighths(6 * n, bytes);
    Sixths(8 * bytes + 5, if r == 1 then n - 1 else n);
    if r == 1 {
      Eighths(6 * (n - 1), bytes);
    }
  }

  /** The accepted texts of a length the RFC allows are exactly the encodings. */
  lemma AcceptedIffEncoding(s: string)
    requires |s| % 4 != 1
    ensures DecodeText(s).Some? <==> exists b :: EncodeBytes(b) == s
  {
    if DecodeText(s).Some? {
      EncodeDecode(s);
      assert EncodeBytes(DecodeText(s).value) == s;
    }
    if b :| EncodeBytes(b) == s {
      DecodeEncode(b);
    }
  }

  /** A text one character longer than a multiple of four is accepted exactly when it is an
      accepted text followed by 'A', and then it decodes like that text: the one leniency. */
  lemma StrayCharacter(s: string)
    requires |s| % 4 == 1
    ensures DecodeText(s).Some? <==> DecodeText(s[..|s|-1]).Some? && s[|s|-1] == 'A'
    ensures DecodeText(s).Some? ==> DecodeText(s) == DecodeText(s[..|s|-1])
  {
    var init, last := s[..|s|-1], s[|s|-1];
    assert s == init + [last];
    if AllInAlphabet(s) {
      StrayValue(s);
    }
  }

  lemma StrayValue(s: string)
    requires |s| % 4 == 1 && AllInAlphabet(s)
    ensures DecodeText(s).Some? <==> s[|s|-1] == 'A'
    ensures DecodeText(s[..|s|-1]).Some?
    ensures s[|s|-1] == 'A' ==> DecodeText(s) == DecodeText(s[..|s|-1])
  {
    var init, last := s[..|s|-1], s[|s|-1];
    LengthFacts(|s|);
    SmallPowers();
    assert SextetsOf(s)[..|s|-1] == SextetsOf(init);
    var v, v' := Value64(SextetsOf(s)), Value64(SextetsOf(init));
    assert v == v' * 64 + SextetOf(last);
    OnlyA(last);
    DivMod(v, 64, v', SextetOf(last));
    DivMod(v', 1, v', 0);
  }

  lemma OnlyA(c: char)
    requires InAlphabet(c)
    ensures SextetOf(c) == 0 <==> c == 'A'
  {
  }

  /** The alphabet of section 5 of RFC 4648, from 'A' to '_'. */
  lemma AlphabetSpelled()
    ensures TABLE == "ABCDEFGHIJKLMNOPQRSTUVWXYZabcdefghijklmnopqrstuvwxyz0123456789-_"
  {
  }

  /** A character stands for its place in it, and no other character stands for anything. */
  lemma AlphabetValues(c: char, v: sextet)
    ensures |TABLE| == 64
    ensures TABLE[v] == c <==> InAlphabet(c) && SextetOf(c) == v
  {
    TableRanges(v);
    if InAlphabet(c) { SextetInverse(c); }
  }
}
