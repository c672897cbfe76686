/** The base-32 encoding of Nix: unaligned 5-bit words of a little-endian number, most significant first. */
module NixBase32 {
  import opened Prelude

  // ---------- Bits of natural numbers ----------

  function Pow2(e: nat): (p: nat)
    ensures p > 0
  {
    if e == 0 then 1 else 2 * Pow2(e - 1)
  }

  lemma {:induction false} DoubleRight(x: nat, y: nat)
    ensures x * (2 * y) == 2 * (x * y)
  {
  }

  lemma {:induction false} Pow2Add(a: nat, b: nat)
    ensures Pow2(a + b) == Pow2(a) * Pow2(b)
  {
    if b > 0 {
      Pow2Add(a, b - 1);
      DoubleRight(Pow2(a), Pow2(b - 1));
    }
  }

  lemma {:induction false} Pow2Small(j: nat)
    requires j <= 8
    ensures Pow2(j) == if j == 0 then 1 else if j == 1 then 2 else if j == 2 then 4 else if j == 3 then 8
      else if j == 4 then 16 else if j == 5 then 32 else if j == 6 then 64 else if j == 7 then 128 else 256
  {
    assert Pow2(4) == 2 * 2 * 2 * 2 * Pow2(0);
    assert Pow2(8) == 2 * 2 * 2 * 2 * Pow2(4);
    assert Pow2(6) == 2 * 2 * Pow2(4);
  }

  /** Bitwise or. */
  function BitOr(a: nat, b: nat): nat
    decreases a + b
  {
    if a == 0 then b else if b == 0 then a
    else (if a % 2 == 1 || b % 2 == 1 then 1 else 0) + 2 * BitOr(a / 2, b / 2)
  }

  lemma {:induction false} OrCommutes(a: nat, b: nat)
    ensures BitOr(a, b) == BitOr(b, a)
    decreases a + b
  {
    if a > 0 && b > 0 { OrCommutes(a / 2, b / 2); }
  }

  lemma {:induction false} OrBound(a: nat, b: nat, k: nat)
    requires a < Pow2(k) && b < Pow2(k)
    ensures BitOr(a, b) < Pow2(k)
  {
    if a > 0 && b > 0 { OrBound(a / 2, b / 2, k - 1); }
  }

  lemma {:induction false} OrOnes(a: nat, k: nat)
    requires a < Pow2(k)
    ensures BitOr(a, Pow2(k) - 1) == Pow2(k) - 1
  {
    if a > 0 {
      assert (Pow2(k) - 1) / 2 == Pow2(k - 1) - 1 && (Pow2(k) - 1) % 2 == 1;
      OrOnes(a / 2, k - 1);
    }
  }

  /** Or of numbers without common bits is their sum. */
  lemma {:induction false} OrDisjoint(low: nat, high: nat, j: nat)
    requires low < Pow2(j)
    ensures BitOr(low, high * Pow2(j)) == low + high * Pow2(j)
  {
    if j > 0 && low > 0 && high > 0 {
      var b := high * Pow2(j);
      assert b == 2 * (high * Pow2(j - 1));
      OrDisjoint(low / 2, high, j - 1);
    }
  }

  // ---------- Alphabet ----------

  const ALPHABET := "0123456789abcdfghijklmnpqrsvwxyz"

  function Symbol(d: nat): Byte
    requires d < 32
  {
    if d < 10 then 48 + d else if d < 14 then 87 + d else if d < 23 then 88 + d else if d < 27 then 89 + d else 91 + d
  }

  lemma {:induction false} SymbolsAreAlphabet(d: nat)
    requires d < 32
    ensures ALPHABET[d] as int == Symbol(d)
  {
  }

  const INVALID: Byte := 0xFF

  /** Value of a symbol; anything else maps to 0xFF. */
  function Ord(c: Byte): Byte {
    if 48 <= c < 58 then c - 48
    else if 97 <= c < 101 then c - 87
    else if 102 <= c < 111 then c - 88
    else if 112 <= c < 116 then c - 89
    else if 118 <= c < 123 then c - 91
    else INVALID
  }

  predicate IsSymbol(c: Byte) {
    Ord(c) < 32
  }

  lemma {:induction false} OrdInverts(c: Byte, d: nat)
    requires d < 32
    ensures Ord(c) == d <==> c == Symbol(d)
    ensures IsSymbol(c) || Ord(c) == INVALID
  {
  }

  /** The lookup table, filled symbol by symbol. */
  method BuildOrdTable() returns (ord: seq<Byte>)
    ensures |ord| == 256 && forall c: Byte :: ord[c] == Ord(c)
  {
    ord := seq(256, _ => INVALID);
    for i := 0 to 32
      invariant |ord| == 256
      invariant forall c: Byte :: ord[c] == if Ord(c) < i then Ord(c) else INVALID
    {
      SymbolsAreAlphabet(i);
      forall c: Byte ensures Ord(c) == i <==> c == Symbol(i) { OrdInverts(c, i); }
      ord := ord[Symbol(i) := i];
    }
    forall c: Byte ensures ord[c] == Ord(c) { OrdInverts(c, 0); }
  }

  // ---------- The numbers both sides denote ----------

  /** Bytes, least significant first. */
  function ValueOfBytes(x: seq<Byte>): nat {
    if x == [] then 0 else x[0] + 256 * ValueOfBytes(x[1..])
  }

  ghost predicate AllSymbols(s: seq<Byte>) {
    forall i :: 0 <= i < |s| ==> IsSymbol(s[i])
  }

  /** Symbols, most significant first. */
  function ValueOfText(s: seq<Byte>): nat {
    if s == [] then 0 else 32 * ValueOfText(s[..|s| - 1]) + Ord(s[|s| - 1])
  }

  function DecodeLen(n: nat): nat {
    n * 5 / 8
  }

  function EncodeLen(n: nat): nat {
    (n * 8 + 4) / 5
  }

  lemma {:induction false} Lengths(n: nat)
    ensures DecodeLen(EncodeLen(n)) == n
    ensures 8 * n <= 5 * EncodeLen(n) <= 8 * n + 4
  {
  }

  /** `s` is the encoding of `x`: canonical length, valid symbols, and the same number. */
  ghost predicate IsEncoding(x: seq<Byte>, s: seq<Byte>) {
    |s| == EncodeLen(|x|) && AllSymbols(s) && ValueOfText(s) == ValueOfBytes(x)
  }

  lemma {:induction false} BytesBound(x: seq<Byte>)
    ensures ValueOfBytes(x) < Pow2(8 * |x|)
  {
    if x != [] {
      BytesBound(x[1..]);
      Pow2Add(8 * |x[1..]|, 8);
      Pow2Small(8);
    }
  }

  lemma {:induction false} BytesInjective(x: seq<Byte>, y: seq<Byte>)
    requires |x| == |y| && ValueOfBytes(x) == ValueOfBytes(y)
    ensures x == y
  {
    if x != [] {
      BytesInjective(x[1..], y[1..]);
      assert x == [x[0]] + x[1..] && y == [y[0]] + y[1..];
    }
  }

  lemma {:induction false} TextInjective(s: seq<Byte>, t: seq<Byte>)
    requires |s| == |t| && AllSymbols(s) && AllSymbols(t) && ValueOfText(s) == ValueOfText(t)
    ensures s == t
  {
    if s != [] {
      var n := |s| - 1;
      TextInjective(s[..n], t[..n]);
      OrdInverts(s[n], Ord(s[n]));
      OrdInverts(t[n], Ord(s[n]));
      assert s == s[..n] + [s[n]] && t == t[..n] + [t[n]];
    }
  }

  /** An encoding determines its bytes, and bytes determine their encoding. */
  lemma {:induction false} EncodingIsUnique(x: seq<Byte>, s: seq<Byte>, y: seq<Byte>, t: seq<Byte>)
    requires IsEncoding(x, s) && IsEncoding(y, t)
    ensures x == y <==> s == t
  {
    if x == y {
      TextInjective(s, t);
    }
    if s == t {
      Lengths(|x|);
      Lengths(|y|);
      BytesInjective(x, y);
    }
  }

  lemma {:induction false} ScaleSplit(low: int, p: int, high: int)
    ensures 256 * (low + p * high) == 256 * low + p * 256 * high
  {
  }

  lemma {:induction false} BytesSplit(x: seq<Byte>, i: nat)
    requires i <= |x|
    ensures ValueOfBytes(x) == ValueOfBytes(x[..i]) + Pow2(8 * i) * ValueOfBytes(x[i..])
  {
    if i == 0 {
      assert x[0..] == x;
    } else {
      BytesSplit(x[1..], i - 1);
      assert x[1..][..i - 1] == x[..i][1..] && x[1..][i - 1..] == x[i..];
      Pow2Add(8 * (i - 1), 8);
      Pow2Small(8);
      ScaleSplit(ValueOfBytes(x[..i][1..]), Pow2(8 * (i - 1)), ValueOfBytes(x[i..]));
    }
  }

  // ---------- Encoding ----------

  lemma {:induction false} MulAtLeast(d: int, k: int)
    ensures d >= 0 && k >= 1 ==> d * k >= d
  {
  }

  lemma {:induction false} MulAssociates(a: int, b: int, c: int)
    ensures a * b * c == a * (b * c)
  {
  }

  lemma {:induction false} SmallMultiple(d: int, k: int)
    requires d > 0 && -d < d * k < d
    ensures k == 0
  {
    MulAtLeast(d, k);
    MulAtLeast(d, -k);
  }

  lemma {:induction false} DivUnique(n: nat, d: nat, q: nat, r: nat)
    requires n == d * q + r && r < d
    ensures n / d == q
  {
    var q0 := n / d;
    assert n == d * q0 + n % d;
    assert d * (q - q0) == d * q - d * q0;
    SmallMultiple(d, q - q0);
  }

  lemma {:induction false} DivShift(a: nat, q: nat, m: nat)
    requires q > 0
    ensures (a + q * m) / q == a / q + m
  {
    assert a == q * (a / q) + a % q;
    assert a + q * m == q * (a / q + m) + a % q;
    DivUnique(a + q * m, q, a / q + m, a % q);
  }

  lemma {:induction false} DivSkipsLow(a: nat, p: nat, b: nat, q: nat)
    requires a < p && q > 0
    ensures p * q > 0 && (a + p * b) / (p * q) == b / q
  {
    var k, r := b / q, b % q;
    assert b == q * k + r;
    assert p * b == p * q * k + p * r;
    assert p * r <= p * (q - 1) == p * q - p;
    DivUnique(a + p * b, p * q, k, a + p * r);
  }

  function ByteAt(x: seq<Byte>, i: nat): Byte {
    if i < |x| then x[i] else 0
  }

  /** The 5-bit word at bit offset `5 * n` can be cut out of two neighbouring bytes. */
  lemma {:induction false} DigitFromWord(x: seq<Byte>, n: nat, i: nat, j: nat)
    requires 5 * n == 8 * i + j && j < 8 && i < |x|
    ensures (x[i] + 256 * ByteAt(x, i + 1)) / Pow2(j) % 32 == ValueOfBytes(x) / Pow2(5 * n) % 32
  {
    var p, high := Pow2(8 * i), ValueOfBytes(x[i..]);
    BytesSplit(x, i);
    BytesBound(x[..i]);
    Pow2Add(8 * i, j);
    DivSkipsLow(ValueOfBytes(x[..i]), p, high, Pow2(j));
    var word := x[i] + 256 * ByteAt(x, i + 1);
    var rest := if i + 2 <= |x| then ValueOfBytes(x[i + 2..]) else 0;
    assert high == word + 65536 * rest by {
      assert x[i..][1..] == x[i + 1..];
      if i + 1 < |x| {
        assert x[i + 1..][1..] == x[i + 2..];
      }
    }
    Pow2Small(j);
    WordShift(word, rest, j);
  }

  lemma {:induction false} WordShift(word: nat, rest: nat, j: nat)
    requires j < 8
    ensures (word + 65536 * rest) / Pow2(j) % 32 == word / Pow2(j) % 32
  {
    var q, w := Pow2(j), Pow2(11 - j);
    Pow2Add(j, 11 - j);
    Pow2Add(8, 3);
    Pow2Small(8);
    Pow2Small(3);
    hide Pow2;
    assert q * w == 2048;
    calc {
      65536 * rest;
      q * w * (32 * rest);
      { MulAssociates(q, w, 32 * rest); }
      q * (w * (32 * rest));
      { assert w * (32 * rest) == 32 * (w * rest); }
      q * (32 * (w * rest));
    }
    ShiftedMask(word, q, w * rest);
  }

  lemma {:induction false} ShiftedMask(word: nat, q: nat, t: nat)
    requires q > 0
    ensures (word + q * (32 * t)) / q % 32 == word / q % 32
  {
    DivShift(word, q, 32 * t);
  }

  lemma {:induction false} NextDigit(v: nat, n: nat)
    ensures v / Pow2(5 * n) == 32 * (v / Pow2(5 * (n + 1))) + v / Pow2(5 * n) % 32
  {
    Pow2Add(5 * n, 5);
    Pow2Small(5);
    var p := Pow2(5 * n);
    var a, k := v % p, v / p;
    assert v == a + p * k;
    DivSkipsLow(a, p, k, 32);
  }

  /** Reads 16 bits at a byte boundary, then shifts and masks to 5. */
  method CutDigit(input: seq<Byte>, n: nat) returns (c: nat)
    requires n < EncodeLen(|input|)
    ensures c < 32 && c == ValueOfBytes(input) / Pow2(5 * n) % 32
  {
    var b := n * 5;
    var i, j := b / 8, b % 8;
    var word: nat := input[i];
    if i + 1 < |input| {
      var msb: nat := input[i + 1];
      word := BitOr(word, msb * 256);
      Pow2Small(8);
      OrDisjoint(input[i], input[i + 1], 8);
    }
    c := word / Pow2(j) % 32;
    DigitFromWord(input, n, i, j);
  }

  lemma {:induction false} TextAppend(s: seq<Byte>, c: nat)
    requires c < 32 && AllSymbols(s)
    ensures AllSymbols(s + [Symbol(c)]) && ValueOfText(s + [Symbol(c)]) == 32 * ValueOfText(s) + c
  {
    OrdInverts(Symbol(c), c);
    assert (s + [Symbol(c)])[..|s|] == s;
  }

  lemma {:induction false} ValueFits(input: seq<Byte>)
    ensures ValueOfBytes(input) / Pow2(5 * EncodeLen(|input|)) == 0
  {
    var len := EncodeLen(|input|);
    Lengths(|input|);
    BytesBound(input);
    Pow2Add(8 * |input|, 5 * len - 8 * |input|);
    MulAtLeast(Pow2(8 * |input|), Pow2(5 * len - 8 * |input|));
    DivUnique(ValueOfBytes(input), Pow2(5 * len), 0, ValueOfBytes(input));
  }

  /** Encodes from the most significant word down. */
  method Encode(input: seq<Byte>) returns (output: seq<Byte>)
    ensures IsEncoding(input, output)
  {
    hide Pow2, ValueOfBytes, ValueOfText, Symbol, AllSymbols, EncodeLen;
    var len := EncodeLen(|input|);
    output := [];
    ValueFits(input);
    EmptyText();
    for n := len downto 0
      invariant |output| == len - n && AllSymbols(output)
      invariant ValueOfText(output) == ValueOfBytes(input) / Pow2(5 * n)
    {
      var c := CutDigit(input, n);
      NextDigit(ValueOfBytes(input), n);
      SymbolsAreAlphabet(c);
      TextAppend(output, c);
      output := output + [ALPHABET[c] as int];
    }
  }

  lemma {:induction false} EmptyText()
    ensures ValueOfText([]) == 0 && AllSymbols([]) && Pow2(5 * 0) == 1
  {
  }

  // ---------- Decoding ----------

  datatype DecodeKind = BadLength | BadSymbol | Trailing

  datatype DecodeError = DecodeError(position: nat, kind: DecodeKind)

  lemma {:induction false} TextPrepend(c: Byte, t: seq<Byte>)
    ensures ValueOfText([c] + t) == Ord(c) * Pow2(5 * |t|) + ValueOfText(t)
  {
    if t == [] {
      assert ([c] + t)[..0] == [];
    } else {
      var n := |t| - 1;
      assert ([c] + t)[..|t|] == [c] + t[..n];
      TextPrepend(c, t[..n]);
      Pow2Add(5 * n, 5);
      Pow2Small(5);
      MulAssociates(Ord(c), Pow2(5 * n), 32);
    }
  }

  /** The bytes written so far and the carry, at bit offset `8 * i + j`, denote `v`. */
  ghost predicate Packed(out: seq<Byte>, carry: nat, i: nat, j: nat, v: nat) {
    && i <= |out| && j < 8
    && (ByteAt(out, i) == 0 || carry == 0) && ByteAt(out, i) + carry < Pow2(j)
    && (forall m :: i < m < |out| ==> out[m] == 0)
    && v == ValueOfBytes(out[..i]) + Pow2(8 * i) * (ByteAt(out, i) + carry)
  }

  /** Shifting a digit left by `j` splits it into a multiple of `Pow2(j)` within the byte, and a carry. */
  lemma {:induction false} ShiftSplit(digit: nat, j: nat)
    requires digit < 32 && j < 8
    ensures var value, q := digit * Pow2(j), Pow2(8 - j);
      && value % 256 == (digit % q) * Pow2(j) && value / 256 == digit / q
      && (digit % q) * Pow2(j) + Pow2(j) <= 256
  {
    Pow2Add(j, 8 - j);
    Pow2Small(8);
    SplitByFactor(digit, Pow2(j), Pow2(8 - j));
  }

  lemma {:induction false} SplitByFactor(n: nat, p: nat, q: nat)
    requires p * q == 256 && q > 0
    ensures n * p % 256 == n % q * p && n * p / 256 == n / q && n % q * p + p <= 256
  {
    var a, r := n / q, n % q;
    MulLeq(r + 1, q, p);
    Expand(q, a, r, p);
    DivUnique(n * p, 256, a, r * p);
  }

  lemma {:induction false} MulLeq(a: nat, b: nat, c: nat)
    requires a <= b
    ensures a * c <= b * c && a * c == (a - 1) * c + c
  {
  }

  lemma {:induction false} Expand(q: int, a: int, r: int, p: int)
    ensures (q * a + r) * p == p * q * a + r * p
  {
  }

  /** A shifted digit has no bit in common with what is below. */
  lemma {:induction false} OrDigit(cur: nat, carry: nat, j: nat, digit: nat)
    requires digit < 32 && j < 8 && cur + carry < Pow2(j) && (cur == 0 || carry == 0)
    ensures var value := digit * Pow2(j);
      BitOr(cur, BitOr(value % 256, carry)) == cur + carry + value % 256 < 256
  {
    var value := digit * Pow2(j);
    ShiftSplit(digit, j);
    hide Pow2, BitOr;
    var high := digit % Pow2(8 - j);
    OrCommutes(value % 256, carry);
    OrDisjoint(carry, high, j);
    OrDisjoint(cur, high, j);
    OrZero(carry + value % 256);
  }

  lemma {:induction false} OrZero(a: nat)
    ensures BitOr(0, a) == a
  {
    if a > 0 { OrZero(a / 2); }
  }

  /** One more digit: the byte takes what fits, the carry takes the rest. */
  lemma {:induction false} PackDigit(out: seq<Byte>, carry: Byte, i: nat, j: nat, v: nat, digit: Byte)
    requires Packed(out, carry, i, j, v) && i < |out| && digit < 32
    ensures var value: nat := (digit as int) * Pow2(j);
      BitOr(out[i], BitOr(value % 256, carry)) == out[i] + carry + value % 256 < 256
  {
    hide Pow2, BitOr, ValueOfBytes;
    OrDigit(out[i], carry, j, digit);
  }

  lemma {:induction false} BytesAppend(out: seq<Byte>, i: nat, b: Byte)
    requires i < |out|
    ensures ValueOfBytes(out[i := b][..i + 1]) == ValueOfBytes(out[..i]) + Pow2(8 * i) * b
  {
    var y := out[i := b][..i + 1];
    BytesSplit(y, i);
    assert y[..i] == out[..i] && y[i..] == [b];
  }

  /** The digit stays within the byte. */
  lemma {:induction false} PackWithin(out: seq<Byte>, carry: Byte, i: nat, j: nat, v: nat, digit: Byte, b: Byte)
    requires Packed(out, carry, i, j, v) && i < |out| && digit < 32 && j < 3
    requires b == out[i] + carry + (digit as int) * Pow2(j)
    ensures (digit as int) * Pow2(j) / 256 == 0
    ensures Packed(out[i := b], 0, i, j + 5, v + digit * Pow2(8 * i + j))
  {
    var out' := out[i := b];
    assert out'[..i] == out[..i];
    Pow2Add(8 * i, j);
    Pow2Small(j);
    Pow2Small(j + 5);
    SameNumber(Pow2(8 * i), out[i] + carry, digit, Pow2(j));
  }

  /** The digit reaches the next byte. */
  lemma {:induction false} PackAcross(out: seq<Byte>, carry: Byte, i: nat, j: nat, v: nat, digit: Byte, b: Byte,
        carry': Byte)
    requires Packed(out, carry, i, j, v) && i < |out| && digit < 32 && j >= 3
    requires var value := (digit as int) * Pow2(j); b == out[i] + carry + value % 256 && carry' == value / 256
    ensures Packed(out[i := b], carry', i + 1, j - 3, v + digit * Pow2(8 * i + j))
  {
    hide Pow2, ValueOfBytes;
    var p := Pow2(8 * i);
    CarryBound(digit, j);
    BytesAppend(out, i, b);
    Pow2Add(8 * i, j);
    Pow2Add(8 * i, 8);
    Pow2Small(8);
    var value := (digit as int) * Pow2(j);
    SameNumber(p, out[i] + carry, digit, Pow2(j));
    SplitNumber(p, b, carry');
    assert b + 256 * carry' == out[i] + carry + value;
  }

  lemma {:induction false} CarryBound(digit: nat, j: nat)
    requires digit < 32 && 3 <= j < 8
    ensures digit * Pow2(j) / 256 < Pow2(j - 3)
  {
    ShiftSplit(digit, j);
    Pow2Small(j - 3);
    Pow2Small(8 - j);
  }

  lemma {:induction false} SameNumber(p: int, cur: int, digit: int, q: int)
    ensures p * (cur + digit * q) == p * cur + digit * (p * q)
  {
  }

  lemma {:induction false} SplitNumber(p: int, b: int, c: int)
    ensures p * b + p * 256 * c == p * (b + 256 * c)
  {
  }

  predicate InAlphabet(c: Byte) {
    exists d :: 0 <= d < 32 && ALPHABET[d] as int == c
  }

  lemma {:induction false} AlphabetIsSymbols(c: Byte)
    ensures InAlphabet(c) <==> IsSymbol(c)
  {
    if IsSymbol(c) {
      SymbolsAreAlphabet(Ord(c));
      OrdInverts(c, Ord(c));
      assert ALPHABET[Ord(c)] as int == c;
    }
    if d :| 0 <= d < 32 && ALPHABET[d] as int == c {
      SymbolsAreAlphabet(d);
      OrdInverts(c, d);
    }
  }

  ghost predicate FirstInvalid(input: seq<Byte>, at: nat) {
    at < |input| && !IsSymbol(input[at]) && AllSymbols(input[..at])
  }

  /** Position of the first character outside the alphabet; there is one whenever this is called. */
  method FindInvalid(input: seq<Byte>) returns (at: nat)
    requires !AllSymbols(input)
    ensures FirstInvalid(input, at)
  {
    forall c: Byte ensures InAlphabet(c) <==> IsSymbol(c) { AlphabetIsSymbols(c); }
    ghost var bad :| 0 <= bad < |input| && !IsSymbol(input[bad]);
    at := 0;
    while InAlphabet(input[at])
      invariant at <= bad && AllSymbols(input[..at])
      decreases bad - at
    {
      at := at + 1;
    }
  }

  lemma {:induction false} MaskRule(mask: nat, digit: Byte)
    requires (mask < 32 || mask == 255) && (digit < 32 || digit == 255)
    ensures BitOr(mask, digit) == 255 || BitOr(mask, digit) < 32
    ensures BitOr(mask, digit) < 32 <==> mask < 32 && digit < 32
  {
    Pow2Small(5);
    Pow2Small(8);
    if mask < 32 && digit < 32 {
      OrBound(mask, digit, 5);
    } else if digit == 255 {
      OrOnes(mask, 8);
    } else {
      OrCommutes(mask, digit);
      OrOnes(digit, 8);
    }
  }

  /** The or-ed byte stays a byte, also for invalid digits. */
  lemma {:induction false} ByteOr(a: Byte, value: nat, carry: Byte)
    ensures BitOr(a, BitOr(value % 256, carry)) < 256
  {
    Pow2Small(8);
    OrBound(value % 256, carry, 8);
    OrBound(a, BitOr(value % 256, carry), 8);
  }

  lemma {:induction false} ShiftFits(digit: Byte, j: nat)
    requires j < 8
    ensures (digit as int) * Pow2(j) / 256 < 256
  {
    Pow2Small(j);
    MulLeq(Pow2(j), 128, digit);
  }

  lemma {:induction false} NextOffset(n: nat)
    ensures 5 * n == 8 * (5 * n / 8) + 5 * n % 8
    ensures 5 * n % 8 < 3 ==> 5 * (n + 1) / 8 == 5 * n / 8 && 5 * (n + 1) % 8 == 5 * n % 8 + 5
    ensures 5 * n % 8 >= 3 ==> 5 * (n + 1) / 8 == 5 * n / 8 + 1 && 5 * (n + 1) % 8 == 5 * n % 8 - 3
  {
  }

  /** One round of the loop on valid input. */
  lemma {:induction false} PackStep(out: seq<Byte>, carry: Byte, n: nat, v: nat, digit: Byte, b: Byte, carry': Byte)
    requires digit < 32 && 5 * n / 8 < |out| && Packed(out, carry, 5 * n / 8, 5 * n % 8, v)
    requires var i, value := 5 * n / 8, (digit as int) * Pow2(5 * n % 8);
      b == BitOr(out[i], BitOr(value % 256, carry)) && carry' == value / 256
    ensures Packed(out[5 * n / 8 := b], carry', 5 * (n + 1) / 8, 5 * (n + 1) % 8, v + digit * Pow2(5 * n))
  {
    hide Packed, BitOr, Pow2;
    NextOffset(n);
    PackAt(out, carry, 5 * n / 8, 5 * n % 8, v, digit, b, carry');
  }

  lemma {:induction false} PackAt(out: seq<Byte>, carry: Byte, i: nat, j: nat, v: nat, digit: Byte, b: Byte,
        carry': Byte)
    requires digit < 32 && j < 8 && i < |out| && Packed(out, carry, i, j, v)
    requires var value := (digit as int) * Pow2(j);
      b == BitOr(out[i], BitOr(value % 256, carry)) && carry' == value / 256
    ensures j < 3 ==> Packed(out[i := b], carry', i, j + 5, v + digit * Pow2(8 * i + j))
    ensures j >= 3 ==> Packed(out[i := b], carry', i + 1, j - 3, v + digit * Pow2(8 * i + j))
  {
    hide Packed, BitOr, Pow2;
    PackDigit(out, carry, i, j, v, digit);
    if j < 3 {
      SmallShift(digit, j);
      PackWithin(out, carry, i, j, v, digit, b);
    } else {
      PackAcross(out, carry, i, j, v, digit, b, carry');
    }
  }

  lemma {:induction false} SmallShift(digit: nat, j: nat)
    requires digit < 32 && j < 3
    ensures digit * Pow2(j) < 256
  {
    Pow2Small(j);
  }

  lemma {:induction false} PackStart(out: seq<Byte>)
    requires forall m :: 0 <= m < |out| ==> out[m] == 0
    ensures Packed(out, 0, 0, 0, ValueOfText([]))
  {
  }

  lemma {:induction false} PackEnd(out: seq<Byte>, carry: Byte, n: nat, v: nat)
    requires n == EncodeLen(|out|) && Packed(out, carry, 5 * n / 8, 5 * n % 8, v)
    ensures carry == 0 <==> v < Pow2(8 * |out|)
    ensures carry == 0 ==> v == ValueOfBytes(out)
  {
    Lengths(|out|);
    assert out[..|out|] == out;
    BytesBound(out);
    MulAtLeast(Pow2(8 * |out|), carry);
  }

  /** The loop after `n` characters: the mask tells whether all were symbols, and if so they are packed. */
  ghost predicate Decoding(out: seq<Byte>, input: seq<Byte>, carry: Byte, mask: nat, n: nat) {
    && n <= |input| && (mask < 32 || mask == 255)
    && (mask < 32 <==> AllSymbols(input[|input| - n..]))
    && (mask < 32 ==> Packed(out, carry, 5 * n / 8, 5 * n % 8, ValueOfText(input[|input| - n..])))
  }

  lemma {:induction false} SymbolsPrepend(c: Byte, t: seq<Byte>)
    ensures AllSymbols([c] + t) <==> IsSymbol(c) && AllSymbols(t)
  {
    if AllSymbols([c] + t) {
      assert IsSymbol(([c] + t)[0]);
      forall i | 0 <= i < |t| ensures IsSymbol(t[i]) {
        assert IsSymbol(([c] + t)[i + 1]);
      }
    }
  }

  lemma {:induction false} DecodingStep(out: seq<Byte>, input: seq<Byte>, carry: Byte, mask: nat, n: nat, b: Byte,
        carry': Byte)
    requires Decoding(out, input, carry, mask, n) && n < |input| && 5 * n / 8 < |out|
    requires var value := (Ord(input[|input| - 1 - n]) as int) * Pow2(5 * n % 8);
      b == BitOr(out[5 * n / 8], BitOr(value % 256, carry)) && carry' == value / 256
    ensures Decoding(out[5 * n / 8 := b], input, carry', BitOr(mask, Ord(input[|input| - 1 - n])), n + 1)
  {
    hide Packed, ValueOfText, Pow2, BitOr, Ord, AllSymbols;
    var c, rest := input[|input| - 1 - n], input[|input| - n..];
    assert input[|input| - (n + 1)..] == [c] + rest;
    OrdInverts(c, 0);
    MaskRule(mask, Ord(c));
    SymbolsPrepend(c, rest);
    TextPrepend(c, rest);
    if mask < 32 && Ord(c) < 32 {
      PackStep(out, carry, n, ValueOfText(rest), Ord(c), b, carry');
    }
  }

  lemma {:induction false} DecodingStart(out: seq<Byte>, input: seq<Byte>)
    requires forall m :: 0 <= m < |out| ==> out[m] == 0
    ensures Decoding(out, input, 0, 0, 0)
  {
    PackStart(out);
    assert input[|input|..] == [];
  }

  /** Fills `output` from the least significant character on; an invalid character is looked for afterwards. */
  method DecodeInner(input: seq<Byte>, output: array<Byte>) returns (r: Result<(), DecodeError>)
    requires |input| == EncodeLen(output.Length) && forall m :: 0 <= m < output.Length ==> output[m] == 0
    modifies output
    ensures AllSymbols(input) && ValueOfText(input) < Pow2(8 * output.Length) ==>
      r.Ok? && ValueOfBytes(output[..]) == ValueOfText(input)
    ensures AllSymbols(input) && ValueOfText(input) >= Pow2(8 * output.Length) ==> r == Err(DecodeError(0, Trailing))
    ensures !AllSymbols(input) ==> r.Err? && r.error.kind == BadSymbol && FirstInvalid(input, r.error.position)
  {
    DecodingStart(output[..], input);
    Lengths(output.Length);
    hide Packed, ValueOfText, ValueOfBytes, Pow2, BitOr, Ord, FirstInvalid, AllSymbols;
    var carry: Byte, mask: nat := 0, 0;
    for n := 0 to |input|
      invariant Decoding(output[..], input, carry, mask, n)
    {
      hide Decoding;
      var b := n * 5;
      var i, j := b / 8, b % 8;
      var digit := Ord(input[|input| - 1 - n]);
      var value: nat := (digit as int) * Pow2(j);
      ByteOr(output[i], value, carry);
      ShiftFits(digit, j);
      ghost var was := output[..];
      DecodingStep(was, input, carry, mask, n, BitOr(output[i], BitOr(value % 256, carry)), value / 256);
      output[i] := BitOr(output[i], BitOr(value % 256, carry));
      assert output[..] == was[i := output[i]];
      carry := value / 256;
      mask := BitOr(mask, digit);
    }
    assert input[0..] == input;
    if mask == 0xFF {
      var at := FindInvalid(input);
      return Err(DecodeError(at, BadSymbol));
    }
    PackEnd(output[..], carry, |input|, ValueOfText(input));
    if carry != 0 {
      return Err(DecodeError(0, Trailing));
    }
    return Ok(());
  }

  /** Decoding to a given number of bytes. */
  ghost predicate DecodesTo(input: seq<Byte>, len: nat, r: Result<seq<Byte>, DecodeError>) {
    if |input| != EncodeLen(len) then
      r == Err(DecodeError(if |input| < EncodeLen(len) then |input| else EncodeLen(len), BadLength))
    else if !AllSymbols(input) then
      r.Err? && r.error.kind == BadSymbol && FirstInvalid(input, r.error.position)
    else if ValueOfText(input) >= Pow2(8 * len) then
      r == Err(DecodeError(0, Trailing))
    else
      r.Ok? && |r.value| == len && IsEncoding(r.value, input)
  }

  method DecodeFixed(input: seq<Byte>, len: nat) returns (r: Result<seq<Byte>, DecodeError>)
    ensures DecodesTo(input, len, r)
  {
    if |input| != EncodeLen(len) {
      return Err(DecodeError(if |input| < EncodeLen(len) then |input| else EncodeLen(len), BadLength));
    }
    var output := new Byte[len](_ => 0);
    var inner := DecodeInner(input, output);
    if inner.Err? {
      return Err(inner.error);
    }
    return Ok(output[..]);
  }

  method Decode(input: seq<Byte>) returns (r: Result<seq<Byte>, DecodeError>)
    ensures DecodesTo(input, DecodeLen(|input|), r)
    ensures r.Ok? <==> exists x :: IsEncoding(x, input)
    ensures r.Ok? ==> IsEncoding(r.value, input)
  {
    r := DecodeFixed(input, DecodeLen(|input|));
    forall x | IsEncoding(x, input) ensures r.Ok? {
      Lengths(|x|);
      BytesBound(x);
    }
  }

  /** Decoding an encoding gives the bytes back. */
  method DecodeOfEncode(x: seq<Byte>) returns (r: Result<seq<Byte>, DecodeError>)
    ensures r == Ok(x)
  {
    var s := Encode(x);
    r := Decode(s);
    EncodingIsUnique(x, s, r.value, s);
  }

  /** Whatever decodes is the encoding of what it decodes to: there is one text per byte string. */
  method EncodeOfDecode(s: seq<Byte>) returns (r: Result<seq<Byte>, DecodeError>, t: seq<Byte>)
    ensures r.Ok? ==> t == s
    ensures r.Ok? <==> exists x :: IsEncoding(x, s)
  {
    t := [];
    r := Decode(s);
    if r.Ok? {
      t := Encode(r.value);
      EncodingIsUnique(r.value, s, r.value, t);
    }
  }
}
