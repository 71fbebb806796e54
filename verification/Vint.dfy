/**
  Variable-length integers: `[unsigned vint]` and zig-zag `[vint]` of section 3
  of the CQL native protocol v5. Models scylla-cql/src/frame/types.rs:655-705.
 */
module Vint {
  import opened Arith
  import opened Wire

  const TWO64: nat := 0x1_0000_0000_0000_0000
  const TWO63: nat := 0x8000_0000_0000_0000

  type u64 = x: int | 0 <= x < 0x1_0000_0000_0000_0000
  type i64 = x: int | -0x8000_0000_0000_0000 <= x < 0x8000_0000_0000_0000

  // ------------------------------------------------- machine-level arithmetic

  function Pow2(n: nat): (p: nat)
    ensures p >= 1
  {
    if n == 0 then 1 else 2 * Pow2(n - 1)
  }

  lemma Pow2Values()
    ensures Pow2(0) == 1 && Pow2(1) == 2 && Pow2(2) == 4 && Pow2(3) == 8 && Pow2(4) == 16
    ensures Pow2(5) == 32 && Pow2(6) == 64 && Pow2(7) == 128 && Pow2(8) == 256
  {
    assert Pow2(4) == 16;
    assert Pow2(8) == 16 * Pow2(4);
  }

  /** The position of the highest set bit, counted from one. */
  function BitLength(v: nat): (n: nat)
    ensures v < Pow2(n)
    ensures v > 0 ==> n > 0 && Pow2(n - 1) <= v
  {
    if v == 0 then 0 else 1 + BitLength(v / 2)
  }

  function BitOr(a: nat, b: nat): (r: nat)
    decreases a + b
  {
    if a == 0 && b == 0 then 0
    else (if a % 2 == 1 || b % 2 == 1 then 1 else 0) + 2 * BitOr(a / 2, b / 2)
  }

  function BitAnd(a: nat, b: nat): (r: nat) {
    if a == 0 then 0
    else (if a % 2 == 1 && b % 2 == 1 then 1 else 0) + 2 * BitAnd(a / 2, b / 2)
  }

  function BitXor(a: nat, b: nat): (r: nat)
    decreases a + b
  {
    if a == 0 && b == 0 then 0
    else (if a % 2 != b % 2 then 1 else 0) + 2 * BitXor(a / 2, b / 2)
  }

  function Shr(v: nat, n: nat): (r: nat)
    ensures r <= v
  {
    if n == 0 then v else Shr(v / 2, n - 1)
  }

  /** The leading one bits of a byte. */
  function LeadingOnes(b: byte): (n: nat)
    ensures n <= 8
  {
    if b < 128 then 0 else if b < 192 then 1 else if b < 224 then 2
    else if b < 240 then 3 else if b < 248 then 4 else if b < 252 then 5
    else if b < 254 then 6 else if b < 255 then 7 else 8
  }

  /** Or-ing numbers without a common bit adds them. */
  lemma {:induction false} OrDisjoint(a: nat, b: nat, k: nat)
    requires a < Pow2(k) && b % Pow2(k) == 0
    ensures BitOr(a, b) == a + b
    decreases k, b
  {
    if k == 0 {
      if b > 0 {
        OrDisjoint(0, b / 2, 0);
      }
    } else {
      HalfMultiple(b, Pow2(k - 1));
      OrDisjoint(a / 2, b / 2, k - 1);
    }
  }

  lemma HalfMultiple(b: nat, p: nat)
    requires p > 0 && b % (2 * p) == 0
    ensures b % 2 == 0 && (b / 2) % p == 0
  {
    ModTwice(b, p);
  }

  /** Masking with 2^k - 1 keeps the k low bits. */
  lemma {:induction false} AndMask(a: nat, k: nat)
    ensures BitAnd(a, Pow2(k) - 1) == a % Pow2(k)
  {
    if k == 0 {
      AndZero(a);
    } else {
      var p := Pow2(k - 1);
      AndMask(a / 2, k - 1);
      AndOdd(a, 2 * p - 1);
      ModTwice(a, p);
    }
  }

  lemma AndOdd(a: nat, m: nat)
    requires m % 2 == 1
    ensures BitAnd(a, m) == a % 2 + 2 * BitAnd(a / 2, m / 2)
  {
  }

  lemma {:induction false} AndZero(a: nat)
    ensures BitAnd(a, 0) == 0
  {
    if a > 0 {
      AndZero(a / 2);
    }
  }

  lemma XorOdd(a: nat, m: nat)
    requires m % 2 == 1
    ensures BitXor(a, m) == 1 - a % 2 + 2 * BitXor(a / 2, m / 2)
  {
  }

  /** Xor-ing with all ones complements. */
  lemma {:induction false} XorOnes(a: nat, k: nat)
    requires a < Pow2(k)
    ensures BitXor(a, Pow2(k) - 1) == Pow2(k) - 1 - a
  {
    if k > 0 {
      var p := Pow2(k - 1);
      XorOnes(a / 2, k - 1);
      XorOdd(a, 2 * p - 1);
    }
  }

  lemma {:induction false} ShrOnes(k: nat, n: nat)
    requires n <= k
    ensures Shr(Pow2(k) - 1, n) == Pow2(k - n) - 1
  {
    if n > 0 {
      ShrOnes(k - 1, n - 1);
    }
  }

  lemma {:induction false} XorZero(a: nat)
    ensures BitXor(a, 0) == a
  {
    if a > 0 {
      XorZero(a / 2);
    }
  }

  lemma {:induction false} Pow2Sum(a: nat, b: nat)
    ensures Pow2(a + b) == Pow2(a) * Pow2(b)
  {
    if b > 0 {
      Pow2Sum(a, b - 1);
    }
  }

  lemma Pow2Monotone(a: nat, b: nat)
    requires a <= b
    ensures Pow2(a) <= Pow2(b)
  {
    Pow2Sum(a, b - a);
    if Pow2(b - a) > 1 {
      MulAtLeast(Pow2(b - a), Pow2(a));
    }
  }

  lemma {:induction false} Pow2IsPow256(n: nat)
    ensures Pow2(8 * n) == Pow256(n)
  {
    if n > 0 {
      Pow2IsPow256(n - 1);
      Pow2Values();
      Pow2Sum(8 * (n - 1), 8);
    }
  }

  lemma Pow2Of64()
    ensures Pow2(64) == TWO64
  {
    Pow2IsPow256(8);
    Pow256Values();
  }

  lemma Pow2Of63()
    ensures Pow2(63) < TWO64
  {
    Pow2Of64();
    assert Pow2(64) == 2 * Pow2(63);
  }

  lemma {:induction false} BitLengthBound(v: nat, n: nat)
    requires v < Pow2(n)
    ensures BitLength(v) <= n
  {
    if v > 0 {
      BitLengthBound(v / 2, n - 1);
    }
  }

  // --------------------------------------------------------- unsigned vints

  function LeadingZeros(v: u64): (n: nat)
    ensures n == 64 - BitLength(v)
  {
    Pow2Of64();
    BitLengthBound(v, 64);
    64 - BitLength(v)
  }

  function NumberOfBytes(v: u64): (n: nat) {
    (639 - 9 * LeadingZeros(v)) / 64
  }

  /** `!(0xff >> extra)` on an `i32`, sign-extended by the cast to `u64`. */
  function LengthBits(extra: nat): (m: u64) {
    TWO64 - 1 - Shr(0xff, extra)
  }

  function WithLengthBits(v: u64, extra: nat): (w: nat) {
    BitOr(v, (LengthBits(extra) * Pow256(extra)) % TWO64)
  }

  function UnsignedVintEncode(v: u64): (bs: bytes) {
    var n := NumberOfBytes(v);
    if n <= 1 then [v % 256]
    else if n != 9 then ToBE(WithLengthBits(v, n - 1), n)
    else [0xff] + ToBE(v, 8)
  }

  function Payload(first: byte): (v: nat) {
    BitAnd(first, Shr(0xff, LeadingOnes(first)))
  }

  /** The payload bits of the first byte, moved above the `extra` bytes. */
  function HighPart(first: byte): (v: nat) {
    var extra := LeadingOnes(first);
    if extra == 8 then 0 else (Payload(first) * Pow256(extra)) % TWO64
  }

  /** The sum has type `u64`: the addition in the source never overflows. */
  function UnsignedVintDecode(buf: bytes): (r: ReadResult<u64>)
    ensures r.Ok? ==> buf != [] && |r.value.rest| == |buf| - 1 - LeadingOnes(buf[0])
  {
    if buf == [] then Err(IoError)
    else
      var extra := LeadingOnes(buf[0]);
      if |buf| - 1 < extra then Err(IoError)
      else
        HighPartBound(buf[0]);
        ExtraBound(extra);
        Ok(Read(HighPart(buf[0]) + FromBE(buf[1..1 + extra]), buf[1 + extra..]))
  }

  /** A first byte that announces `e` extra bytes: `e` ones, a zero, `7 - e` payload bits. */
  function FirstByte(e: nat, h: nat): (b: byte)
    requires e <= 7 && h < Pow2(7 - e)
  {
    Pow2Values();
    256 - Pow2(8 - e) + h
  }

  lemma FirstByteReads(e: nat, h: nat)
    requires e <= 7 && h < Pow2(7 - e)
    ensures LeadingOnes(FirstByte(e, h)) == e
    ensures HighPart(FirstByte(e, h)) == h * Pow256(e)
    ensures h * Pow256(e) <= Pow2(7 * (e + 1)) - Pow256(e)
  {
    FirstByteOnes(e, h);
    FirstBytePayload(e, h);
    PayloadBound(e, h);
    ExtraBound(e);
    HighPartFits(FirstByte(e, h), Pow256(e));
  }

  lemma HighPartFits(first: byte, p: nat)
    requires LeadingOnes(first) <= 7 && p == Pow256(LeadingOnes(first))
    requires Payload(first) * p < TWO64
    ensures HighPart(first) == Payload(first) * p
  {
  }

  lemma FirstByteOnes(e: nat, h: nat)
    requires e <= 7 && h < Pow2(7 - e)
    ensures LeadingOnes(FirstByte(e, h)) == e
  {
    Pow2Values();
  }

  lemma FirstBytePayload(e: nat, h: nat)
    requires e <= 7 && h < Pow2(7 - e)
    ensures Payload(FirstByte(e, h)) == h
  {
    hide BitAnd, LeadingOnes, Shr;
    var b, p, m := FirstByte(e, h), Pow2(e), Pow2(8 - e);
    FirstByteOnes(e, h);
    assert p * m == 256 by {
      Pow2Sum(e, 8 - e);
      Pow2Values();
    }
    assert Shr(0xff, e) == m - 1 by {
      ShrOnes(8, e);
      Pow2Values();
    }
    AndMask(b, 8 - e);
    LowBits(b, p, m, h);
  }

  lemma LowBits(b: nat, p: nat, m: nat, h: nat)
    requires p * m == 256 && h < m && b == 256 - m + h
    ensures b % m == h
  {
    assert b == (p - 1) * m + h;
    DivModUnique(b, m, p - 1, h);
  }

  lemma PayloadBound(e: nat, h: nat)
    requires e <= 7 && h < Pow2(7 - e)
    ensures h * Pow256(e) <= Pow2(7 * (e + 1)) - Pow256(e)
  {
    Pow2IsPow256(e);
    Pow2Sum(7 - e, 8 * e);
    assert 7 - e + 8 * e == 7 * (e + 1);
    MulBelow(h, Pow2(7 - e), Pow256(e));
  }

  lemma ExtraBound(e: nat)
    requires e <= 8
    ensures Pow256(e) <= TWO64
    ensures e <= 7 ==> Pow2(7 * (e + 1)) < TWO64
  {
    Pow256Values();
    Pow2Of64();
    Pow2IsPow256(e);
    Pow2Monotone(8 * e, 64);
    if e <= 7 {
      Pow2Monotone(7 * (e + 1), 63);
    }
  }

  lemma FirstByteShape(first: byte) returns (h: nat)
    requires LeadingOnes(first) <= 7
    ensures h < Pow2(7 - LeadingOnes(first)) && first == FirstByte(LeadingOnes(first), h)
  {
    Pow2Values();
    h := first - 256 + Pow2(8 - LeadingOnes(first));
  }

  lemma HighPartBound(first: byte)
    ensures var e := LeadingOnes(first);
            if e <= 7 then HighPart(first) <= Pow2(7 * (e + 1)) - Pow256(e) else HighPart(first) == 0
  {
    if LeadingOnes(first) <= 7 {
      var h := FirstByteShape(first);
      FirstByteReads(LeadingOnes(first), h);
    }
  }

  /** The length formula counts groups of seven bits, nine bytes at most. */
  lemma NumberOfBytesIsGroupsOfSeven(v: u64)
    ensures NumberOfBytes(v) == if BitLength(v) > 63 then 9 else (BitLength(v) + 6) / 7
  {
    var b := BitLength(v);
    assert LeadingZeros(v) + b == 64;
    assert (63 + 9 * b) / 64 == if b > 63 then 9 else (b + 6) / 7;
  }

  /** Which values take how many bytes. */
  lemma EncodedLength(v: u64)
    ensures var n := |UnsignedVintEncode(v)|;
            && 1 <= n <= 9
            && (n <= 8 ==> v < Pow2(7 * n))
            && (n >= 2 ==> Pow2(7 * (n - 1)) <= v)
  {
    NumberOfBytesIsGroupsOfSeven(v);
    var n, b := |UnsignedVintEncode(v)|, BitLength(v);
    if n <= 8 {
      Pow2Monotone(b, 7 * n);
    }
    if n >= 2 {
      Pow2Monotone(7 * (n - 1), b - 1);
    }
  }

  /** 2^(8-e) * 256^e, the weight of the lowest length bit. */
  lemma LengthBitWeight(e: nat)
    requires e <= 7
    ensures Pow2(8 - e) * Pow256(e) == Pow2(8 + 7 * e) < TWO64
    ensures Pow2(7 - e) * Pow256(e) == Pow2(7 * (e + 1)) <= Pow2(8 + 7 * e)
  {
    hide Pow2, Pow256;
    WeightOf(8 - e, e, 8 + 7 * e);
    WeightOf(7 - e, e, 7 * (e + 1));
    Pow2Monotone(8 + 7 * e, 63);
    Pow2Monotone(7 * (e + 1), 8 + 7 * e);
    Pow2Of63();
  }

  lemma WeightOf(a: nat, e: nat, k: nat)
    requires k == a + 8 * e
    ensures Pow2(a) * Pow256(e) == Pow2(k)
  {
    hide Pow2, Pow256;
    Pow2IsPow256(e);
    Pow2Sum(a, 8 * e);
  }

  /** The length bits and the value occupy disjoint bits of the word. */
  lemma WithLengthBitsIsSum(v: u64, e: nat)
    requires 1 <= e <= 7 && v < Pow2(7 * (e + 1))
    ensures Pow2(8 + 7 * e) <= TWO64
    ensures WithLengthBits(v, e) == v + (TWO64 - Pow2(8 + 7 * e))
  {
    hide BitOr, Shr, Pow2, Pow256;
    var m, p, w := Pow2(8 - e), Pow256(e), Pow2(8 + 7 * e);
    LengthBitWeight(e);
    PowersPositive(e);
    assert LengthBits(e) == TWO64 - m by {
      ShrOnes(8, e);
      Pow2Values();
    }
    assert m < w by {
      MulBelow(1, p, m);
    }
    ShiftedOut(m, p, w);
    UpperMultiple(8 + 7 * e);
    OrDisjoint(v, TWO64 - w, 8 + 7 * e);
  }

  lemma PowersPositive(e: nat)
    requires 1 <= e <= 7
    ensures Pow2(8 - e) > 0 && Pow256(e) > 1 && Pow2(8) == 256
  {
    Pow2Values();
    Pow256Values();
  }

  lemma ShiftedOut(m: nat, p: nat, w: nat)
    requires 0 < p && m <= w < TWO64 && 0 < w == m * p
    ensures ((TWO64 - m) * p) % TWO64 == TWO64 - w
  {
    assert (TWO64 - m) * p == (p - 1) * TWO64 + (TWO64 - w);
    DivModUnique((TWO64 - m) * p, TWO64, p - 1, TWO64 - w);
  }

  lemma UpperMultiple(k: nat)
    requires k <= 64
    ensures Pow2(k) <= TWO64 && (TWO64 - Pow2(k)) % Pow2(k) == 0
  {
    Pow2Of64();
    Pow2Monotone(k, 64);
    Pow2Sum(64 - k, k);
    LessOneMultiple(Pow2(64 - k), Pow2(k));
  }

  lemma LessOneMultiple(q: nat, d: nat)
    requires d > 0
    ensures (q * d - d) % d == 0
  {
    assert q * d - d == (q - 1) * d;
    MultipleMod(q - 1, d);
  }

  lemma {:induction false} ToBESplit(h: nat, l: nat, e: nat)
    requires l < Pow256(e)
    ensures ToBE(h * Pow256(e) + l, e + 1) == [h % 256] + ToBE(l, e)
  {
    if e > 0 {
      var p := Pow256(e - 1);
      ToBESplit(h, l / 256, e - 1);
      SplitStep(h, p, l);
    }
  }

  lemma SplitStep(h: nat, p: nat, l: nat)
    ensures var x := h * (256 * p) + l; x / 256 == h * p + l / 256 && x % 256 == l % 256
  {
    assert h * (256 * p) == 256 * (h * p);
  }

  lemma Pow256Sum(a: nat, b: nat)
    ensures Pow256(a + b) == Pow256(a) * Pow256(b)
  {
    Pow2IsPow256(a);
    Pow2IsPow256(b);
    Pow2IsPow256(a + b);
    Pow2Sum(8 * a, 8 * b);
  }

  lemma HighByteBound(v: nat, p: nat, m: nat)
    requires p > 0 && v < m * p
    ensures v / p < m
  {
    DivMod(v, p);
    if v / p >= m {
      MulMonotone(m, v / p, p);
    }
  }

  lemma LengthBitsInFirstByte(v: nat, k: nat, m: nat, p: nat)
    requires p > 0 && m <= 256 * k
    ensures v + (k * 256 * p - m * p) == (k * 256 - m + v / p) * p + v % p
  {
    DivMod(v, p);
  }

  lemma WordSplit(e: nat)
    requires e <= 7
    ensures Pow256(7 - e) * 256 * Pow256(e) == TWO64
  {
    Pow256Sum(7 - e, 1);
    Pow256Sum(8 - e, e);
    Pow256Values();
  }

  /** What a code of two to eight bytes looks like. */
  lemma EncodeShape(v: u64, e: nat, h: nat, l: nat)
    requires 1 <= e <= 7 && |UnsignedVintEncode(v)| == e + 1
    requires h == v / Pow256(e) && l == v % Pow256(e)
    ensures h < Pow2(7 - e) && l < Pow256(e) && v == h * Pow256(e) + l
    ensures UnsignedVintEncode(v) == [FirstByte(e, h)] + ToBE(l, e)
  {
    EncodedLength(v);
    LengthBitWeight(e);
    HighByteBound(v, Pow256(e), Pow2(7 - e));
    DivMod(v, Pow256(e));
    assert UnsignedVintEncode(v) == ToBE(WithLengthBits(v, e), e + 1) by {
      NumberOfBytesIsGroupsOfSeven(v);
    }
    LowBytesOfWord(v, e, h, l);
  }

  lemma LowBytesOfWord(v: u64, e: nat, h: nat, l: nat)
    requires 1 <= e <= 7 && v < Pow2(7 * (e + 1))
    requires h == v / Pow256(e) < Pow2(7 - e) && l == v % Pow256(e)
    ensures ToBE(WithLengthBits(v, e), e + 1) == [FirstByte(e, h)] + ToBE(l, e)
  {
    hide *;
    var p, m, k := Pow256(e), Pow2(8 - e), Pow256(7 - e);
    WithLengthBitsIsSum(v, e);
    LengthBitWeight(e);
    WordSplit(e);
    FirstByteWraps(e, h, k);
    LengthBitsInFirstByte(v, k, m, p);
    DivMod(v, p);
    ToBESplit(k * 256 - m + h, l, e);
  }

  lemma FirstByteWraps(e: nat, h: nat, k: nat)
    requires e <= 7 && h < Pow2(7 - e) && k >= 1
    ensures Pow2(8 - e) <= 256 && (k * 256 - Pow2(8 - e) + h) % 256 == FirstByte(e, h)
  {
    Pow2Values();
  }

  lemma DecodeShape(e: nat, h: nat, l: nat, suffix: bytes)
    requires e <= 7 && h < Pow2(7 - e) && l < Pow256(e)
    ensures UnsignedVintDecode([FirstByte(e, h)] + ToBE(l, e) + suffix)
            == Ok(Read(h * Pow256(e) + l, suffix))
  {
    hide *;
    var buf := [FirstByte(e, h)] + ToBE(l, e) + suffix;
    FirstByteReads(e, h);
    FromToBE(l, e);
    assert buf[0] == FirstByte(e, h) && buf[1..1 + e] == ToBE(l, e) && buf[1 + e..] == suffix;
    DecodedParts(buf, h * Pow256(e), l);
  }

  lemma ShortRoundTrip(v: u64, suffix: bytes)
    requires |UnsignedVintEncode(v)| == 1
    ensures UnsignedVintDecode(UnsignedVintEncode(v) + suffix) == Ok(Read(v, suffix))
  {
    assert v < 128 && UnsignedVintEncode(v) == [v] by {
      OneByte(v);
    }
    SingleByte(v, suffix);
  }

  lemma OneByte(v: u64)
    requires |UnsignedVintEncode(v)| == 1
    ensures v < 128 && UnsignedVintEncode(v) == [v]
  {
    hide Pow2, NumberOfBytes, ToBE, WithLengthBits;
    EncodedLength(v);
    Pow2Values();
    assert NumberOfBytes(v) <= 1;
  }

  lemma SingleByte(v: byte, suffix: bytes)
    requires v < 128
    ensures UnsignedVintDecode([v] + suffix) == Ok(Read(v, suffix))
  {
    Pow2Values();
    DecodeShape(0, v, 0, suffix);
    assert [v] + suffix == [FirstByte(0, v)] + ToBE(0, 0) + suffix;
  }

  lemma SplitAt(v: nat, p: nat) returns (h: nat, l: nat)
    requires p > 0
    ensures h == v / p && l == v % p
  {
    h, l := v / p, v % p;
  }

  lemma MiddleRoundTrip(v: u64, e: nat, h: nat, l: nat, suffix: bytes)
    requires 1 <= e <= 7 && |UnsignedVintEncode(v)| == e + 1
    requires h == v / Pow256(e) && l == v % Pow256(e)
    ensures UnsignedVintDecode(UnsignedVintEncode(v) + suffix) == Ok(Read(v, suffix))
  {
    hide *;
    EncodeShape(v, e, h, l);
    DecodeShape(e, h, l, suffix);
  }

  lemma LongRoundTrip(v: u64, suffix: bytes)
    requires |UnsignedVintEncode(v)| == 9
    ensures UnsignedVintDecode(UnsignedVintEncode(v) + suffix) == Ok(Read(v, suffix))
  {
    assert UnsignedVintEncode(v) == [0xff] + ToBE(v, 8);
    var buf := [0xff] + ToBE(v, 8) + suffix;
    assert buf[0] == 0xff && buf[1..9] == ToBE(v, 8) && buf[9..] == suffix;
    Pow256Values();
    FromToBE(v, 8);
    DecodedParts(buf, 0, v);
  }

  /** Decoding what was encoded returns the value and leaves what follows. */
  lemma UnsignedVintRoundTrip(v: u64, suffix: bytes)
    ensures UnsignedVintDecode(UnsignedVintEncode(v) + suffix) == Ok(Read(v, suffix))
  {
    EncodedLength(v);
    var e := |UnsignedVintEncode(v)| - 1;
    if e == 0 {
      ShortRoundTrip(v, suffix);
    } else if e == 8 {
      LongRoundTrip(v, suffix);
    } else {
      var h, l := SplitAt(v, Pow256(e));
      MiddleRoundTrip(v, e, h, l, suffix);
    }
  }

  /** No shorter code decodes to the same value. */
  lemma UnsignedVintMinimal(buf: bytes)
    requires UnsignedVintDecode(buf).Ok?
    ensures var d := UnsignedVintDecode(buf).value;
            |UnsignedVintEncode(d.value)| <= |buf| - |d.rest|
  {
    var d := UnsignedVintDecode(buf).value;
    var e := LeadingOnes(buf[0]);
    EncodedLength(d.value);
    if e <= 7 {
      HighPartBound(buf[0]);
      assert d.value < Pow2(7 * (e + 1));
      var n := |UnsignedVintEncode(d.value)|;
      if n > e + 1 {
        Pow2Monotone(7 * (e + 1), 7 * (n - 1));
        assert false;
      }
    }
  }

  /** A code is the encoder's exactly when it is as short. */
  lemma ShortestIsEncoded(buf: bytes)
    requires UnsignedVintDecode(buf).Ok?
    ensures var d := UnsignedVintDecode(buf).value;
            |UnsignedVintEncode(d.value)| == |buf| - |d.rest| <==> buf == UnsignedVintEncode(d.value) + d.rest
  {
    hide UnsignedVintEncode, HighPart, LeadingOnes, FromBE, ToBE;
    var d := UnsignedVintDecode(buf).value;
    var e := LeadingOnes(buf[0]);
    if |UnsignedVintEncode(d.value)| == 1 + e {
      var mid := buf[1..1 + e];
      ToFromBE(mid);
      assert buf == [buf[0]] + mid + d.rest;
      HighPartBound(buf[0]);
      if e == 8 {
        LongCode(buf[0], mid, d.value);
      } else {
        ShortCode(buf[0], mid, d.value);
      }
    }
  }

  lemma LongCode(first: byte, mid: bytes, v: u64)
    requires LeadingOnes(first) == |mid| == 8 && v == FromBE(mid) && ToBE(v, 8) == mid
    requires |UnsignedVintEncode(v)| == 9
    ensures UnsignedVintEncode(v) == [first] + mid
  {
    hide NumberOfBytes, WithLengthBits;
  }

  lemma ShortCode(first: byte, mid: bytes, v: u64)
    requires LeadingOnes(first) == |mid| <= 7 && v == HighPart(first) + FromBE(mid)
    requires FromBE(mid) < Pow256(|mid|) && ToBE(FromBE(mid), |mid|) == mid
    requires |UnsignedVintEncode(v)| == 1 + |mid|
    ensures UnsignedVintEncode(v) == [first] + mid
  {
    hide UnsignedVintEncode, LeadingOnes, HighPart, FromBE, ToBE;
    var e := |mid|;
    var h := FirstByteShape(first);
    FirstByteReads(e, h);
    if e == 0 {
      OneByteCode(first, mid, v, h);
    } else {
      DivModUnique(v, Pow256(e), h, FromBE(mid));
      EncodeShape(v, e, h, FromBE(mid));
    }
  }

  lemma OneByteCode(first: byte, mid: bytes, v: u64, h: nat)
    requires mid == [] && h < Pow2(7) && first == FirstByte(0, h) && v == h * Pow256(0) + FromBE(mid)
    requires |UnsignedVintEncode(v)| == 1
    ensures UnsignedVintEncode(v) == [first] + mid
  {
    hide UnsignedVintEncode, Pow2;
    OneByte(v);
    Pow2Values();
    Pow256Values();
    assert first == h;
  }

  // ---------------------------------------------------------------- zig-zag

  function AsU64(v: i64): (u: u64) {
    if v < 0 then v + TWO64 else v
  }

  function AsI64(u: u64): (v: i64) {
    if u < TWO63 then u else u - TWO64
  }

  /** `((v >> 63) ^ (v << 1)) as u64`, with an arithmetic right shift. */
  function ZigZagEncode(v: i64): (u: u64)
    ensures u == if v < 0 then -2 * v - 1 else 2 * v
  {
    hide BitXor;
    var shifted := (2 * AsU64(v)) % TWO64;
    XorSign(shifted);
    BitXor(shifted, AsU64(if v < 0 then -1 else 0))
  }

  /** `((v >> 1) as i64) ^ -((v & 1) as i64)`. */
  function ZigZagDecode(u: u64): (v: i64)
    ensures v == if u % 2 == 0 then u / 2 else -(u / 2) - 1
  {
    hide BitXor;
    XorSign(u / 2);
    AsI64(BitXor(u / 2, AsU64(-(u % 2))))
  }

  lemma XorSign(x: u64)
    ensures BitXor(x, AsU64(0)) == x && BitXor(x, AsU64(-1)) == TWO64 - 1 - x
  {
    Pow2Of64();
    XorZero(x);
    XorOnes(x, 64);
  }

  /** Zig-zag is a bijection between `i64` and `u64`. */
  lemma ZigZagBijection(v: i64, u: u64)
    ensures ZigZagDecode(ZigZagEncode(v)) == v
    ensures ZigZagEncode(ZigZagDecode(u)) == u
  {
  }

  function VintEncode(v: i64): (bs: bytes) {
    UnsignedVintEncode(ZigZagEncode(v))
  }

  function VintDecode(buf: bytes): (r: ReadResult<i64>) {
    var u :- UnsignedVintDecode(buf);
    Ok(Read(ZigZagDecode(u.value), u.rest))
  }

  lemma VintRoundTrip(v: i64, suffix: bytes)
    ensures VintDecode(VintEncode(v) + suffix) == Ok(Read(v, suffix))
  {
    hide UnsignedVintEncode, UnsignedVintDecode, ZigZagEncode, ZigZagDecode;
    UnsignedVintRoundTrip(ZigZagEncode(v), suffix);
    ZigZagBijection(v, 0);
  }

  // ------------------------------------------------------ the code's own form

  method EncodeUnsignedVint(value: u64, buf: Buffer)
    modifies buf
    ensures buf.data == old(buf.data) + UnsignedVintEncode(value)
  {
    var v: nat := value;
    var numberOfBytes := (639 - 9 * LeadingZeros(value)) / 64;
    if numberOfBytes <= 1 {
      buf.PutU8(v % 256);
      return;
    }
    if numberOfBytes != 9 {
      var extraBytes := numberOfBytes - 1;
      v := BitOr(v, (LengthBits(extraBytes) * Pow256(extraBytes)) % TWO64);
    } else {
      buf.PutU8(0xff);
      numberOfBytes := numberOfBytes - 1;
    }
    buf.PutUint(v, numberOfBytes);
  }

  method DecodeUnsignedVint(buf: Cursor) returns (r: Result<u64, LowLevelError>)
    modifies buf
    ensures r.Ok? <==> UnsignedVintDecode(old(buf.rest)).Ok?
    ensures r.Ok? ==> UnsignedVintDecode(old(buf.rest)) == Ok(Read(r.value, buf.rest))
  {
    ghost var start := buf.rest;
    var first :- buf.ReadU8();
    var extraBytes := LeadingOnes(first);
    var v: nat := 0;
    if extraBytes != 8 {
      v := (Payload(first) * Pow256(extraBytes)) % TWO64;
    }
    if extraBytes == 0 {
      DecodedParts(start, v, 0);
      return Ok(v);
    }
    var low :- buf.ReadUint(extraBytes);
    assert start[1..][..extraBytes] == start[1..1 + extraBytes];
    DecodedParts(start, v, low);
    return Ok(v + low);
  }

  lemma DecodedParts(buf: bytes, high: nat, low: nat)
    requires buf != [] && high == HighPart(buf[0])
    requires var e := LeadingOnes(buf[0]); 1 + e <= |buf| && low == FromBE(buf[1..1 + e])
    ensures UnsignedVintDecode(buf) == Ok(Read(high + low, buf[1 + LeadingOnes(buf[0])..]))
  {
  }
}
