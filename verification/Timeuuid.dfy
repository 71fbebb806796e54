/**
  The order of `timeuuid` values. Models scylla-cql/src/value.rs:156-182 and
  224-251.
 */
module Timeuuid {
  import opened Arith
  import opened Wire
  import opened Vint
  import opened CqlTypes

  function Msb(u: Octets16): (v: nat) {
    FromBE([BitAnd(u[6], 0x0f) % 256, u[7], u[4], u[5], u[0], u[1], u[2], u[3]])
  }

  function Lsb(u: Octets16): (v: nat) {
    FromBE(u[8..])
  }

  const SIGN_BITS: nat := 0x8080_8080_8080_8080

  function LsbSigned(u: Octets16): (v: nat) {
    BitXor(Lsb(u), SIGN_BITS)
  }

  datatype Ordering = Less | Same | Greater

  function CompareNat(a: nat, b: nat): (o: Ordering) {
    if a < b then Less else if a == b then Same else Greater
  }

  function Compare(a: Octets16, b: Octets16): (o: Ordering) {
    var o := CompareNat(Msb(a), Msb(b));
    if o.Same? then CompareNat(LsbSigned(a), LsbSigned(b)) else o
  }

  /** What a hasher is fed. */
  function HashInput(u: Octets16): (r: (nat, nat)) {
    (LsbSigned(u), Msb(u))
  }

  // --------------------------------------------------------------- the timestamp

  /** The 60-bit timestamp of section 4.1.4 of RFC 4122: time_hi, time_mid, time_low. */
  function Timestamp(u: Octets16): (t: nat) {
    (FromBE(u[6..8]) % 0x1000) * 0x1_0000_0000_0000 + FromBE(u[4..6]) * 0x1_0000_0000 + FromBE(u[..4])
  }

  lemma Join2(a: byte, b: byte)
    ensures FromBE([a, b]) == a * 256 + b
  {
    assert [a, b][..1] == [a] && [a][..0] == [];
    assert FromBE([a]) == a;
  }

  /** Dropping the high nibble of the first byte drops the version from the pair. */
  lemma VersionDropped(first: int, second: int)
    requires 0 <= first < 256 && 0 <= second < 256
    ensures (first * 256 + second) % 0x1000 == (first % 16) * 256 + second
  {
    DivMod(first, 16);
    DivModUnique(first * 256 + second, 0x1000, first / 16, (first % 16) * 256 + second);
  }

  lemma SixtyBits(hi: int, mid: int, low: int)
    requires 0 <= hi < 0x1000 && 0 <= mid < 0x1_0000 && 0 <= low < 0x1_0000_0000
    ensures hi * 0x1_0000_0000_0000 + (mid * 0x1_0000_0000 + low) < 0x1000_0000_0000_0000
  {
  }

  /** The eight reordered bytes as three numbers. */
  lemma ThreeParts(hi: bytes, mid: bytes, low: bytes)
    requires |hi| == |mid| == 2 && |low| == 4
    ensures FromBE(hi + (mid + low)) == FromBE(hi) * 0x1_0000_0000_0000 + (FromBE(mid) * 0x1_0000_0000 + FromBE(low))
    ensures FromBE(mid) < 0x1_0000 && FromBE(low) < 0x1_0000_0000
  {
    hide FromBE;
    Pow256Values();
    FromBEConcat(mid, low);
    FromBEConcat(hi, mid + low);
    FromBEBound(mid);
    FromBEBound(low);
  }

  lemma MsbIsTimestamp(u: Octets16)
    ensures Msb(u) == Timestamp(u) < 0x1000_0000_0000_0000
  {
    hide FromBE, BitAnd, Pow256;
    Nibble(u[6]);
    var nibble: byte := u[6] % 16;
    var hi, mid, low := [nibble, u[7]], [u[4], u[5]], [u[0], u[1], u[2], u[3]];
    assert [nibble, u[7], u[4], u[5], u[0], u[1], u[2], u[3]] == hi + (mid + low);
    ThreeParts(hi, mid, low);
    Join2(nibble, u[7]);
    Join2(u[6], u[7]);
    VersionDropped(u[6], u[7]);
    assert u[6..8] == [u[6], u[7]] && u[4..6] == mid && u[..4] == low;
    SixtyBits(FromBE(hi), FromBE(mid), FromBE(low));
  }

  lemma FromBEBound(bs: bytes)
    ensures FromBE(bs) < Pow256(|bs|)
  {
  }

  lemma Nibble(b: byte)
    ensures BitAnd(b, 0x0f) == b % 16
  {
    Pow2Values();
    AndMask(b, 4);
  }

  // ------------------------------------------------------------- the signed bytes

  /** The byte with its sign bit flipped. */
  function Flip(b: byte): (f: byte) {
    if b < 0x80 then b + 0x80 else b - 0x80
  }

  function FlipAll(bs: bytes): (r: bytes)
    ensures |r| == |bs| && forall i :: 0 <= i < |bs| ==> r[i] == Flip(bs[i])
  {
    seq(|bs|, i requires 0 <= i < |bs| => Flip(bs[i]))
  }

  /** Xor works on the high and the low bits apart. */
  lemma {:induction false} XorSplit(h: nat, l: nat, h': nat, l': nat, k: nat)
    requires l < Pow2(k) && l' < Pow2(k)
    ensures BitXor(h * Pow2(k) + l, h' * Pow2(k) + l') == BitXor(h, h') * Pow2(k) + BitXor(l, l')
    decreases k
  {
    hide BitXor;
    if k == 0 {
      assert l == l' == 0 && Pow2(0) == 1;
      NothingFlips();
    } else {
      var p := Pow2(k - 1);
      XorSplit(h, l / 2, h', l' / 2, k - 1);
      XorDouble(h, l, h', l', p);
    }
  }

  lemma XorDouble(h: nat, l: nat, h': nat, l': nat, p: nat)
    requires BitXor(h * p + l / 2, h' * p + l' / 2) == BitXor(h, h') * p + BitXor(l / 2, l' / 2)
    ensures BitXor(h * (2 * p) + l, h' * (2 * p) + l') == BitXor(h, h') * (2 * p) + BitXor(l, l')
  {
    hide BitXor;
    Halves(h, p, l);
    Halves(h', p, l');
    XorStep(h * (2 * p) + l, h' * (2 * p) + l');
    XorStep(l, l');
    Halves(BitXor(h, h'), p, 0);
  }

  lemma Halves(h: nat, p: nat, l: nat)
    ensures (h * (2 * p) + l) / 2 == h * p + l / 2
    ensures (h * (2 * p) + l) % 2 == l % 2
  {
    assert h * (2 * p) == 2 * (h * p);
  }

  lemma XorStep(a: nat, b: nat)
    ensures BitXor(a, b) == (if a % 2 != b % 2 then 1 else 0) + 2 * BitXor(a / 2, b / 2)
  {
    if a == 0 && b == 0 {
      assert BitXor(0, 0) == 0;
    }
  }

  lemma XorSignBit(b: byte)
    ensures BitXor(b, 0x80) == Flip(b)
  {
    Pow2Values();
    XorSplit(b / 128, b % 128, 1, 0, 7);
    XorZero(b % 128);
    XorStep(b / 128, 1);
    assert BitXor(0, 0) == 0;
  }

  /** `n` bytes of sign bits. */
  function SignBits(n: nat): (bs: bytes)
    ensures |bs| == n && forall i :: 0 <= i < n ==> bs[i] == 0x80
  {
    seq(n, _ => 0x80)
  }

  lemma SignBitsInit(n: nat)
    ensures SignBits(n + 1)[..n] == SignBits(n) && SignBits(n + 1)[n] == 0x80
  {
  }

  lemma FlipInit(bs: bytes)
    requires bs != []
    ensures var n := |bs| - 1; FlipAll(bs)[..n] == FlipAll(bs[..n]) && FlipAll(bs)[n] == Flip(bs[n])
  {
  }

  lemma NothingFlips()
    ensures FromBE([]) == 0 && BitXor(0, 0) == 0
  {
  }

  lemma {:induction false} XorFlips(bs: bytes)
    ensures BitXor(FromBE(bs), FromBE(SignBits(|bs|))) == FromBE(FlipAll(bs))
  {
    hide BitXor, FromBE, Flip;
    if bs == [] {
      NothingFlips();
      assert SignBits(0) == [] && FlipAll(bs) == [];
    } else {
      var n := |bs| - 1;
      var init := bs[..n];
      XorFlips(init);
      LastByte(bs);
      LastByte(SignBits(n + 1));
      LastByte(FlipAll(bs));
      SignBitsInit(n);
      FlipInit(bs);
      XorLastByte(FromBE(init), bs[n], FromBE(SignBits(n)));
    }
  }

  lemma LastByte(bs: bytes)
    requires bs != []
    ensures FromBE(bs) == FromBE(bs[..|bs| - 1]) * 256 + bs[|bs| - 1]
  {
  }

  lemma XorLastByte(h: nat, b: byte, h': nat)
    ensures BitXor(h * 256 + b, h' * 256 + 0x80) == BitXor(h, h') * 256 + Flip(b)
  {
    hide BitXor;
    Pow2Values();
    XorSplit(h, b, h', 0x80, 8);
    XorSignBit(b);
  }

  lemma SignBitsValue()
    ensures FromBE(SignBits(8)) == SIGN_BITS
  {
    Pow256Values();
    var two, four := SignBits(2), SignBits(4);
    Join2(0x80, 0x80);
    assert two == [0x80, 0x80];
    FromBEConcat(two, two);
    assert two + two == four;
    FromBEConcat(four, four);
    assert four + four == SignBits(8);
  }

  /** Flipping the sign bits of all bytes at once flips them byte by byte. */
  lemma LsbSignedIsFlipped(u: Octets16)
    ensures LsbSigned(u) == FromBE(FlipAll(u[8..]))
  {
    hide FromBE, BitXor;
    SignBitsValue();
    XorFlips(u[8..]);
  }

  function AsI8(b: byte): (s: int) {
    if b < 0x80 then b else b - 0x100
  }

  /** Lexicographic order of signed bytes. */
  predicate SignedLess(a: bytes, b: bytes)
    requires |a| == |b|
  {
    a != [] && (AsI8(a[0]) < AsI8(b[0]) || (a[0] == b[0] && SignedLess(a[1..], b[1..])))
  }

  lemma FlipOrder(x: byte, y: byte)
    ensures Flip(x) < Flip(y) <==> AsI8(x) < AsI8(y)
    ensures Flip(x) == Flip(y) <==> x == y
  {
  }

  /** Big-endian numbers compare by their first byte, then by the rest. */
  lemma {:induction false} FlippedOrder(a: bytes, b: bytes)
    requires |a| == |b|
    ensures FromBE(FlipAll(a)) < FromBE(FlipAll(b)) <==> SignedLess(a, b)
    ensures FromBE(FlipAll(a)) == FromBE(FlipAll(b)) <==> a == b
  {
    hide FromBE, Flip, AsI8, Pow256;
    if a != [] {
      FlipOrder(a[0], b[0]);
      FlippedOrder(a[1..], b[1..]);
      var x, y := FlipAll(a), FlipAll(b);
      LeadingByte(x);
      LeadingByte(y);
      FromBEBound(x[1..]);
      FromBEBound(y[1..]);
      assert x[1..] == FlipAll(a[1..]) && y[1..] == FlipAll(b[1..]);
      HeadFirst(x[0], FromBE(x[1..]), y[0], FromBE(y[1..]), Pow256(|a| - 1));
      assert a == [a[0]] + a[1..] && b == [b[0]] + b[1..];
    }
  }

  lemma HeadFirst(x: nat, low: nat, y: nat, low': nat, p: nat)
    requires low < p && low' < p
    ensures x * p + low < y * p + low' <==> x < y || (x == y && low < low')
    ensures x * p + low == y * p + low' <==> x == y && low == low'
  {
    if x < y {
      MulBelow(x, y, p);
    } else if y < x {
      MulBelow(y, x, p);
    }
  }

  // ------------------------------------------------------------------ theorems

  /** The timestamps decide, then the low bytes as signed bytes one after the other. */
  lemma CompareMeaning(a: Octets16, b: Octets16)
    ensures Compare(a, b).Less?
            <==> Timestamp(a) < Timestamp(b) || (Timestamp(a) == Timestamp(b) && SignedLess(a[8..], b[8..]))
    ensures Compare(a, b).Same? <==> Timestamp(a) == Timestamp(b) && a[8..] == b[8..]
  {
    hide Msb, LsbSigned, Timestamp, FromBE;
    MsbIsTimestamp(a);
    MsbIsTimestamp(b);
    LsbSignedIsFlipped(a);
    LsbSignedIsFlipped(b);
    FlippedOrder(a[8..], b[8..]);
  }

  predicate AgreeButVersion(a: Octets16, b: Octets16) {
    (forall i :: 0 <= i < 16 && i != 6 ==> a[i] == b[i]) && a[6] % 16 == b[6] % 16
  }

  /** Values compare equal iff their bytes agree outside the version nibble. */
  lemma SameExactlyWhen(a: Octets16, b: Octets16)
    ensures Compare(a, b).Same? <==> AgreeButVersion(a, b)
  {
    hide Msb, Timestamp, Compare, FromBE;
    CompareMeaning(a, b);
    MsbIsTimestamp(a);
    MsbIsTimestamp(b);
    SameHigh(a, b);
    assert forall i :: 8 <= i < 16 ==> a[i] == a[8..][i - 8] && b[i] == b[8..][i - 8];
  }

  /** The bytes of the timestamp but for the version. */
  function HighBytes(u: Octets16): (bs: bytes) {
    [u[6] % 16, u[7], u[4], u[5], u[0], u[1], u[2], u[3]]
  }

  lemma SameHigh(a: Octets16, b: Octets16)
    ensures Msb(a) == Msb(b)
            <==> (forall i :: 0 <= i < 8 && i != 6 ==> a[i] == b[i]) && a[6] % 16 == b[6] % 16
  {
    hide FromBE, Msb, HighBytes;
    MsbOfHigh(a);
    MsbOfHigh(b);
    ToFromBE(HighBytes(a));
    ToFromBE(HighBytes(b));
    SameHighBytes(a, b);
  }

  lemma MsbOfHigh(u: Octets16)
    ensures Msb(u) == FromBE(HighBytes(u)) && |HighBytes(u)| == 8
  {
    hide FromBE, BitAnd;
    Nibble(u[6]);
  }

  lemma SameHighBytes(a: Octets16, b: Octets16)
    ensures HighBytes(a) == HighBytes(b)
            <==> (forall i :: 0 <= i < 8 && i != 6 ==> a[i] == b[i]) && a[6] % 16 == b[6] % 16
  {
    var x, y := HighBytes(a), HighBytes(b);
    if x == y {
      assert x[0] == y[0] && x[1] == y[1] && x[2] == y[2] && x[3] == y[3];
      assert x[4] == y[4] && x[5] == y[5] && x[6] == y[6] && x[7] == y[7];
    }
  }

  function Reversed(o: Ordering): (r: Ordering) {
    match o
    case Less => Greater
    case Same => Same
    case Greater => Less
  }

  lemma TotalOrder(a: Octets16, b: Octets16, c: Octets16)
    ensures Compare(a, a).Same?
    ensures Compare(b, a) == Reversed(Compare(a, b))
    ensures !Compare(a, b).Greater? && !Compare(b, c).Greater? ==> !Compare(a, c).Greater?
    ensures Compare(a, b).Same? ==> Compare(a, c) == Compare(b, c)
  {
    hide Msb, LsbSigned;
  }

  /** Values hash alike iff they compare equal. */
  lemma HashAgrees(a: Octets16, b: Octets16)
    ensures HashInput(a) == HashInput(b) <==> AgreeButVersion(a, b)
  {
    hide Msb, LsbSigned, AgreeButVersion;
    SameExactlyWhen(a, b);
  }
}
