/**
  Normalization and equality of `varint` byte strings. Models
  scylla-cql/src/value.rs:365-418. A byte string denotes a number in two's
  complement, the empty one denotes zero.
 */
module Varint {
  import opened Wire

  /** The first non-zero byte. */
  function Position(digits: bytes): (p: Option<nat>)
    ensures p.Some? ==> p.value < |digits| && digits[p.value] != 0
    ensures p.Some? ==> forall i :: 0 <= i < p.value ==> digits[i] == 0
    ensures p.None? ==> forall i :: 0 <= i < |digits| ==> digits[i] == 0
  {
    if digits == [] then None
    else if digits[0] != 0 then Some(0)
    else
      match Position(digits[1..])
      case None => None
      case Some(p) => Some(p + 1)
  }

  function Normalize(digits: bytes): (r: bytes)
    ensures r != []
  {
    match Position(digits)
    case None => [0]
    case Some(p) =>
      if p == 0 then digits
      else if digits[p] > 0x7f then digits[p - 1..]
      else digits[p..]
  }

  predicate Equal(a: bytes, b: bytes) {
    Normalize(a) == Normalize(b)
  }

  // ------------------------------------------------------------- leading zeros

  function Trim(digits: bytes): (r: bytes)
    ensures r != [] ==> r[0] != 0
    ensures |r| <= |digits|
  {
    if digits == [] then [] else if digits[0] == 0 then Trim(digits[1..]) else digits
  }

  lemma {:induction false} TrimIsSuffix(digits: bytes)
    ensures match Position(digits)
            case None => Trim(digits) == []
            case Some(p) => Trim(digits) == digits[p..]
  {
    if digits != [] && digits[0] == 0 {
      TrimIsSuffix(digits[1..]);
    }
  }

  lemma DropZero(rest: bytes)
    ensures FromBE([0] + rest) == FromBE(rest)
  {
    FromBEConcat([0], rest);
    assert FromBE([0]) == 0;
  }

  lemma {:induction false} TrimKeepsValue(digits: bytes)
    ensures FromBE(Trim(digits)) == FromBE(digits)
  {
    if digits != [] && digits[0] == 0 {
      TrimKeepsValue(digits[1..]);
      assert digits == [0] + digits[1..];
      DropZero(digits[1..]);
    }
  }

  lemma Bounds(x: int, p: int, low: int)
    requires 0 <= x < 256 && p >= 1 && 0 <= low < p
    ensures 2 * (x * p + low) < 256 * p <==> x < 128
    ensures x > 0 ==> x * p + low >= p
  {
    if x < 128 {
      assert x * p <= 127 * p;
    } else {
      assert x * p >= 128 * p;
    }
    if x > 0 {
      assert x * p >= 1 * p;
    }
  }

  /** The top bit is the sign. */
  lemma SignBit(bs: bytes)
    requires bs != []
    ensures FromSignedBE(bs) >= 0 <==> bs[0] < 0x80
    ensures bs[0] < 0x80 ==> FromSignedBE(bs) == FromBE(bs)
    ensures bs[0] >= 0x80 ==> FromSignedBE(bs) == FromBE(bs) - Pow256(|bs|)
  {
    LeadingByte(bs);
    Bounds(bs[0], Pow256(|bs| - 1), FromBE(bs[1..]));
  }

  predicate Negative(digits: bytes) {
    digits != [] && digits[0] >= 0x80
  }

  /** Negative strings are left alone; others are their trimmed bytes after at most one zero. */
  lemma NormalForm(digits: bytes)
    ensures Negative(digits) ==> Normalize(digits) == digits
    ensures !Negative(digits) ==>
              var t := Trim(digits);
              Normalize(digits) == if t == [] || t[0] >= 0x80 then [0] + t else t
  {
    hide Trim, Position;
    TrimIsSuffix(digits);
    match Position(digits)
    case None => assert [0] + [] == [0];
    case Some(p) =>
      if p == 0 {
        assert digits[0..] == digits;
      } else {
        assert digits[p - 1..] == [0] + digits[p..] && digits[p..][0] == digits[p];
      }
  }

  // ------------------------------------------------------------------ theorems

  /** Normalization keeps the number and is idempotent. */
  lemma NormalizeKeepsValue(digits: bytes)
    ensures FromSignedBE(Normalize(digits)) == FromSignedBE(digits)
    ensures Normalize(Normalize(digits)) == Normalize(digits)
  {
    hide FromSignedBE, FromBE;
    NormalForm(digits);
    if !Negative(digits) {
      NonNegativeValue(digits);
      TrimKeepsValue(digits);
      var t := Trim(digits);
      DropZero(t);
      SignBit(Normalize(digits));
      NormalForm(Normalize(digits));
      TrimAgain(t);
    }
  }

  lemma NonNegativeValue(digits: bytes)
    requires !Negative(digits)
    ensures FromSignedBE(digits) == FromBE(digits)
  {
    if digits != [] {
      SignBit(digits);
    }
  }

  lemma TrimAgain(t: bytes)
    requires t != [] ==> t[0] != 0
    ensures Trim(t) == t && Trim([0] + t) == t
  {
    assert ([0] + t)[1..] == t;
  }

  /** Byte strings without leading zeros are equal if their numbers are. */
  lemma TrimmedUnique(a: bytes, b: bytes)
    requires (a != [] ==> a[0] != 0) && (b != [] ==> b[0] != 0) && FromBE(a) == FromBE(b)
    ensures a == b
  {
    if |a| < |b| {
      LongerIsMore(a, b);
    } else if |b| < |a| {
      LongerIsMore(b, a);
    }
    ToFromBE(a);
    ToFromBE(b);
  }

  lemma LongerIsMore(a: bytes, b: bytes)
    requires |a| < |b| && b[0] != 0
    ensures FromBE(a) < FromBE(b)
  {
    LeadingByte(b);
    Bounds(b[0], Pow256(|b| - 1), FromBE(b[1..]));
    Pow256Monotone(|a|, |b| - 1);
  }

  lemma {:induction false} Pow256Monotone(a: nat, b: nat)
    requires a <= b
    ensures Pow256(a) <= Pow256(b)
  {
    if a < b {
      Pow256Monotone(a, b - 1);
    }
  }

  lemma SameTrim(a: bytes, b: bytes)
    requires !Negative(a) && !Negative(b) && FromBE(a) == FromBE(b)
    ensures Normalize(a) == Normalize(b)
  {
    hide FromBE;
    TrimKeepsValue(a);
    TrimKeepsValue(b);
    TrimmedUnique(Trim(a), Trim(b));
    NormalForm(a);
    NormalForm(b);
  }

  /** Equal strings denote equal numbers; the converse needs equal lengths below zero. */
  lemma EqualExactlyWhen(a: bytes, b: bytes)
    ensures Equal(a, b) <==> FromSignedBE(a) == FromSignedBE(b) && (FromSignedBE(a) >= 0 || |a| == |b|)
  {
    hide FromSignedBE, FromBE, Normalize;
    NormalizeKeepsValue(a);
    NormalizeKeepsValue(b);
    NormalForm(a);
    NormalForm(b);
    Signs(a);
    Signs(b);
    if FromSignedBE(a) == FromSignedBE(b) {
      if FromSignedBE(a) >= 0 {
        NonNegativeValue(a);
        NonNegativeValue(b);
        SameTrim(a, b);
      } else if |a| == |b| {
        ToFromSignedBE(a);
        ToFromSignedBE(b);
      }
    }
  }

  lemma Signs(digits: bytes)
    ensures FromSignedBE(digits) < 0 <==> Negative(digits)
  {
    if digits != [] {
      SignBit(digits);
    }
  }

  /** Minus one in one byte and in two: equal numbers, different strings. */
  lemma LeadingOnesNotCollapsed()
    ensures FromSignedBE([0xff]) == FromSignedBE([0xff, 0xff]) == -1 && !Equal([0xff], [0xff, 0xff])
  {
    Pow256Values();
    assert [0xff, 0xff][..1] == [0xff] && [0xff][..0] == [];
    assert FromBE([0xff]) == 0xff && FromBE([0xff, 0xff]) == 0xffff;
  }
}
