/**
  The in-wire primitives of the CQL binary protocol: big-endian integers,
  `[bytes]`, strings, string lists and bytes maps. Models
  scylla-cql/src/frame/types.rs.

  A Rust string is its UTF-8 bytes. A reader returns the value and the rest of
  the buffer, and nothing about the buffer when it fails.
 */
module Wire {

  type byte = x: int | 0 <= x < 256
  type bytes = seq<byte>

  datatype Option<+T> = None | Some(value: T)

  datatype Result<+T, +E> = Ok(value: T) | Err(error: E) {
    predicate IsFailure() {
      Err?
    }

    function PropagateFailure<U>(): (r: Result<U, E>)
      requires Err?
    {
      Err(error)
    }

    function Extract(): T
      requires Ok?
    {
      value
    }
  }

  datatype LowLevelError =
    | IoError
    | TooFewBytesReceived(expected: nat, received: nat)
    | TryFromIntError
    | InvalidUtf8

  datatype Read<+T> = Read(value: T, rest: bytes)
  type ReadResult<+T> = Result<Read<T>, LowLevelError>

  const I32_MAX: int := 0x7fff_ffff
  const U16_MAX: int := 0xffff

  // ---------------------------------------------------------------- integers

  function Pow256(n: nat): (p: nat)
    ensures p >= 1
    ensures n >= 1 ==> p % 2 == 0
  {
    if n == 0 then 1 else 256 * Pow256(n - 1)
  }

  lemma Pow256Values()
    ensures Pow256(0) == 1 && Pow256(1) == 0x100 && Pow256(2) == 0x1_0000
    ensures Pow256(3) == 0x100_0000 && Pow256(4) == 0x1_0000_0000
    ensures Pow256(5) == 0x100_0000_0000 && Pow256(6) == 0x1_0000_0000_0000
    ensures Pow256(7) == 0x100_0000_0000_0000 && Pow256(8) == 0x1_0000_0000_0000_0000
  {
    assert Pow256(1) == 256 * Pow256(0);
    assert Pow256(2) == 256 * Pow256(1);
    assert Pow256(3) == 256 * Pow256(2);
    assert Pow256(4) == 256 * Pow256(3);
    assert Pow256(5) == 256 * Pow256(4);
    assert Pow256(6) == 256 * Pow256(5);
    assert Pow256(7) == 256 * Pow256(6);
    assert Pow256(8) == 256 * Pow256(7);
  }

  /** The number a big-endian byte string denotes. */
  function FromBE(bs: bytes): (v: nat)
    ensures v < Pow256(|bs|)
  {
    if |bs| == 0 then 0 else FromBE(bs[..|bs| - 1]) * 256 + bs[|bs| - 1]
  }

  /** The `n` low-order bytes of `v`, most significant first. */
  function ToBE(v: nat, n: nat): (bs: bytes)
    ensures |bs| == n
  {
    if n == 0 then [] else ToBE(v / 256, n - 1) + [v % 256]
  }

  lemma {:induction false} FromToBE(v: nat, n: nat)
    requires v < Pow256(n)
    ensures FromBE(ToBE(v, n)) == v
  {
    if n > 0 {
      FromToBE(v / 256, n - 1);
      assert ToBE(v, n)[..n - 1] == ToBE(v / 256, n - 1);
    }
  }

  lemma ByteSplit(h: nat, b: byte)
    ensures (h * 256 + b) / 256 == h && (h * 256 + b) % 256 == b
  {
  }

  lemma {:induction false} ToFromBE(bs: bytes)
    ensures ToBE(FromBE(bs), |bs|) == bs
  {
    if |bs| > 0 {
      var init, last := bs[..|bs| - 1], bs[|bs| - 1];
      ToFromBE(init);
      ByteSplit(FromBE(init), last);
      assert bs == init + [last];
    }
  }

  /** Splitting off the leading bytes splits the number. */
  lemma {:induction false} FromBEConcat(a: bytes, b: bytes)
    ensures FromBE(a + b) == FromBE(a) * Pow256(|b|) + FromBE(b)
  {
    if |b| == 0 {
      assert a + b == a;
    } else {
      var b', last := b[..|b| - 1], b[|b| - 1];
      FromBEConcat(a, b');
      assert (a + b)[..|a + b| - 1] == a + b' && (a + b)[|a + b| - 1] == last;
      ConcatStep(FromBE(a), Pow256(|b'|), FromBE(b'), last);
    }
  }

  lemma ConcatStep(x: nat, p: nat, y: nat, b: nat)
    ensures (x * p + y) * 256 + b == x * (256 * p) + (y * 256 + b)
  {
  }

  /** The first byte weighs more than all the others. */
  lemma LeadingByte(bs: bytes)
    requires bs != []
    ensures FromBE(bs) == bs[0] * Pow256(|bs| - 1) + FromBE(bs[1..])
  {
    assert bs == bs[..1] + bs[1..];
    FromBEConcat(bs[..1], bs[1..]);
    assert bs[..1][..0] == [] && FromBE(bs[..1]) == bs[0];
  }

  /** Two's complement reading of a big-endian byte string. */
  function FromSignedBE(bs: bytes): (v: int)
    ensures |bs| > 0 ==> -(Pow256(|bs|) / 2) <= v < Pow256(|bs|) / 2
  {
    var u := FromBE(bs);
    if |bs| == 0 then 0
    else if 2 * u < Pow256(|bs|) then u else u - Pow256(|bs|)
  }

  predicate FitsSigned(v: int, n: nat) {
    0 <= Pow256(n) + 2 * v && 2 * v < Pow256(n)
  }

  function ToSignedBE(v: int, n: nat): (bs: bytes)
    requires FitsSigned(v, n)
    ensures |bs| == n
  {
    ToBE(if v < 0 then v + Pow256(n) else v, n)
  }

  lemma FromToSignedBE(v: int, n: nat)
    requires n > 0 && FitsSigned(v, n)
    ensures FromSignedBE(ToSignedBE(v, n)) == v
  {
    FromToBE(if v < 0 then v + Pow256(n) else v, n);
  }

  lemma ToFromSignedBE(bs: bytes)
    requires |bs| > 0
    ensures FitsSigned(FromSignedBE(bs), |bs|)
    ensures ToSignedBE(FromSignedBE(bs), |bs|) == bs
  {
    ToFromBE(bs);
  }

  // ------------------------------------------------------------ leaf readers

  function ReadRawBytes(count: nat, buf: bytes): (r: ReadResult<bytes>)
    ensures r.Ok? <==> count <= |buf|
    ensures r.Ok? ==> |r.value.value| == count && r.value.value + r.value.rest == buf
  {
    if |buf| < count then Err(TooFewBytesReceived(count, |buf|))
    else Ok(Read(buf[..count], buf[count..]))
  }

  function ReadInt(buf: bytes): (r: ReadResult<int>)
    ensures r.Ok? <==> 4 <= |buf|
    ensures r.Ok? ==> FitsSigned(r.value.value, 4)
    ensures r.Ok? ==> ToSignedBE(r.value.value, 4) + r.value.rest == buf
  {
    if |buf| < 4 then Err(IoError)
    else
      ToFromSignedBE(buf[..4]);
      Ok(Read(FromSignedBE(buf[..4]), buf[4..]))
  }

  function ReadShort(buf: bytes): (r: ReadResult<nat>)
    ensures r.Ok? <==> 2 <= |buf|
    ensures r.Ok? ==> r.value.value <= U16_MAX && ToBE(r.value.value, 2) + r.value.rest == buf
  {
    Pow256Values();
    if |buf| < 2 then Err(IoError)
    else
      ToFromBE(buf[..2]);
      Ok(Read(FromBE(buf[..2]), buf[2..]))
  }

  function ReadIntLength(buf: bytes): (r: ReadResult<nat>)
    ensures r.Ok? ==> r.value.value <= I32_MAX && |r.value.rest| == |buf| - 4
  {
    Pow256Values();
    var n :- ReadInt(buf);
    if n.value < 0 then Err(TryFromIntError) else Ok(Read(n.value, n.rest))
  }

  /** `[bytes]`: any negative length is null. */
  function ReadBytesOpt(buf: bytes): (r: ReadResult<Option<bytes>>)
    ensures r.Ok? ==> |r.value.rest| <= |buf| - 4
    ensures r.Ok? && r.value.value.Some? ==>
              |r.value.value.value| + |r.value.rest| == |buf| - 4
  {
    var n :- ReadInt(buf);
    if n.value < 0 then Ok(Read(None, n.rest))
    else
      var raw :- ReadRawBytes(n.value, n.rest);
      Ok(Read(Some(raw.value), raw.rest))
  }

  function ReadBytes(buf: bytes): (r: ReadResult<bytes>) {
    var n :- ReadIntLength(buf);
    ReadRawBytes(n.value, n.rest)
  }

  function ReadString(buf: bytes): (r: ReadResult<bytes>) {
    var n :- ReadShort(buf);
    var raw :- ReadRawBytes(n.value, n.rest);
    if Utf8Valid(raw.value) then Ok(raw) else Err(InvalidUtf8)
  }

  function ReadUuid(buf: bytes): (r: ReadResult<bytes>)
  {
    ReadRawBytes(16, buf)
  }

  // ------------------------------------------------------------ leaf writers

  function WriteIntLength(n: nat): (r: Result<bytes, LowLevelError>)
    ensures r.Ok? <==> n <= I32_MAX
    ensures r.Ok? ==> |r.value| == 4
  {
    Pow256Values();
    if n <= I32_MAX then Ok(ToSignedBE(n, 4)) else Err(TryFromIntError)
  }

  function WriteShortLength(n: nat): (r: Result<bytes, LowLevelError>)
    ensures r.Ok? <==> n <= U16_MAX
    ensures r.Ok? ==> |r.value| == 2
  {
    if n <= U16_MAX then Ok(ToBE(n, 2)) else Err(TryFromIntError)
  }

  function WriteBytes(v: bytes): (r: Result<bytes, LowLevelError>)
    ensures r.Ok? <==> |v| <= I32_MAX
    ensures r.Ok? ==> |r.value| == |v| + 4
  {
    var n :- WriteIntLength(|v|);
    Ok(n + v)
  }

  function WriteBytesOpt(v: Option<bytes>): (r: Result<bytes, LowLevelError>)
    ensures r.Ok? <==> v.None? || |v.value| <= I32_MAX
    ensures r.Ok? ==> |r.value| == 4 + (if v.Some? then |v.value| else 0)
  {
    Pow256Values();
    match v
    case Some(b) => WriteBytes(b)
    case None => Ok(ToSignedBE(-1, 4))
  }

  function WriteString(v: bytes): (r: Result<bytes, LowLevelError>)
    ensures r.Ok? <==> |v| <= U16_MAX
    ensures r.Ok? ==> |r.value| == |v| + 2
  {
    var n :- WriteShortLength(|v|);
    Ok(n + v)
  }

  lemma IntLengthRoundTrip(n: nat, rest: bytes)
    requires n <= I32_MAX
    ensures ReadIntLength(WriteIntLength(n).value + rest) == Ok(Read(n, rest))
  {
    Pow256Values();
    FromToSignedBE(n, 4);
    assert (WriteIntLength(n).value + rest)[..4] == WriteIntLength(n).value;
  }

  lemma ShortRoundTrip(n: nat, rest: bytes)
    requires n <= U16_MAX
    ensures ReadShort(ToBE(n, 2) + rest) == Ok(Read(n, rest))
  {
    Pow256Values();
    FromToBE(n, 2);
    assert (ToBE(n, 2) + rest)[..2] == ToBE(n, 2);
  }

  lemma BytesRoundTrip(v: bytes, rest: bytes)
    requires |v| <= I32_MAX
    ensures ReadBytes(WriteBytes(v).value + rest) == Ok(Read(v, rest))
  {
    var n := WriteIntLength(|v|).value;
    assert WriteBytes(v).value + rest == n + (v + rest);
    IntLengthRoundTrip(|v|, v + rest);
  }

  lemma BytesOptRoundTrip(v: Option<bytes>, rest: bytes)
    requires v.Some? ==> |v.value| <= I32_MAX
    ensures ReadBytesOpt(WriteBytesOpt(v).value + rest) == Ok(Read(v, rest))
  {
    Pow256Values();
    var n := if v.Some? then |v.value| else -1;
    var w := WriteBytesOpt(v).value;
    FromToSignedBE(n, 4);
    assert (w + rest)[..4] == ToSignedBE(n, 4);
    assert (w + rest)[4..] == (if v.Some? then v.value else []) + rest;
  }

  lemma StringRoundTrip(v: bytes, rest: bytes)
    requires |v| <= U16_MAX && Utf8Valid(v)
    ensures ReadString(WriteString(v).value + rest) == Ok(Read(v, rest))
  {
    var buf := WriteString(v).value + rest;
    assert buf == ToBE(|v|, 2) + (v + rest);
    ShortRoundTrip(|v|, v + rest);
    assert ReadRawBytes(|v|, v + rest) == Ok(Read(v, rest));
  }

  // ------------------------------------------------------------------- UTF-8

  /** Well-formed UTF-8, Table 3-7 of the Unicode standard. */
  predicate Utf8Valid(s: bytes) {
    Utf8From(s, 0)
  }

  predicate Utf8From(s: bytes, i: nat)
    requires i <= |s|
    decreases |s| - i
  {
    i == |s| || (var n := ScalarLength(s, i); n > 0 && Utf8From(s, i + n))
  }

  /** The length of the scalar value encoded at `i`, or 0 when there is none. */
  function ScalarLength(s: bytes, i: nat): (n: nat)
    requires i < |s|
    ensures i + n <= |s|
  {
    var b, left := s[i], |s| - i;
    if b <= 0x7f then 1
    else if 0xc2 <= b <= 0xdf && left >= 2 && Tail(s[i + 1]) then 2
    else if 0xe0 <= b <= 0xef && left >= 3 && Tail(s[i + 1]) && Tail(s[i + 2])
            && (b == 0xe0 ==> s[i + 1] >= 0xa0) && (b == 0xed ==> s[i + 1] <= 0x9f) then 3
    else if 0xf0 <= b <= 0xf4 && left >= 4 && Tail(s[i + 1]) && Tail(s[i + 2]) && Tail(s[i + 3])
            && (b == 0xf0 ==> s[i + 1] >= 0x90) && (b == 0xf4 ==> s[i + 1] <= 0x8f) then 4
    else 0
  }

  predicate Tail(b: byte) {
    0x80 <= b <= 0xbf
  }

  // ----------------------------------------------------- buffers and cursors

  /** A growing output buffer (`BufMut` over a `Vec<u8>`). */
  class Buffer {
    var data: bytes

    constructor ()
      ensures data == []
    {
      data := [];
    }

    method PutU8(b: byte)
      modifies this
      ensures data == old(data) + [b]
    {
      data := data + [b];
    }

    method PutSlice(bs: bytes)
      modifies this
      ensures data == old(data) + bs
    {
      data := data + bs;
    }

    method PutUint(v: nat, n: nat)
      modifies this
      ensures data == old(data) + ToBE(v, n)
    {
      data := data + ToBE(v, n);
    }
  }

  /** An advancing view of an input buffer (`&mut &[u8]`). */
  class Cursor {
    var rest: bytes

    constructor (buf: bytes)
      ensures rest == buf
    {
      rest := buf;
    }

    method ReadU8() returns (r: Result<byte, LowLevelError>)
      modifies this
      ensures r == if old(rest) == [] then Err(IoError) else Ok(old(rest)[0])
      ensures r.Ok? ==> rest == old(rest)[1..]
    {
      if rest == [] {
        return Err(IoError);
      }
      r, rest := Ok(rest[0]), rest[1..];
    }

    method ReadUint(n: nat) returns (r: Result<nat, LowLevelError>)
      modifies this
      ensures r == if |old(rest)| < n then Err(IoError) else Ok(FromBE(old(rest)[..n]))
      ensures r.Ok? ==> rest == old(rest)[n..]
    {
      if |rest| < n {
        return Err(IoError);
      }
      r, rest := Ok(FromBE(rest[..n])), rest[n..];
    }
  }
}
