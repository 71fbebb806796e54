/**
  The wire format in bytes: lengths, nulls, strings, UTF-8, headers, flags and the
  extensions of responses. Models scylla-cql/src/frame/types.rs,
  scylla-cql/src/frame/mod.rs and scylla-proxy/src/frame.rs.
 */
module WireFormat {
  import opened Wire
  import opened Vint
  import opened CqlTypes
  import opened Opcodes
  import opened Frames
  import opened Extensions

  // -------------------------------------------------------------------- numbers

  function Number2(bs: bytes): (n: nat)
    requires |bs| >= 2
  {
    var a: int, b: int := bs[0], bs[1];
    a * 0x100 + b
  }

  function Number4(bs: bytes): (n: nat)
    requires |bs| >= 4
  {
    var a: int, b: int, c: int, d: int := bs[0], bs[1], bs[2], bs[3];
    a * 0x100_0000 + b * 0x1_0000 + c * 0x100 + d
  }

  lemma TwoBytes(bs: bytes)
    requires |bs| == 2
    ensures FromBE(bs) == Number2(bs)
  {
    assert bs[..1][..0] == [] && FromBE(bs[..1]) == bs[0];
  }

  lemma FourBytes(bs: bytes)
    requires |bs| == 4
    ensures FromBE(bs) == Number4(bs)
  {
    var init := bs[..3];
    assert init[..2] == bs[..2] && init[2] == bs[2];
    TwoBytes(bs[..2]);
    assert FromBE(init) == FromBE(bs[..2]) * 256 + bs[2];
    assert FromBE(bs) == FromBE(init) * 256 + bs[3];
  }

  lemma SignedFour(bs: bytes)
    requires |bs| == 4
    ensures FromSignedBE(bs) == if bs[0] >= 0x80 then Number4(bs) - 0x1_0000_0000 else Number4(bs)
  {
    Pow256Values();
    FourBytes(bs);
  }

  /** A `[bytes]` item: four bytes of length, the sign bit for a null, then the contents. */
  lemma BytesOptMeaning(buf: bytes)
    ensures var r := ReadBytesOpt(buf);
            if |buf| < 4 then r.Err?
            else if buf[0] >= 0x80 then r == Ok(Read(None, buf[4..]))
            else
              var end := 4 + Number4(buf);
              if |buf| < end then r.Err? else r == Ok(Read(Some(buf[4..end]), buf[end..]))
  {
    hide FromSignedBE, ToSignedBE, FitsSigned;
    if |buf| >= 4 {
      var head := buf[..4];
      SignedFour(head);
      assert Number4(head) == Number4(buf);
      var n := Number4(buf);
      if buf[0] < 0x80 && |buf| >= 4 + n {
        assert buf[4..][..n] == buf[4..4 + n] && buf[4..][n..] == buf[4 + n..];
      }
    }
  }

  lemma BytesOptWritten(v: Option<bytes>)
    requires v.Some? ==> |v.value| <= I32_MAX
    ensures var w := WriteBytesOpt(v).value;
            if v.None? then w == [0xff, 0xff, 0xff, 0xff]
            else |w| == 4 + |v.value| && Number4(w) == |v.value| && w[0] < 0x80 && w[4..] == v.value
  {
    Pow256Values();
    var w := WriteBytesOpt(v).value;
    var n := if v.Some? then |v.value| else -1;
    FromToSignedBE(n, 4);
    SignedFour(w[..4]);
    assert Number4(w[..4]) == Number4(w);
    if v.None? {
      assert w == [w[0], w[1], w[2], w[3]];
    }
  }

  /** An int length: negative ones are refused. */
  lemma IntLengthMeaning(buf: bytes)
    ensures var r := ReadIntLength(buf);
            if |buf| < 4 || buf[0] >= 0x80 then r.Err? else r == Ok(Read(Number4(buf), buf[4..]))
  {
    hide FromSignedBE, ToSignedBE, FitsSigned;
    if |buf| >= 4 {
      SignedFour(buf[..4]);
      assert Number4(buf[..4]) == Number4(buf);
    }
  }

  /** A string: two bytes of length and well-formed UTF-8. */
  lemma StringMeaning(buf: bytes)
    ensures var r := ReadString(buf);
            if |buf| < 2 then r.Err?
            else
              var end := 2 + Number2(buf);
              if |buf| < end || !Utf8Valid(buf[2..end]) then r.Err? else r == Ok(Read(buf[2..end], buf[end..]))
  {
    hide Utf8Valid;
    if |buf| >= 2 {
      TwoBytes(buf[..2]);
      var n := Number2(buf);
      assert Number2(buf[..2]) == n;
      if |buf| >= 2 + n {
        assert buf[2..][..n] == buf[2..2 + n] && buf[2..][n..] == buf[2 + n..];
      }
    }
  }

  lemma StringAt(n: byte, s: bytes, rest: bytes)
    requires |s| == n && Utf8Valid(s)
    ensures ReadString([0, n] + s + rest) == Ok(Read(s, rest))
  {
    hide Utf8Valid, ReadString;
    var buf := [0, n] + s + rest;
    StringMeaning(buf);
    assert buf[0] == 0 && buf[1] == n && buf[2..2 + n] == s && buf[2 + n..] == rest;
  }

  /** A list of one string: the count in two bytes, then the string. */
  lemma OneString(s: bytes, rest: bytes)
    requires |s| < 256 && Utf8Valid(s)
    ensures ReadStringList([0, 1] + ([0, |s|] + s + rest)) == Ok(Read([s], rest))
  {
    hide Utf8Valid, ReadString;
    var body := [0, |s|] + s + rest;
    var buf := [0, 1] + body;
    StringAt(|s|, s, rest);
    TwoBytes([0, 1]);
    assert buf[..2] == [0, 1] && buf[2..] == body;
    assert ReadStrings(0, rest) == Ok(Read([], rest));
    assert [s] + [] == [s];
  }

  /** A map of one payload: the count and the length of the key in two bytes, that of the payload in four. */
  lemma OnePayload(key: bytes, payload: bytes, rest: bytes)
    requires |key| < 256 && |payload| < 256 && Utf8Valid(key)
    ensures ReadMap(Blobs, [0, 1] + ([0, |key|] + key + ([0, 0, 0, |payload|] + payload + rest)))
            == Ok(Read(map[key := payload], rest))
  {
    hide Utf8Valid, ReadString, ReadBytes;
    var tail := [0, 0, 0, |payload|] + payload + rest;
    var body := [0, |key|] + key + tail;
    var buf := [0, 1] + body;
    StringAt(|key|, key, tail);
    BytesAt(|payload|, payload, rest);
    TwoBytes([0, 1]);
    assert buf[..2] == [0, 1] && buf[2..] == body;
    var m := map[key := payload];
    assert ReadPairs(Blobs, 0, m, rest) == Ok(Read(m, rest));
    assert ReadPairs(Blobs, 1, map[], body) == Ok(Read(m, rest));
  }

  lemma BytesAt(n: byte, v: bytes, rest: bytes)
    requires |v| == n
    ensures ReadBytes([0, 0, 0, n] + v + rest) == Ok(Read(v, rest))
  {
    var buf := [0, 0, 0, n] + v + rest;
    FourBytes(buf[..4]);
    assert buf[..4] == [0, 0, 0, n] && buf[4..] == v + rest;
    assert (v + rest)[..n] == v && (v + rest)[n..] == rest;
  }

  /** The longest vints are 0xff and eight bytes, shortest form or not. */
  lemma NineByteVint(bs: bytes, rest: bytes)
    requires |bs| == 8
    ensures UnsignedVintDecode([0xff] + bs + rest) == Ok(Read(FromBE(bs), rest))
  {
    hide FromBE;
    Pow256Values();
    var buf := [0xff] + bs + rest;
    assert buf[0] == 0xff && buf[1..9] == bs && buf[9..] == rest;
    DecodedParts(buf, 0, FromBE(bs));
  }

  /** Of two entries with the same key the later one is kept. */
  lemma RepeatedKey(kind: Values, k: bytes, v: bytes, w: bytes, rest: bytes)
    requires PairUtf8(kind, Pair(k, v)) && PairUtf8(kind, Pair(k, w))
    requires WriteMap(kind, [Pair(k, v), Pair(k, w)]).Ok?
    ensures ReadMap(kind, WriteMap(kind, [Pair(k, v), Pair(k, w)]).value + rest) == Ok(Read(map[k := w], rest))
  {
    hide PairUtf8, ReadString, ReadValue, WritePair, ReadShort, WriteShortLength;
    var ps := [Pair(k, v), Pair(k, w)];
    TwoPairs(kind, ps);
    var n := WriteShortLength(2).value;
    var a, b := WritePair(kind, ps[0]).value, WritePair(kind, ps[1]).value;
    ShortLength(n + (a + b + rest), a + b + rest);
    PairRoundTrip(kind, ps[0], b + rest);
    PairRoundTrip(kind, ps[1], rest);
    assert WriteMap(kind, ps).value + rest == n + (a + b + rest);
    assert a + b + rest == a + (b + rest);
    var m: map<bytes, bytes> := map[k := v];
    assert ReadPairs(kind, 0, map[k := w], rest) == Ok(Read(map[k := w], rest));
    assert m[k := w] == map[k := w];
    assert ReadPairs(kind, 1, m, b + rest) == Ok(Read(map[k := w], rest));
  }

  lemma TwoPairs(kind: Values, ps: seq<Pair>)
    requires |ps| == 2 && WriteMap(kind, ps).Ok?
    ensures WritePair(kind, ps[0]).Ok? && WritePair(kind, ps[1]).Ok?
    ensures WriteMap(kind, ps).value
            == WriteShortLength(2).value + (WritePair(kind, ps[0]).value + WritePair(kind, ps[1]).value)
  {
    hide WritePair, WriteShortLength;
    assert ps[1..][1..] == [] && WritePairs(kind, []) == Ok([]);
    assert WritePairs(kind, ps[1..]).Ok?;
    var b := WritePair(kind, ps[1]).value;
    assert WritePairs(kind, ps[1..]).value == b + [];
    assert b + [] == b;
  }

  lemma ShortLength(buf: bytes, rest: bytes)
    requires buf == WriteShortLength(2).value + rest
    ensures ReadShort(buf) == Ok(Read(2, rest))
  {
    Wire.ShortRoundTrip(2, rest);
  }

  // ---------------------------------------------------------------------- UTF-8

  /** The scalar values of Unicode: code points but for the surrogates. */
  predicate ScalarValue(cp: nat) {
    cp < 0xd800 || 0xe000 <= cp < 0x11_0000
  }

  /** Table 3-6 of the Unicode standard. */
  function EncodeScalar(cp: nat): (bs: bytes)
    requires ScalarValue(cp)
    ensures |bs| > 0
  {
    if cp < 0x80 then [cp]
    else if cp < 0x800 then [0xc0 + cp / 0x40, 0x80 + cp % 0x40]
    else if cp < 0x1_0000 then [0xe0 + cp / 0x1000, 0x80 + cp / 0x40 % 0x40, 0x80 + cp % 0x40]
    else [0xf0 + cp / 0x4_0000, 0x80 + cp / 0x1000 % 0x40, 0x80 + cp / 0x40 % 0x40, 0x80 + cp % 0x40]
  }

  function EncodeScalars(cps: seq<nat>): (bs: bytes)
    requires forall i :: 0 <= i < |cps| ==> ScalarValue(cps[i])
  {
    if cps == [] then [] else EncodeScalar(cps[0]) + EncodeScalars(cps[1..])
  }

  /** Where a scalar value is encoded, its length is found. */
  lemma EncodedScalarFound(s: bytes, i: nat, cp: nat)
    requires ScalarValue(cp) && i + |EncodeScalar(cp)| <= |s| && s[i..i + |EncodeScalar(cp)|] == EncodeScalar(cp)
    ensures ScalarLength(s, i) == |EncodeScalar(cp)|
  {
    var e := EncodeScalar(cp);
    var at := s[i..i + |e|];
    assert s[i] == at[0] == e[0];
    if |e| > 1 {
      assert s[i + 1] == at[1] == e[1];
    }
    if |e| > 2 {
      assert s[i + 2] == at[2] == e[2];
    }
    if |e| > 3 {
      assert s[i + 3] == at[3] == e[3];
    }
    LeadingBytes(cp);
  }

  lemma LeadingBytes(cp: nat)
    requires ScalarValue(cp)
    ensures var e := EncodeScalar(cp);
            && (|e| == 1 <==> e[0] <= 0x7f)
            && (|e| == 2 ==> 0xc2 <= e[0] <= 0xdf && Tail(e[1]))
            && (|e| == 3 ==> 0xe0 <= e[0] <= 0xef && Tail(e[1]) && Tail(e[2])
                             && (e[0] == 0xe0 ==> e[1] >= 0xa0) && (e[0] == 0xed ==> e[1] <= 0x9f))
            && (|e| == 4 ==> 0xf0 <= e[0] <= 0xf4 && Tail(e[1]) && Tail(e[2]) && Tail(e[3])
                             && (e[0] == 0xf0 ==> e[1] >= 0x90) && (e[0] == 0xf4 ==> e[1] <= 0x8f))
  {
  }

  /** Where a length is found, a scalar value is encoded. */
  lemma FoundScalarEncoded(s: bytes, i: nat) returns (cp: nat)
    requires i < |s| && ScalarLength(s, i) > 0
    ensures ScalarValue(cp) && EncodeScalar(cp) == s[i..i + ScalarLength(s, i)]
  {
    var n, b := ScalarLength(s, i), s[i];
    if n == 1 {
      cp := b;
      assert s[i..i + 1] == [b];
    } else if n == 2 {
      cp := Code2(b, s[i + 1]);
      assert s[i..i + 2] == [b, s[i + 1]];
    } else if n == 3 {
      cp := Code3(b, s[i + 1], s[i + 2]);
      assert s[i..i + 3] == [b, s[i + 1], s[i + 2]];
    } else {
      cp := Code4(b, s[i + 1], s[i + 2], s[i + 3]);
      assert s[i..i + 4] == [b, s[i + 1], s[i + 2], s[i + 3]];
    }
  }

  lemma Code2(a: byte, b: byte) returns (cp: nat)
    requires 0xc2 <= a <= 0xdf && Tail(b)
    ensures ScalarValue(cp) && EncodeScalar(cp) == [a, b]
  {
    var x: int, y: int := a, b;
    cp := (x - 0xc0) * 0x40 + (y - 0x80);
    assert cp / 0x40 == x - 0xc0 && cp % 0x40 == y - 0x80;
  }

  lemma Code3(a: byte, b: byte, c: byte) returns (cp: nat)
    requires 0xe0 <= a <= 0xef && Tail(b) && Tail(c) && (a == 0xe0 ==> b >= 0xa0) && (a == 0xed ==> b <= 0x9f)
    ensures ScalarValue(cp) && EncodeScalar(cp) == [a, b, c]
  {
    var x: int, y: int, z: int := a, b, c;
    cp := (x - 0xe0) * 0x1000 + (y - 0x80) * 0x40 + (z - 0x80);
    assert cp / 0x1000 == x - 0xe0;
    assert cp / 0x40 == (x - 0xe0) * 0x40 + (y - 0x80) && cp % 0x40 == z - 0x80;
    assert cp / 0x40 % 0x40 == y - 0x80;
  }

  lemma Code4(a: byte, b: byte, c: byte, d: byte) returns (cp: nat)
    requires 0xf0 <= a <= 0xf4 && Tail(b) && Tail(c) && Tail(d)
    requires (a == 0xf0 ==> b >= 0x90) && (a == 0xf4 ==> b <= 0x8f)
    ensures ScalarValue(cp) && EncodeScalar(cp) == [a, b, c, d]
  {
    var w: int, x: int, y: int, z: int := a, b, c, d;
    cp := (w - 0xf0) * 0x4_0000 + (x - 0x80) * 0x1000 + (y - 0x80) * 0x40 + (z - 0x80);
    assert cp / 0x4_0000 == w - 0xf0;
    assert cp / 0x1000 == (w - 0xf0) * 0x40 + (x - 0x80) && cp / 0x1000 % 0x40 == x - 0x80;
    assert cp / 0x40 == ((w - 0xf0) * 0x40 + (x - 0x80)) * 0x40 + (y - 0x80) && cp / 0x40 % 0x40 == y - 0x80;
    assert cp % 0x40 == z - 0x80;
  }

  predicate AllScalars(cps: seq<nat>) {
    forall i :: 0 <= i < |cps| ==> ScalarValue(cps[i])
  }

  lemma {:induction false} EncodingIsValid(s: bytes, i: nat, cps: seq<nat>)
    requires AllScalars(cps) && i <= |s| && s[i..] == EncodeScalars(cps)
    ensures Utf8From(s, i)
    decreases |cps|
  {
    hide ScalarLength, EncodeScalar;
    if cps != [] {
      var e := EncodeScalar(cps[0]);
      assert s[i..][..|e|] == e && s[i..][|e|..] == EncodeScalars(cps[1..]);
      assert s[i..i + |e|] == e && s[i + |e|..] == EncodeScalars(cps[1..]);
      EncodedScalarFound(s, i, cps[0]);
      EncodingIsValid(s, i + |e|, cps[1..]);
    }
  }

  lemma {:induction false} ValidIsEncoding(s: bytes, i: nat) returns (cps: seq<nat>)
    requires i <= |s| && Utf8From(s, i)
    ensures AllScalars(cps) && s[i..] == EncodeScalars(cps)
    decreases |s| - i
  {
    hide ScalarLength, EncodeScalar;
    if i == |s| {
      cps := [];
    } else {
      var n := ScalarLength(s, i);
      var cp := FoundScalarEncoded(s, i);
      var tail := ValidIsEncoding(s, i + n);
      cps := [cp] + tail;
      assert cps[1..] == tail && s[i..] == s[i..i + n] + s[i + n..];
    }
  }

  /** Bytes are valid exactly if they encode a sequence of scalar values. */
  lemma Utf8ExactlyWhen(s: bytes)
    ensures Utf8Valid(s) <==> exists cps: seq<nat> :: AllScalars(cps) && s == EncodeScalars(cps)
  {
    hide Utf8From;
    assert s[0..] == s;
    if Utf8Valid(s) {
      var cps := ValidIsEncoding(s, 0);
    }
    if exists cps: seq<nat> :: AllScalars(cps) && s == EncodeScalars(cps) {
      var cps: seq<nat> :| AllScalars(cps) && s == EncodeScalars(cps);
      EncodingIsValid(s, 0, cps);
    }
  }

  // --------------------------------------------------------------------- frames

  /** The numbers of the opcodes. */
  lemma OpcodeNumbers()
    ensures forall op :: OpcodeByte(Request(op))
                         == match op
                            case Startup => 1
                            case Options => 5
                            case Query => 7
                            case Prepare => 9
                            case Execute => 10
                            case Register => 11
                            case Batch => 13
                            case AuthResponse => 15
    ensures forall op :: OpcodeByte(Response(op))
                         == match op
                            case Error => 0
                            case Ready => 2
                            case Authenticate => 3
                            case Supported => 6
                            case Result => 8
                            case Event => 12
                            case AuthChallenge => 14
                            case AuthSuccess => 16
  {
  }

  /** A frame without compression, byte by byte. */
  lemma FrameBytes(lib: Library, cell: Cell, f: Frame)
    requires f.params.flags % 2 == 0 && |f.body| < TWO32 && f.params.stream >= 0
    ensures WriteFrame(lib, cell, f).Ok?
    ensures var bs := WriteFrame(lib, cell, f).value;
            && |bs| == 9 + |f.body|
            && bs[0] == f.params.version && bs[1] == f.params.flags && Number2(bs[2..]) == f.params.stream
            && bs[4] == OpcodeByte(f.opcode) && Number4(bs[5..]) == |f.body| && bs[9..] == f.body
  {
    hide FromBE, ToBE;
    Pow256Values();
    var bs := WriteFrame(lib, cell, f).value;
    assert bs == Header(f.params, f.opcode, |f.body|) + f.body;
    FromToBE(|f.body|, 4);
    FourBytes(bs[5..9]);
    assert bs[5..9] == ToBE(|f.body|, 4) && Number4(bs[5..9]) == Number4(bs[5..]);
    FromToBE(f.params.stream, 2);
    TwoBytes(bs[2..4]);
    assert bs[2..4] == ToBE(f.params.stream, 2) && Number2(bs[2..4]) == Number2(bs[2..]);
  }

  /** The first thing a driver sends: a STARTUP with no options, on stream 0. */
  lemma StartupFrameBytes(lib: Library, cell: Cell)
    ensures WriteFrame(lib, cell, Frame(FrameParams(4, 0, 0), Request(Startup), [0, 0]))
            == Ok([4, 0, 0, 0, 1, 0, 0, 0, 2, 0, 0])
  {
    hide WriteFrame;
    var f := Frame(FrameParams(4, 0, 0), Request(Startup), [0, 0]);
    FrameBytes(lib, cell, f);
    var bs := WriteFrame(lib, cell, f).value;
    assert bs[2..][0] == bs[2] && bs[2..][1] == bs[3];
    assert bs[5..][0] == bs[5] && bs[5..][1] == bs[6] && bs[5..][2] == bs[7] && bs[5..][3] == bs[8];
    assert bs[9..][0] == bs[9] && bs[9..][1] == bs[10];
    assert bs == [bs[0], bs[1], bs[2], bs[3], bs[4], bs[5], bs[6], bs[7], bs[8], bs[9], bs[10]];
  }

  /** The high bit of the version tells responses from requests: a STARTUP and a READY without a body. */
  lemma VersionBit(lib: Library, cell: Cell, v: byte, rest: bytes)
    ensures ParseFrame(lib, FromDriver, cell, [v, 0, 0, 0, 1, 0, 0, 0, 0] + rest)
            == if v < 128 then Ok(Parsed(Frame(FrameParams(v, 0, 0), Request(Startup), []), rest))
               else Err(FrameFromServer)
    ensures ParseFrame(lib, FromCluster, cell, [v, 0, 0, 0, 2, 0, 0, 0, 0] + rest)
            == if v >= 128 then Ok(Parsed(Frame(FrameParams(v, 0, 0), Response(Ready), []), rest))
               else Err(FrameFromClient)
  {
    hide ParseFrame, ParseHeader;
    ParseBare(lib, FromDriver, cell, v, Request(Startup), rest);
    ParseBare(lib, FromCluster, cell, v, Response(Ready), rest);
  }

  lemma ParseBare(lib: Library, d: Direction, cell: Cell, v: byte, op: FrameOpcode, rest: bytes)
    requires op.Response? == d.FromCluster?
    ensures ParseFrame(lib, d, cell, [v, 0, 0, 0, OpcodeByte(op), 0, 0, 0, 0] + rest)
            == if IsResponseVersion(v) == d.FromCluster? then Ok(Parsed(Frame(FrameParams(v, 0, 0), op, []), rest))
               else Err(WrongDirection(d))
  {
    hide Header, ParseHeader, WrongDirection, IsResponseVersion, OpcodeByte;
    var h: bytes := [v, 0, 0, 0, OpcodeByte(op), 0, 0, 0, 0];
    BareHeader(lib, cell, v, op);
    HeaderRoundTrip(d, FrameParams(v, 0, 0), op, 0);
    var stream := h + rest;
    assert stream[..9] == h && stream[9..9] == [] && stream[9..] == rest;
  }

  lemma BareHeader(lib: Library, cell: Cell, v: byte, op: FrameOpcode)
    ensures Header(FrameParams(v, 0, 0), op, 0) == [v, 0, 0, 0, OpcodeByte(op), 0, 0, 0, 0]
  {
    hide Header, OpcodeByte;
    var f := Frame(FrameParams(v, 0, 0), op, []);
    FrameBytes(lib, cell, f);
    var bs := WriteFrame(lib, cell, f).value;
    assert bs == Header(f.params, op, 0) + [];
    assert bs[2..][0] == bs[2] && bs[2..][1] == bs[3];
    assert bs[5..][0] == bs[5] && bs[5..][1] == bs[6] && bs[5..][2] == bs[7] && bs[5..][3] == bs[8];
    assert Header(f.params, op, 0) == [bs[0], bs[1], bs[2], bs[3], bs[4], bs[5], bs[6], bs[7], bs[8]];
  }

  /** Flag 1 compresses: LZ4 behind the length of the body, Snappy as it is. */
  lemma CompressionFlag(lib: Library, flags: byte, body: bytes)
    requires |body| < TWO32
    ensures flags % 2 == 0 ==> MaybeCompress(lib, Some(Some(Lz4)), flags, body) == Ok(body)
    ensures flags % 2 == 1 ==>
              var r := MaybeCompress(lib, Some(Some(Lz4)), flags, body);
              r.Ok? && |r.value| == 4 + |lib.lz4(body)| && Number4(r.value) == |body| && r.value[4..] == lib.lz4(body)
    ensures flags % 2 == 1 && lib.snap(body).Some? ==>
              MaybeCompress(lib, Some(Some(Snappy)), flags, body) == Ok(lib.snap(body).value)
  {
    hide FromBE, ToBE;
    Pow256Values();
    FromToBE(|body|, 4);
    FourBytes(ToBE(|body|, 4));
  }

  /** A frame that goes the other way is refused by name, a stream that ends early says how much is missing. */
  lemma FrameRefused(lib: Library, cell: Cell, f: Frame, rest: bytes, cut: nat)
    requires f.params.flags % 2 == 0 && |f.body| < TWO32
    ensures WriteFrame(lib, cell, f).Ok?
    ensures var bs := WriteFrame(lib, cell, f).value;
            && (f.opcode.Response? ==> ParseFrame(lib, FromDriver, cell, bs + rest) == Err(FrameFromServer))
            && (f.opcode.Request? ==> ParseFrame(lib, FromCluster, cell, bs + rest) == Err(FrameFromClient))
            && (cut < 9 && cut <= |bs| ==> ParseFrame(lib, FromDriver, cell, bs[..cut]) == Err(HeaderIoError))
            && (Directed(FromDriver, f) && 9 <= cut < |bs| ==>
                  ParseFrame(lib, FromDriver, cell, bs[..cut]) == Err(ConnectionClosed(|bs| - cut, |f.body|)))
  {
    hide Header, ParseHeader, ToBE, FromBE;
    var h := Header(f.params, f.opcode, |f.body|);
    var bs := WriteFrame(lib, cell, f).value;
    assert bs == h + f.body;
    HeaderRoundTrip(FromDriver, f.params, f.opcode, |f.body|);
    HeaderRoundTrip(FromCluster, f.params, f.opcode, |f.body|);
    assert (bs + rest)[..9] == h;
    if cut >= 9 && cut < |bs| {
      assert bs[..cut] == h + f.body[..cut - 9];
      assert bs[..cut][..9] == h;
    }
  }

  /** A flagged body without a negotiated compression is an error, an LZ4 body without a length a panic. */
  lemma CompressionErrors(lib: Library, flags: byte, body: bytes)
    requires flags % 2 == 1
    ensures MaybeCompress(lib, None, flags, body) == MaybeCompress(lib, Some(None), flags, body)
            == Err(NoCompressionNegotiated)
    ensures MaybeDecompress(lib, None, flags, body) == MaybeDecompress(lib, Some(None), flags, body)
            == Err(NoCompressionNegotiated)
    ensures |body| < 4 ==> MaybeDecompress(lib, Some(Some(Lz4)), flags, body) == Err(DecompressPanic)
  {
  }

  // ----------------------------------------------------------------- extensions

  /** Each extension that cannot be read is named. */
  lemma ExtensionErrors(lib: Library, body: bytes)
    ensures |body| < 16 ==>
              var r := ParseExtensions(lib, 2, None, body); r.Err? && r.error.TraceIdParse?
    ensures |body| < 2 ==>
              var r := ParseExtensions(lib, 8, None, body); r.Err? && r.error.WarningsListParse?
    ensures |body| < 2 ==>
              var r := ParseExtensions(lib, 4, None, body); r.Err? && r.error.CustomPayloadMapParse?
    ensures var r := ParseExtensions(lib, 1, None, body); r.Err? && r.error.Decompression?
  {
  }

  /** Without flags the body of a response is all there is. */
  lemma NoExtensions(lib: Library, body: bytes)
    ensures ParseExtensions(lib, 0, None, body) == Ok(Extensions(None, [], None, body))
  {
  }

  /** Flag 2: a trace id of 16 bytes. */
  lemma TracingFlag(lib: Library, id: Octets16, body: bytes)
    ensures ParseExtensions(lib, 2, None, id + body) == Ok(Extensions(Some(id), [], None, body))
  {
    hide ReadStringList, ReadMap, ReadUuid;
    TraceBack(2, Some(id), body);
  }

  /** Flag 4: a map of payloads. */
  lemma PayloadFlag(lib: Library, order: seq<Pair>, payload: map<bytes, bytes>, body: bytes)
    requires WriteMap(Blobs, order).Ok? && Lists(order, payload)
    requires forall i :: 0 <= i < |order| ==> PairUtf8(Blobs, order[i])
    ensures ParseExtensions(lib, 4, None, WriteMap(Blobs, order).value + body)
            == Ok(Extensions(None, [], Some(payload), body))
  {
    hide ReadMap, WriteMap, Lists, PairUtf8;
    PayloadBack(4, Some(order), Some(payload), body);
  }

  /** Flag 8: a list of warnings. */
  lemma WarningFlag(lib: Library, warnings: seq<bytes>, body: bytes)
    requires WriteStringList(warnings).Ok? && AllUtf8(warnings)
    ensures ParseExtensions(lib, 8, None, WriteStringList(warnings).value + body)
            == Ok(Extensions(None, warnings, None, body))
  {
    hide ReadStringList, WriteStringList, AllUtf8;
    WarningsBack(8, Some(warnings), body);
  }

  /** All of them: trace id, warnings, payload, in this order. */
  lemma AllExtensions(lib: Library, id: Octets16, warnings: seq<bytes>, order: seq<Pair>,
                      payload: map<bytes, bytes>, body: bytes)
    requires WriteStringList(warnings).Ok? && AllUtf8(warnings)
    requires WriteMap(Blobs, order).Ok? && Lists(order, payload)
    requires forall i :: 0 <= i < |order| ==> PairUtf8(Blobs, order[i])
    ensures ParseExtensions(lib, 14, None,
                            id + (WriteStringList(warnings).value + (WriteMap(Blobs, order).value + body)))
            == Ok(Extensions(Some(id), warnings, Some(payload), body))
  {
    hide ReadStringList, WriteStringList, AllUtf8, ReadMap, WriteMap, Lists, PairUtf8;
    var payloadBytes, warningBytes := WriteMap(Blobs, order).value, WriteStringList(warnings).value;
    TraceBack(14, Some(id), warningBytes + (payloadBytes + body));
    WarningsBack(14, Some(warnings), payloadBytes + body);
    PayloadBack(14, Some(order), Some(payload), body);
  }
}
