/**
  Frames on the wire. Models `write_frame` and `read_frame` of
  scylla-proxy/src/frame.rs, `SerializedRequest`, `compress_append` and
  `decompress` of scylla-cql/src/frame/mod.rs and the compression cell of
  scylla-proxy/src/proxy.rs. The compression libraries are parameters.
 */
module Frames {
  import opened Arith
  import opened Wire
  import opened Vint
  import opened CqlTypes
  import opened Cells
  import opened Opcodes

  const HEADER_SIZE: nat := 9
  const COMPRESSION: nat := 0x01
  const TRACING: nat := 0x02
  const CUSTOM_PAYLOAD: nat := 0x04
  const WARNING: nat := 0x08
  const TWO32: nat := 0x1_0000_0000

  datatype FrameParams = FrameParams(version: byte, flags: byte, stream: i16)

  datatype Frame = Frame(params: FrameParams, opcode: FrameOpcode, body: bytes)

  /** `flags & flag != 0` for a flag of one bit. */
  predicate HasFlag(flags: byte, flag: nat)
    requires flag > 0
  {
    (flags / flag) % 2 == 1
  }

  /** A flag is set iff masking it out leaves something. */
  lemma HasFlagIsMask(flags: byte, flag: nat)
    requires flag in {COMPRESSION, TRACING, CUSTOM_PAYLOAD, WARNING}
    ensures HasFlag(flags, flag) <==> BitAnd(flags, flag) != 0
  {
    hide BitAnd, Pow2;
    Pow2Values();
    MaskBit(flags, 0);
    MaskBit(flags, 1);
    MaskBit(flags, 2);
    MaskBit(flags, 3);
  }

  lemma {:induction false} MaskBit(a: nat, k: nat)
    ensures (a / Pow2(k)) % 2 == 1 <==> BitAnd(a, Pow2(k)) != 0
  {
    hide BitAnd;
    if k == 0 {
      MaskStep(a, 1);
      AndZero(a / 2);
    } else {
      var p := Pow2(k - 1);
      MaskBit(a / 2, k - 1);
      MaskStep(a, 2 * p);
      DivTwice(a, p);
    }
  }

  lemma MaskStep(a: nat, b: nat)
    ensures BitAnd(a, b) == (if a % 2 == 1 && b % 2 == 1 then 1 else 0) + 2 * BitAnd(a / 2, b / 2)
  {
    if a == 0 {
      assert BitAnd(0, b / 2) == 0;
    }
  }

  predicate IsResponseVersion(version: byte) {
    version >= 0x80
  }

  function ForRequest(p: FrameParams): (r: FrameParams)
    ensures !IsResponseVersion(r.version) && r.flags == p.flags && r.stream == p.stream
    ensures !IsResponseVersion(p.version) ==> r == p
  {
    p.(version := p.version % 0x80)
  }

  function ForResponse(p: FrameParams): (r: FrameParams)
    ensures IsResponseVersion(r.version) && r.flags == p.flags && r.stream == p.stream
    ensures ForRequest(r) == ForRequest(p)
    ensures IsResponseVersion(p.version) ==> r == p
  {
    p.(version := 0x80 + p.version % 0x80)
  }

  // --------------------------------------------------------------- compression

  datatype Compression = Lz4 | Snappy

  datatype FrameError =
    | HeaderIoError
    | FrameFromServer
    | FrameFromClient
    | ConnectionClosed(missing: nat, length: nat)
    | NoCompressionNegotiated
    | CompressError
    | DecompressError
    | DecompressPanic

  /** The compression libraries; Snappy can refuse to compress. */
  datatype Library = Library(
    lz4: bytes -> bytes,
    unlz4: (bytes, nat) -> Option<bytes>,
    snap: bytes -> Option<bytes>,
    unsnap: bytes -> Option<bytes>)

  ghost predicate Invertible(lib: Library) {
    && (forall b: bytes :: lib.unlz4(lib.lz4(b), |b|) == Some(b))
    && (forall b: bytes :: lib.snap(b).Some? ==> lib.unsnap(lib.snap(b).value) == Some(b))
  }

  /** `compress_append`: LZ4 is preceded by the length, cut to 32 bits. */
  function Compress(lib: Library, c: Compression, body: bytes): (r: Result<bytes, FrameError>) {
    match c
    case Lz4 => Ok(ToBE(|body| % TWO32, 4) + lib.lz4(body))
    case Snappy =>
      match lib.snap(body)
      case Some(b) => Ok(b)
      case None => Err(CompressError)
  }

  /** `decompress`: an LZ4 body without a length panics. */
  function Decompress(lib: Library, c: Compression, body: bytes): (r: Result<bytes, FrameError>) {
    match c
    case Lz4 =>
      if |body| < 4 then Err(DecompressPanic)
      else FromOption(lib.unlz4(body[4..], FromBE(body[..4])))
    case Snappy => FromOption(lib.unsnap(body))
  }

  function FromOption(b: Option<bytes>): (r: Result<bytes, FrameError>) {
    match b
    case Some(body) => Ok(body)
    case None => Err(DecompressError)
  }

  lemma DecompressInverts(lib: Library, c: Compression, body: bytes)
    requires Invertible(lib) && Compress(lib, c, body).Ok? && |body| < TWO32
    ensures Decompress(lib, c, Compress(lib, c, body).value) == Ok(body)
  {
    hide Pow256, ToBE, FromBE;
    Pow256Values();
    FromToBE(|body|, 4);
    if c.Lz4? {
      var packed := lib.lz4(body);
      assert lib.unlz4(packed, |body|) == Some(body);
      var b := ToBE(|body|, 4) + packed;
      assert b[..4] == ToBE(|body|, 4) && b[4..] == packed;
    }
  }

  /** The write-once cell: whether compression was negotiated, and which. */
  type Cell = Option<Option<Compression>>

  function Negotiated(cell: Cell): (c: Option<Compression>) {
    if cell.Some? then cell.value else None
  }

  function MaybeCompress(lib: Library, cell: Cell, flags: byte, body: bytes): (r: Result<bytes, FrameError>) {
    if !HasFlag(flags, COMPRESSION) then Ok(body)
    else if Negotiated(cell).None? then Err(NoCompressionNegotiated)
    else Compress(lib, Negotiated(cell).value, body)
  }

  function MaybeDecompress(lib: Library, cell: Cell, flags: byte, body: bytes): (r: Result<bytes, FrameError>) {
    if !HasFlag(flags, COMPRESSION) then Ok(body)
    else if Negotiated(cell).None? then Err(NoCompressionNegotiated)
    else Decompress(lib, Negotiated(cell).value, body)
  }

  lemma MaybeDecompressInverts(lib: Library, cell: Cell, flags: byte, body: bytes)
    requires Invertible(lib) && |body| < TWO32 && MaybeCompress(lib, cell, flags, body).Ok?
    ensures MaybeDecompress(lib, cell, flags, MaybeCompress(lib, cell, flags, body).value) == Ok(body)
  {
    if HasFlag(flags, COMPRESSION) {
      hide Compress, Decompress, Invertible;
      DecompressInverts(lib, Negotiated(cell).value, body);
    }
  }

  // ------------------------------------------------------- writing and parsing

  function Header(params: FrameParams, opcode: FrameOpcode, length: nat): (h: bytes)
    ensures |h| == HEADER_SIZE
  {
    Pow256Values();
    [params.version, params.flags] + ToSignedBE(params.stream, 2) + [OpcodeByte(opcode)] + ToBE(length, 4)
  }

  /** The length of the body is cut to 32 bits. */
  function WriteFrame(lib: Library, cell: Cell, f: Frame): (r: Result<bytes, FrameError>) {
    var body :- MaybeCompress(lib, cell, f.params.flags, f.body);
    Ok(Header(f.params, f.opcode, |body| % TWO32) + body)
  }

  datatype Direction = FromDriver | FromCluster

  function WrongDirection(d: Direction): (e: FrameError) {
    if d.FromDriver? then FrameFromServer else FrameFromClient
  }

  function OpcodeOf(d: Direction, b: byte): (op: Option<FrameOpcode>) {
    if d.FromDriver? then RequestOpcodeOf(b) else ResponseOpcodeOf(b)
  }

  datatype Head = Head(params: FrameParams, opcode: FrameOpcode, length: nat)

  function ParseHeader(d: Direction, h: bytes): (r: Result<Head, FrameError>)
    requires |h| == HEADER_SIZE
  {
    Pow256Values();
    if IsResponseVersion(h[0]) != d.FromCluster? then Err(WrongDirection(d))
    else
      match OpcodeOf(d, h[4])
      case None => Err(WrongDirection(d))
      case Some(op) => Ok(Head(FrameParams(h[0], h[1], FromSignedBE(h[2..4])), op, FromBE(h[5..9])))
  }

  datatype Parsed = Parsed(frame: Frame, rest: bytes)

  function ParseFrame(lib: Library, d: Direction, cell: Cell, stream: bytes): (r: Result<Parsed, FrameError>) {
    if |stream| < HEADER_SIZE then Err(HeaderIoError)
    else
      var head :- ParseHeader(d, stream[..HEADER_SIZE]);
      var end := HEADER_SIZE + head.length;
      if |stream| < end then Err(ConnectionClosed(end - |stream|, head.length))
      else
        var body :- MaybeDecompress(lib, cell, head.params.flags, stream[HEADER_SIZE..end]);
        Ok(Parsed(Frame(head.params, head.opcode, body), stream[end..]))
  }

  /** A frame that goes the way it is marked to go. */
  predicate Directed(d: Direction, f: Frame) {
    IsResponseVersion(f.params.version) == f.opcode.Response? == d.FromCluster?
  }

  lemma HeaderRoundTrip(d: Direction, params: FrameParams, opcode: FrameOpcode, length: nat)
    requires length < TWO32
    ensures ParseHeader(d, Header(params, opcode, length))
            == if IsResponseVersion(params.version) == opcode.Response? == d.FromCluster?
               then Ok(Head(params, opcode, length)) else Err(WrongDirection(d))
  {
    Pow256Values();
    OpcodeRoundTrip(opcode);
    FromToSignedBE(params.stream, 2);
    FromToBE(length, 4);
    var h := Header(params, opcode, length);
    assert h[0] == params.version && h[1] == params.flags && h[4] == OpcodeByte(opcode);
    assert h[2..4] == ToSignedBE(params.stream, 2) && h[5..9] == ToBE(length, 4);
  }

  /** The bytes after the header, once it is parsed. */
  lemma ParseBody(lib: Library, d: Direction, cell: Cell, h: bytes, head: Head, tail: bytes)
    requires |h| == HEADER_SIZE && ParseHeader(d, h) == Ok(head)
    ensures ParseFrame(lib, d, cell, h + tail)
            == if |tail| < head.length then Err(ConnectionClosed(head.length - |tail|, head.length))
               else
                 match MaybeDecompress(lib, cell, head.params.flags, tail[..head.length])
                 case Err(e) => Err(e)
                 case Ok(body) => Ok(Parsed(Frame(head.params, head.opcode, body), tail[head.length..]))
  {
    hide ParseHeader, MaybeDecompress;
    var stream, end := h + tail, HEADER_SIZE + head.length;
    assert stream[..HEADER_SIZE] == h;
    if |tail| >= head.length {
      assert stream[HEADER_SIZE..end] == tail[..head.length];
      assert stream[end..] == tail[head.length..];
    }
  }

  lemma FrameRoundTrip(lib: Library, d: Direction, cell: Cell, f: Frame, rest: bytes)
    requires Invertible(lib) && Directed(d, f) && |f.body| < TWO32
    requires MaybeCompress(lib, cell, f.params.flags, f.body).Ok?
    requires |MaybeCompress(lib, cell, f.params.flags, f.body).value| < TWO32
    ensures ParseFrame(lib, d, cell, WriteFrame(lib, cell, f).value + rest) == Ok(Parsed(f, rest))
  {
    hide Header, ParseHeader, ParseFrame, MaybeCompress, MaybeDecompress, Invertible;
    var body := MaybeCompress(lib, cell, f.params.flags, f.body).value;
    MaybeDecompressInverts(lib, cell, f.params.flags, f.body);
    var h := Header(f.params, f.opcode, |body|);
    HeaderRoundTrip(d, f.params, f.opcode, |body|);
    ParseBody(lib, d, cell, h, Head(f.params, f.opcode, |body|), body + rest);
    assert WriteFrame(lib, cell, f).value + rest == h + (body + rest);
    assert (body + rest)[..|body|] == body && (body + rest)[|body|..] == rest;
  }

  /** Without compression the libraries do not matter. */
  lemma PlainRoundTrip(lib: Library, d: Direction, cell: Cell, f: Frame, rest: bytes)
    requires Directed(d, f) && |f.body| < TWO32 && !HasFlag(f.params.flags, COMPRESSION)
    ensures WriteFrame(lib, cell, f).Ok?
    ensures ParseFrame(lib, d, cell, WriteFrame(lib, cell, f).value + rest) == Ok(Parsed(f, rest))
  {
    hide Header, ParseHeader, ParseFrame, HasFlag, Compress, Decompress;
    var h := Header(f.params, f.opcode, |f.body|);
    HeaderRoundTrip(d, f.params, f.opcode, |f.body|);
    ParseBody(lib, d, cell, h, Head(f.params, f.opcode, |f.body|), f.body + rest);
    assert WriteFrame(lib, cell, f).value + rest == h + (f.body + rest);
    assert (f.body + rest)[..|f.body|] == f.body && (f.body + rest)[|f.body|..] == rest;
  }

  /** Uncompressed frames come back exactly if they are directed and shorter than 4 GiB. */
  lemma PlainFrameRoundTripExactlyWhen(lib: Library, d: Direction, cell: Cell, f: Frame, rest: bytes)
    requires !HasFlag(f.params.flags, COMPRESSION)
    ensures ParseFrame(lib, d, cell, WriteFrame(lib, cell, f).value + rest) == Ok(Parsed(f, rest))
            <==> Directed(d, f) && |f.body| < TWO32
  {
    hide ParseFrame, ParseHeader, Header;
    if Directed(d, f) && |f.body| < TWO32 {
      PlainRoundTrip(lib, d, cell, f, rest);
    } else {
      var n := |f.body| % TWO32;
      var h := Header(f.params, f.opcode, n);
      HeaderRoundTrip(d, f.params, f.opcode, n);
      assert WriteFrame(lib, cell, f).value + rest == h + (f.body + rest);
      if Directed(d, f) {
        ShortBody(lib, d, cell, h, f, n, rest);
      } else {
        MisdirectedFrame(lib, d, cell, h, f.body + rest);
      }
    }
  }

  /** A header that announces less than the body cuts it. */
  lemma ShortBody(lib: Library, d: Direction, cell: Cell, h: bytes, f: Frame, n: nat, rest: bytes)
    requires |h| == HEADER_SIZE && ParseHeader(d, h) == Ok(Head(f.params, f.opcode, n))
    requires n < |f.body| && !HasFlag(f.params.flags, COMPRESSION)
    ensures ParseFrame(lib, d, cell, h + (f.body + rest)) != Ok(Parsed(f, rest))
  {
    hide ParseFrame, ParseHeader;
    ParseBody(lib, d, cell, h, Head(f.params, f.opcode, n), f.body + rest);
    assert |(f.body + rest)[..n]| == n;
  }

  lemma MisdirectedFrame(lib: Library, d: Direction, cell: Cell, h: bytes, tail: bytes)
    requires |h| == HEADER_SIZE && ParseHeader(d, h).Err?
    ensures ParseFrame(lib, d, cell, h + tail).Err?
  {
    hide ParseHeader;
    assert (h + tail)[..HEADER_SIZE] == h;
  }

  // ----------------------------------------------------------- lists of frames

  function WriteFrames(lib: Library, cell: Cell, fs: seq<Frame>): (r: Result<bytes, FrameError>) {
    if fs == [] then Ok([])
    else
      var head :- WriteFrame(lib, cell, fs[0]);
      var tail :- WriteFrames(lib, cell, fs[1..]);
      Ok(head + tail)
  }

  datatype ParsedAll = ParsedAll(frames: seq<Frame>, rest: bytes)

  function ParseFrames(lib: Library, d: Direction, cell: Cell, n: nat, stream: bytes)
    : (r: Result<ParsedAll, FrameError>)
    ensures r.Ok? ==> |r.value.frames| == n
  {
    if n == 0 then Ok(ParsedAll([], stream))
    else
      var head :- ParseFrame(lib, d, cell, stream);
      var tail :- ParseFrames(lib, d, cell, n - 1, head.rest);
      Ok(ParsedAll([head.frame] + tail.frames, tail.rest))
  }

  predicate Deliverable(lib: Library, d: Direction, cell: Cell, f: Frame) {
    && Directed(d, f) && |f.body| < TWO32
    && var body := MaybeCompress(lib, cell, f.params.flags, f.body);
       body.Ok? && |body.value| < TWO32
  }

  /** Any list of frames written one after the other is parsed back, and no byte more. */
  lemma {:induction false} FramesRoundTrip(lib: Library, d: Direction, cell: Cell, fs: seq<Frame>, rest: bytes)
    requires Invertible(lib) && forall i :: 0 <= i < |fs| ==> Deliverable(lib, d, cell, fs[i])
    ensures WriteFrames(lib, cell, fs).Ok?
    ensures ParseFrames(lib, d, cell, |fs|, WriteFrames(lib, cell, fs).value + rest) == Ok(ParsedAll(fs, rest))
    decreases |fs|
  {
    hide ParseFrame, WriteFrame, MaybeCompress, Invertible, Directed;
    if fs == [] {
      assert WriteFrames(lib, cell, fs).value + rest == rest;
    } else {
      assert Deliverable(lib, d, cell, fs[0]);
      FramesRoundTrip(lib, d, cell, fs[1..], rest);
      var tail := WriteFrames(lib, cell, fs[1..]).value;
      WriteSucceeds(lib, d, cell, fs[0]);
      FrameRoundTrip(lib, d, cell, fs[0], tail + rest);
      var head := WriteFrame(lib, cell, fs[0]).value;
      assert head + tail + rest == head + (tail + rest);
      assert [fs[0]] + fs[1..] == fs;
    }
  }

  lemma WriteSucceeds(lib: Library, d: Direction, cell: Cell, f: Frame)
    requires Deliverable(lib, d, cell, f)
    ensures WriteFrame(lib, cell, f).Ok?
  {
  }

  // ------------------------------------------------------------------- readers

  /** A connection that delivers its bytes in chunks of any size but zero. */
  class ChunkReader {
    var chunks: seq<bytes>

    ghost predicate Valid()
      reads this
    {
      forall i :: 0 <= i < |chunks| ==> chunks[i] != []
    }

    ghost function Pending(): (bs: bytes)
      reads this
    {
      Concat(chunks)
    }

    constructor (chunks: seq<bytes>)
      requires forall i :: 0 <= i < |chunks| ==> chunks[i] != []
      ensures Valid() && this.chunks == chunks
    {
      this.chunks := chunks;
    }

    /** At most `limit` bytes, and none only when none are left. */
    method Read(limit: nat) returns (got: bytes)
      requires Valid() && limit > 0
      modifies this
      ensures Valid() && got + Pending() == old(Pending())
      ensures |got| <= limit && (got == [] <==> old(Pending()) == [])
    {
      if chunks == [] {
        return [];
      }
      var head, tail := chunks[0], chunks[1..];
      if |head| <= limit {
        got, chunks := head, tail;
      } else {
        got, chunks := head[..limit], [head[limit..]] + tail;
        assert chunks[1..] == tail;
        assert head[..limit] + (head[limit..] + Concat(tail)) == head + Concat(tail);
      }
    }

    /** `read_exact`, and the loop that fills the body of a frame. */
    method ReadExact(n: nat) returns (got: bytes)
      requires Valid()
      modifies this
      ensures Valid() && got + Pending() == old(Pending())
      ensures |got| == if n <= |old(Pending())| then n else |old(Pending())|
    {
      got := [];
      ghost var all := Pending();
      while |got| < n
        invariant Valid() && got + Pending() == all && |got| <= n
        decreases n - |got|
      {
        var more := Read(n - |got|);
        if more == [] {
          return;
        }
        assert got + (more + Pending()) == got + more + Pending();
        got := got + more;
      }
    }
  }

  method ReadFrame(reader: ChunkReader, lib: Library, d: Direction, cell: Cell)
    returns (r: Result<Frame, FrameError>)
    requires reader.Valid()
    modifies reader
    ensures reader.Valid()
    ensures match ParseFrame(lib, d, cell, old(reader.Pending()))
            case Err(e) => r == Err(e)
            case Ok(p) => r == Ok(p.frame) && reader.Pending() == p.rest
  {
    hide ParseHeader, MaybeDecompress;
    ghost var stream := reader.Pending();
    var header := reader.ReadExact(HEADER_SIZE);
    if |header| < HEADER_SIZE {
      return Err(HeaderIoError);
    }
    assert stream[..HEADER_SIZE] == header;
    var head := ParseHeader(d, header);
    if head.Err? {
      return Err(head.error);
    }
    ghost var tail := reader.Pending();
    ParseBody(lib, d, cell, header, head.value, tail);
    var raw := reader.ReadExact(head.value.length);
    if |raw| < head.value.length {
      return Err(ConnectionClosed(head.value.length - |raw|, head.value.length));
    }
    assert tail[..head.value.length] == raw && tail[head.value.length..] == reader.Pending();
    var body := MaybeDecompress(lib, cell, head.value.params.flags, raw);
    if body.Err? {
      return Err(body.error);
    }
    r := Ok(Frame(head.value.params, head.value.opcode, body.value));
  }

  /** Repeated reading, however the bytes are cut into chunks. */
  method ReadFrames(reader: ChunkReader, lib: Library, d: Direction, cell: Cell, n: nat)
    returns (r: Result<seq<Frame>, FrameError>)
    requires reader.Valid()
    modifies reader
    ensures match ParseFrames(lib, d, cell, n, old(reader.Pending()))
            case Err(e) => r == Err(e)
            case Ok(p) => r == Ok(p.frames) && reader.Pending() == p.rest
  {
    hide ParseFrame, ParseFrames;
    var frames := [];
    ghost var all := ParseFrames(lib, d, cell, n, reader.Pending());
    for i := 0 to n
      invariant reader.Valid()
      invariant Preceded(frames, ParseFrames(lib, d, cell, n - i, reader.Pending())) == all
    {
      ParseStep(lib, d, cell, n - i, reader.Pending(), frames);
      var f := ReadFrame(reader, lib, d, cell);
      if f.Err? {
        return Err(f.error);
      }
      frames := frames + [f.value];
    }
    ParseNothing(lib, d, cell, reader.Pending(), frames);
    r := Ok(frames);
  }

  function Preceded(done: seq<Frame>, r: Result<ParsedAll, FrameError>): (r': Result<ParsedAll, FrameError>)
    ensures done == [] ==> r' == r
  {
    match r
    case Err(e) => Err(e)
    case Ok(p) =>
      assert done == [] ==> done + p.frames == p.frames;
      Ok(ParsedAll(done + p.frames, p.rest))
  }

  lemma ParseStep(lib: Library, d: Direction, cell: Cell, n: nat, stream: bytes, done: seq<Frame>)
    requires n > 0
    ensures Preceded(done, ParseFrames(lib, d, cell, n, stream))
            == match ParseFrame(lib, d, cell, stream)
               case Err(e) => Err(e)
               case Ok(p) => Preceded(done + [p.frame], ParseFrames(lib, d, cell, n - 1, p.rest))
  {
    hide ParseFrame;
    var head := ParseFrame(lib, d, cell, stream);
    if head.Ok? {
      var tail := ParseFrames(lib, d, cell, n - 1, head.value.rest);
      assert tail.Ok? ==>
        done + ([head.value.frame] + tail.value.frames) == done + [head.value.frame] + tail.value.frames;
    }
  }

  lemma ParseNothing(lib: Library, d: Direction, cell: Cell, stream: bytes, done: seq<Frame>)
    ensures Preceded(done, ParseFrames(lib, d, cell, 0, stream)) == Ok(ParsedAll(done, stream))
  {
    assert done + [] == done;
  }

  /** Frames written by one end arrive at the other, in whatever chunks. */
  method DeliverFrames(lib: Library, d: Direction, cell: Cell, fs: seq<Frame>, chunks: seq<bytes>)
    returns (r: Result<seq<Frame>, FrameError>)
    requires Invertible(lib) && forall i :: 0 <= i < |fs| ==> Deliverable(lib, d, cell, fs[i])
    requires WriteFrames(lib, cell, fs) == Ok(Concat(chunks))
    requires forall i :: 0 <= i < |chunks| ==> chunks[i] != []
    ensures r == Ok(fs)
  {
    hide ParseFrames, WriteFrames, Deliverable, Invertible;
    var reader := new ChunkReader(chunks);
    FramesRoundTrip(lib, d, cell, fs, []);
    assert Concat(chunks) + [] == Concat(chunks);
    r := ReadFrames(reader, lib, d, cell, |fs|);
  }

  /** `write_frame`: nothing is written unless the body can be compressed. */
  method SendFrame(writer: Buffer, lib: Library, cell: Cell, f: Frame) returns (r: Result<(), FrameError>)
    modifies writer
    ensures match WriteFrame(lib, cell, f)
            case Err(e) => r == Err(e) && writer.data == old(writer.data)
            case Ok(bs) => r.Ok? && writer.data == old(writer.data) + bs
  {
    hide MaybeCompress;
    var body := MaybeCompress(lib, cell, f.params.flags, f.body);
    if body.Err? {
      return Err(body.error);
    }
    var header := FillHeader(f.params, f.opcode, |body.value| % TWO32);
    writer.PutSlice(header[..]);
    writer.PutSlice(body.value);
    r := Ok(());
  }

  method FillHeader(params: FrameParams, opcode: FrameOpcode, length: nat) returns (header: array<byte>)
    ensures fresh(header) && header[..] == Header(params, opcode, length)
  {
    Pow256Values();
    header := new byte[HEADER_SIZE](_ => 0);
    var stream, size := ToSignedBE(params.stream, 2), ToBE(length, 4);
    header[0], header[1] := params.version, params.flags;
    forall i | 0 <= i < 2 {
      header[2 + i] := stream[i];
    }
    header[4] := OpcodeByte(opcode);
    forall i | 0 <= i < 4 {
      header[5 + i] := size[i];
    }
  }

  // -------------------------------------------------------- serialized requests

  class SerializedRequest {
    var data: bytes

    ghost predicate Valid()
      reads this
    {
      |data| >= HEADER_SIZE
    }

    constructor (data: bytes)
      ensures this.data == data
    {
      this.data := data;
    }

    /** The frame of a request with stream 0; it compresses the body itself. */
    static method Make(lib: Library, opcode: RequestOpcode, body: bytes,
                       compression: Option<Compression>, tracing: bool)
      returns (r: Result<SerializedRequest, FrameError>)
      ensures var f := Frame(FrameParams(4, RequestFlags(compression, tracing), 0), Request(opcode), body);
              match WriteFrame(lib, Some(compression), f)
              case Err(e) => r == Err(e)
              case Ok(data) => r.Ok? && fresh(r.value) && r.value.Valid() && r.value.data == data
    {
      var flags: byte, data := 0, seq(HEADER_SIZE, _ => 0);
      if compression.Some? {
        flags := flags + COMPRESSION;
        var compressed := Compress(lib, compression.value, body);
        if compressed.Err? {
          return Err(compressed.error);
        }
        data := data + compressed.value;
      } else {
        data := data + body;
      }
      if tracing {
        flags := flags + TRACING;
      }
      data := data[0 := 4][1 := flags][4 := OpcodeByte(Request(opcode))];
      data := data[..5] + ToBE((|data| - HEADER_SIZE) % TWO32, 4) + data[9..];
      ZeroStream();
      assert data == Header(FrameParams(4, flags, 0), Request(opcode), (|data| - HEADER_SIZE) % TWO32) + data[9..];
      var request := new SerializedRequest(data);
      r := Ok(request);
    }

    /** Only the stream of the header changes. */
    method SetStream(stream: i16)
      requires Valid()
      modifies this
      ensures Valid()
      ensures FitsSigned(stream, 2)
      ensures data == old(data)[..2] + ToSignedBE(stream, 2) + old(data)[4..]
    {
      Pow256Values();
      data := data[..2] + ToSignedBE(stream, 2) + data[4..];
    }
  }

  function RequestFlags(compression: Option<Compression>, tracing: bool): (flags: byte) {
    (if compression.Some? then COMPRESSION else 0) + (if tracing then TRACING else 0)
  }

  lemma RequestFlagsRead(compression: Option<Compression>, tracing: bool)
    ensures var flags := RequestFlags(compression, tracing);
            && (HasFlag(flags, COMPRESSION) <==> compression.Some?) && (HasFlag(flags, TRACING) <==> tracing)
            && !HasFlag(flags, CUSTOM_PAYLOAD) && !HasFlag(flags, WARNING)
  {
  }

  lemma ZeroStream()
    ensures FitsSigned(0, 2) && ToSignedBE(0, 2) == [0, 0]
  {
    Pow256Values();
    assert ToBE(0, 2) == ToBE(0, 1) + [0] && ToBE(0, 1) == ToBE(0, 0) + [0];
  }

  /** A request whose stream is set is the frame with that stream. */
  lemma RequestWithStream(lib: Library, cell: Cell, f: Frame, stream: i16)
    requires WriteFrame(lib, cell, f).Ok?
    ensures FitsSigned(stream, 2)
    ensures var data := WriteFrame(lib, cell, f).value;
            WriteFrame(lib, cell, f.(params := f.params.(stream := stream)))
            == Ok(data[..2] + ToSignedBE(stream, 2) + data[4..])
  {
    Pow256Values();
    var data := WriteFrame(lib, cell, f).value;
    var body := MaybeCompress(lib, cell, f.params.flags, f.body).value;
    var data' := WriteFrame(lib, cell, f.(params := f.params.(stream := stream))).value;
    assert data[..2] == [f.params.version, f.params.flags];
    assert data[4..] == [OpcodeByte(f.opcode)] + ToBE(|body| % TWO32, 4) + body;
    assert data' == data[..2] + ToSignedBE(stream, 2) + data[4..];
  }

  /** So it parses to the chosen stream, the flags and the body. */
  lemma RequestRoundTrip(lib: Library, opcode: RequestOpcode, body: bytes, compression: Option<Compression>,
                         tracing: bool, stream: i16, rest: bytes)
    requires Invertible(lib) && |body| < TWO32
    requires var packed := MaybeCompress(lib, Some(compression), RequestFlags(compression, tracing), body);
             packed.Ok? && |packed.value| < TWO32
    ensures FitsSigned(stream, 2)
    ensures var flags := RequestFlags(compression, tracing);
            var f := Frame(FrameParams(4, flags, 0), Request(opcode), body);
            var data := WriteFrame(lib, Some(compression), f).value;
            ParseFrame(lib, FromDriver, Some(compression), data[..2] + ToSignedBE(stream, 2) + data[4..] + rest)
            == Ok(Parsed(Frame(FrameParams(4, flags, stream), Request(opcode), body), rest))
  {
    hide ParseFrame, Compress, Header, HasFlag, ToSignedBE, FitsSigned, Invertible, RequestFlags;
    var f := Frame(FrameParams(4, RequestFlags(compression, tracing), 0), Request(opcode), body);
    RequestWithStream(lib, Some(compression), f, stream);
    FrameRoundTrip(lib, FromDriver, Some(compression), f.(params := f.params.(stream := stream)), rest);
  }
}
