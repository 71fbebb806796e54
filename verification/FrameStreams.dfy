/**
  Streams of frames as their bytes and the compression cell grow: what a reader or
  a writer did under an unset cell it would have done under any, more bytes do not
  change what was parsed, and what was parsed without compression is written back
  byte for byte. Models scylla-proxy/src/frame.rs.
 */
module FrameStreams {
  import opened Wire
  import opened Opcodes
  import opened Frames

  // ------------------------------------------------------- the cell is set later

  lemma UnsetCell(lib: Library, d: Direction, cell: Cell, stream: bytes)
    requires ParseFrame(lib, d, None, stream).Ok?
    ensures ParseFrame(lib, d, cell, stream) == ParseFrame(lib, d, None, stream)
  {
    hide ParseHeader, Decompress;
  }

  /** Frames that were parsed before the cell was set are the same under what it is set to. */
  lemma {:induction false} UnsetCellFrames(lib: Library, d: Direction, cell: Cell, n: nat, stream: bytes)
    requires ParseFrames(lib, d, None, n, stream).Ok?
    ensures ParseFrames(lib, d, cell, n, stream) == ParseFrames(lib, d, None, n, stream)
    decreases n
  {
    hide ParseFrame;
    if n > 0 {
      UnsetCell(lib, d, cell, stream);
      UnsetCellFrames(lib, d, cell, n - 1, ParseFrame(lib, d, None, stream).value.rest);
    }
  }

  lemma UnsetCellWrite(lib: Library, cell: Cell, f: Frame)
    requires WriteFrame(lib, None, f).Ok?
    ensures WriteFrame(lib, cell, f) == WriteFrame(lib, None, f)
  {
    hide Header, Compress;
  }

  lemma {:induction false} UnsetCellWrites(lib: Library, cell: Cell, fs: seq<Frame>)
    requires WriteFrames(lib, None, fs).Ok?
    ensures WriteFrames(lib, cell, fs) == WriteFrames(lib, None, fs)
    decreases |fs|
  {
    hide WriteFrame;
    if fs != [] {
      UnsetCellWrite(lib, cell, fs[0]);
      UnsetCellWrites(lib, cell, fs[1..]);
    }
  }

  // --------------------------------------------------------------- more bytes

  lemma MoreBytes(lib: Library, d: Direction, cell: Cell, stream: bytes, more: bytes)
    requires ParseFrame(lib, d, cell, stream).Ok?
    ensures var p := ParseFrame(lib, d, cell, stream).value;
            ParseFrame(lib, d, cell, stream + more) == Ok(Parsed(p.frame, p.rest + more))
  {
    hide ParseHeader, MaybeDecompress;
    var all := stream + more;
    assert all[..HEADER_SIZE] == stream[..HEADER_SIZE];
    var end := HEADER_SIZE + ParseHeader(d, stream[..HEADER_SIZE]).value.length;
    assert all[HEADER_SIZE..end] == stream[HEADER_SIZE..end];
    assert all[end..] == stream[end..] + more;
  }

  lemma {:induction false} MoreBytesFrames(lib: Library, d: Direction, cell: Cell, n: nat, stream: bytes, more: bytes)
    requires ParseFrames(lib, d, cell, n, stream).Ok?
    ensures var p := ParseFrames(lib, d, cell, n, stream).value;
            ParseFrames(lib, d, cell, n, stream + more) == Ok(ParsedAll(p.frames, p.rest + more))
    decreases n
  {
    hide ParseFrame;
    if n > 0 {
      MoreBytes(lib, d, cell, stream, more);
      MoreBytesFrames(lib, d, cell, n - 1, ParseFrame(lib, d, cell, stream).value.rest, more);
    }
  }

  /** Parsing the next frame off the rest is parsing one more. */
  lemma {:induction false} OneMoreParsed(lib: Library, d: Direction, cell: Cell, n: nat, stream: bytes)
    requires ParseFrames(lib, d, cell, n, stream).Ok?
    requires ParseFrame(lib, d, cell, ParseFrames(lib, d, cell, n, stream).value.rest).Ok?
    ensures var p := ParseFrames(lib, d, cell, n, stream).value;
            var q := ParseFrame(lib, d, cell, p.rest).value;
            ParseFrames(lib, d, cell, n + 1, stream) == Ok(ParsedAll(p.frames + [q.frame], q.rest))
    decreases n
  {
    hide ParseFrame;
    var p := ParseFrames(lib, d, cell, n, stream).value;
    var q := ParseFrame(lib, d, cell, p.rest).value;
    if n == 0 {
      assert ParseFrames(lib, d, cell, 0, q.rest) == Ok(ParsedAll([], q.rest));
      assert [q.frame] + [] == [] + [q.frame];
    } else {
      var head := ParseFrame(lib, d, cell, stream).value;
      OneMoreParsed(lib, d, cell, n - 1, head.rest);
      var tail := ParseFrames(lib, d, cell, n - 1, head.rest).value.frames;
      assert [head.frame] + (tail + [q.frame]) == [head.frame] + tail + [q.frame];
    }
  }

  lemma {:induction false} OneMoreWritten(lib: Library, cell: Cell, fs: seq<Frame>, f: Frame)
    requires WriteFrames(lib, cell, fs).Ok? && WriteFrame(lib, cell, f).Ok?
    ensures WriteFrames(lib, cell, fs + [f])
            == Ok(WriteFrames(lib, cell, fs).value + WriteFrame(lib, cell, f).value)
    decreases |fs|
  {
    hide WriteFrame;
    if fs == [] {
      assert fs + [f] == [f] && [f][1..] == [];
      var bs := WriteFrame(lib, cell, f).value;
      assert bs + [] == [] + bs;
    } else {
      assert (fs + [f])[0] == fs[0] && (fs + [f])[1..] == fs[1..] + [f];
      OneMoreWritten(lib, cell, fs[1..], f);
      assert WriteFrame(lib, cell, fs[0]).value
             + (WriteFrames(lib, cell, fs[1..]).value + WriteFrame(lib, cell, f).value)
          == WriteFrames(lib, cell, fs).value + WriteFrame(lib, cell, f).value;
    }
  }

  // ------------------------------------------------------- what was parsed

  lemma ParsedDirected(lib: Library, d: Direction, cell: Cell, stream: bytes)
    requires ParseFrame(lib, d, cell, stream).Ok?
    ensures Directed(d, ParseFrame(lib, d, cell, stream).value.frame)
  {
    hide MaybeDecompress;
  }

  /** Every parsed frame goes the way that it was read from. */
  lemma {:induction false} AllDirected(lib: Library, d: Direction, cell: Cell, n: nat, stream: bytes, i: nat)
    requires ParseFrames(lib, d, cell, n, stream).Ok? && i < n
    ensures Directed(d, ParseFrames(lib, d, cell, n, stream).value.frames[i])
    decreases n
  {
    hide ParseFrame, Directed;
    ParsedDirected(lib, d, cell, stream);
    if i > 0 {
      AllDirected(lib, d, cell, n - 1, ParseFrame(lib, d, cell, stream).value.rest, i - 1);
    }
  }

  predicate Uncompressed(f: Frame) {
    !HasFlag(f.params.flags, COMPRESSION)
  }

  lemma HeaderBack(d: Direction, h: bytes)
    requires |h| == HEADER_SIZE && ParseHeader(d, h).Ok?
    ensures var head := ParseHeader(d, h).value;
            head.length < TWO32 && Header(head.params, head.opcode, head.length) == h
  {
    Pow256Values();
    var head := ParseHeader(d, h).value;
    ToFromSignedBE(h[2..4]);
    ToFromBE(h[5..9]);
    assert OpcodeByte(head.opcode) == h[4];
    assert h == [h[0], h[1]] + h[2..4] + [h[4]] + h[5..9];
  }

  /** A frame without compression is written back as the bytes it was parsed from. */
  lemma WrittenBack(lib: Library, d: Direction, cell: Cell, stream: bytes)
    requires ParseFrame(lib, d, cell, stream).Ok? && Uncompressed(ParseFrame(lib, d, cell, stream).value.frame)
    ensures var p := ParseFrame(lib, d, cell, stream).value;
            && WriteFrame(lib, cell, p.frame).Ok?
            && stream == WriteFrame(lib, cell, p.frame).value + p.rest
  {
    hide ParseHeader, Header;
    var p, h := ParseFrame(lib, d, cell, stream).value, stream[..HEADER_SIZE];
    HeaderBack(d, h);
    var end := HEADER_SIZE + ParseHeader(d, h).value.length;
    assert stream == h + stream[HEADER_SIZE..end] + stream[end..];
  }

  lemma {:induction false} AllWrittenBack(lib: Library, d: Direction, cell: Cell, n: nat, stream: bytes)
    requires ParseFrames(lib, d, cell, n, stream).Ok?
    requires forall i :: 0 <= i < n ==> Uncompressed(ParseFrames(lib, d, cell, n, stream).value.frames[i])
    ensures var p := ParseFrames(lib, d, cell, n, stream).value;
            && WriteFrames(lib, cell, p.frames).Ok?
            && stream == WriteFrames(lib, cell, p.frames).value + p.rest
    decreases n
  {
    hide ParseFrame, WriteFrame, Uncompressed;
    if n > 0 {
      var p, head := ParseFrames(lib, d, cell, n, stream).value, ParseFrame(lib, d, cell, stream).value;
      var tail := ParseFrames(lib, d, cell, n - 1, head.rest).value;
      assert p.frames[0] == head.frame && p.frames[1..] == tail.frames;
      assert forall i :: 0 <= i < n - 1 ==> tail.frames[i] == p.frames[i + 1];
      WrittenBack(lib, d, cell, stream);
      AllWrittenBack(lib, d, cell, n - 1, head.rest);
      var a, b := WriteFrame(lib, cell, head.frame).value, WriteFrames(lib, cell, tail.frames).value;
      assert a + (b + p.rest) == a + b + p.rest;
    }
  }

  /** Where no compression was negotiated no parsed frame is compressed. */
  lemma {:induction false} NoneCompressed(lib: Library, d: Direction, cell: Cell, n: nat, stream: bytes, i: nat)
    requires Negotiated(cell).None? && ParseFrames(lib, d, cell, n, stream).Ok? && i < n
    ensures Uncompressed(ParseFrames(lib, d, cell, n, stream).value.frames[i])
    decreases n
  {
    hide Uncompressed, ParseFrame;
    ParsedUncompressed(lib, d, cell, stream);
    if i > 0 {
      NoneCompressed(lib, d, cell, n - 1, ParseFrame(lib, d, cell, stream).value.rest, i - 1);
    }
  }

  lemma ParsedUncompressed(lib: Library, d: Direction, cell: Cell, stream: bytes)
    requires Negotiated(cell).None? && ParseFrame(lib, d, cell, stream).Ok?
    ensures Uncompressed(ParseFrame(lib, d, cell, stream).value.frame)
  {
    hide ParseHeader;
  }

  lemma ParsedWritable(lib: Library, d: Direction, cell: Cell, stream: bytes)
    requires ParseFrame(lib, d, cell, stream).Ok? && forall b: bytes :: lib.snap(b).Some?
    ensures WriteFrame(lib, cell, ParseFrame(lib, d, cell, stream).value.frame).Ok?
  {
    hide ParseHeader, Header, HasFlag;
  }

  /** What could be read can be written again, unless Snappy refuses. */
  lemma {:induction false} AllWritable(lib: Library, d: Direction, cell: Cell, n: nat, stream: bytes, i: nat)
    requires ParseFrames(lib, d, cell, n, stream).Ok? && i < n && forall b: bytes :: lib.snap(b).Some?
    ensures WriteFrame(lib, cell, ParseFrames(lib, d, cell, n, stream).value.frames[i]).Ok?
    decreases n
  {
    hide ParseFrame, WriteFrame;
    ParsedWritable(lib, d, cell, stream);
    if i > 0 {
      AllWritable(lib, d, cell, n - 1, ParseFrame(lib, d, cell, stream).value.rest, i - 1);
    }
  }

  /** The frames before the `k`-th are written as the beginning of what all are written as. */
  lemma {:induction false} WrittenPrefix(lib: Library, cell: Cell, fs: seq<Frame>, k: nat)
    requires k <= |fs| && WriteFrames(lib, cell, fs).Ok?
    ensures WriteFrames(lib, cell, fs[..k]).Ok?
    ensures WriteFrames(lib, cell, fs[..k]).value <= WriteFrames(lib, cell, fs).value
    decreases k
  {
    hide WriteFrame;
    if k > 0 {
      WrittenPrefix(lib, cell, fs[1..], k - 1);
      assert fs[..k][1..] == fs[1..][..k - 1];
    }
  }
}
