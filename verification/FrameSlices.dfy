/**
  `FrameSlice`, a moving window over a received frame. Models
  scylla-cql/src/deserialize/frame_slice.rs.
 */
module FrameSlices {
  import opened Wire
  import opened Vint
  import opened Cells

  /** A read `[bytes]` item and the bytes after it are ranges of the buffer, in this order. */
  lemma BytesOptRange(buf: bytes)
    ensures var r := ReadBytesOpt(buf);
            r.Ok? ==>
              var at := |buf| - |r.value.rest|;
              && 4 <= at <= |buf| && r.value.rest == buf[at..]
              && (if r.value.value.Some? then r.value.value.value == buf[4..at] else at == 4)
  {
  }

  lemma RangeOfRange(m: bytes, start: nat, end: nat, from: nat, to: nat)
    requires start <= from <= to <= end <= |m|
    ensures m[start..end][from - start..to - start] == m[from..to]
  {
    var s := m[start..end];
    assert forall i :: from - start <= i < to - start ==> s[i] == m[start + i];
  }

  class FrameSlice {
    /** The allocation that the slice points into. */
    const memory: bytes
    /** `original_frame`: that same allocation, or empty for a borrowed slice. */
    const original: bytes
    var start: nat
    var end: nat

    ghost predicate Valid()
      reads this
    {
      start <= end <= |memory| && (original == memory || original == [])
    }

    function AsSlice(): (bs: bytes)
      requires Valid()
      reads this
    {
      memory[start..end]
    }

    /** `FrameSlice::new`. */
    constructor (frame: bytes)
      ensures Valid() && AsSlice() == frame
      ensures memory == original == frame && start == 0 && end == |frame|
    {
      memory, original := frame, frame;
      start, end := 0, |frame|;
    }

    /** `FrameSlice::new_borrowed`. */
    constructor Borrowed(slice: bytes)
      ensures Valid() && AsSlice() == slice
      ensures memory == slice && original == []
    {
      memory, original := slice, [];
      start, end := 0, |slice|;
    }

    /** Another slice of the same frame; slices are copied, never shared. */
    constructor Part(other: FrameSlice, from: nat, to: nat)
      requires other.Valid() && from <= to <= |other.memory|
      ensures Valid() && memory == other.memory && original == other.original
      ensures start == from && end == to
    {
      memory, original := other.memory, other.original;
      start, end := from, to;
    }

    /** The owned bytes are the slice, whether cut out of the frame or copied. */
    method ToBytes() returns (bs: bytes)
      requires Valid()
      ensures bs == AsSlice()
    {
      if original == [] {
        return AsSlice();
      }
      bs := original[start..end];
    }

    /** A failed read leaves the slice as it was; an item is the range it was read from. */
    method ReadCqlBytes() returns (r: Result<Option<FrameSlice>, LowLevelError>)
      requires Valid()
      modifies this
      ensures Valid() && end == old(end)
      ensures r.Ok? && r.value.Some? ==> IsPart(r.value.value, old(start) + 4, start)
      ensures var cell := ReadBytesOpt(old(AsSlice()));
              if cell.Err? then r == Err(cell.error) && start == old(start)
              else
                && r.Ok? && AsSlice() == cell.value.rest && old(start) + 4 <= start
                && (r.value.Some? <==> cell.value.value.Some?)
                && (r.value.Some? ==> r.value.value.AsSlice() == cell.value.value.value)
      ensures r.Ok? && r.value.Some? ==> fresh(r.value.value)
    {
      hide ReadBytesOpt;
      BytesOptRange(AsSlice());
      var read := ReadBytesOpt(AsSlice());
      if read.Err? {
        return Err(read.error);
      }
      var at := end - |read.value.rest|;
      r := Ok(None);
      if read.value.value.Some? {
        var item := new FrameSlice.Part(this, at - |read.value.value.value|, at);
        RangeOfRange(memory, start, end, start + 4, at);
        r := Ok(Some(item));
      }
      RangeOfRange(memory, start, end, at, end);
      start := at;
    }

    /** Nothing is read from an empty slice, and that is no error. */
    method ReadNBytes(count: nat) returns (r: Result<Option<FrameSlice>, LowLevelError>)
      requires Valid()
      modifies this
      ensures Valid() && end == old(end)
      ensures r.Ok? && r.value.Some? ==> IsPart(r.value.value, old(start), start)
      ensures var item := Cells.ReadNBytes(count, old(AsSlice()));
              if item.Err? then r == Err(item.error) && start == old(start)
              else
                && r.Ok? && AsSlice() == item.value.rest && old(start) <= start
                && (r.value.Some? <==> item.value.value.Some?)
                && (r.value.Some? ==> r.value.value.AsSlice() == item.value.value.value)
      ensures r.Ok? && r.value.Some? ==> fresh(r.value.value)
    {
      if start == end {
        return Ok(None);
      }
      var read := ReadRawBytes(count, AsSlice());
      if read.Err? {
        return Err(read.error);
      }
      var item := new FrameSlice.Part(this, start, start + count);
      RangeOfRange(memory, start, end, start, start + count);
      RangeOfRange(memory, start, end, start + count, end);
      r := Ok(Some(item));
      start := start + count;
    }

    /** `read_int_length` on the slice itself. */
    method ReadLength() returns (r: Result<nat, LowLevelError>)
      requires Valid()
      modifies this
      ensures Valid() && end == old(end)
      ensures var n := ReadIntLength(old(AsSlice()));
              if n.Err? then r == Err(n.error) else r == Ok(n.value.value) && AsSlice() == n.value.rest
    {
      var n := ReadIntLength(AsSlice());
      if n.Err? {
        return Err(n.error);
      }
      RangeOfRange(memory, start, end, start + 4, end);
      start := start + 4;
      r := Ok(n.value.value);
    }

    /** `unsigned_vint_decode` on the slice itself; after a failure the slice may be anywhere. */
    method ReadVint() returns (r: Result<u64, LowLevelError>)
      requires Valid()
      modifies this
      ensures Valid() && end == old(end)
      ensures var n := UnsignedVintDecode(old(AsSlice()));
              if n.Err? then r.Err? else r == Ok(n.value.value) && AsSlice() == n.value.rest && old(start) <= start
    {
      var cursor := new Cursor(AsSlice());
      r := DecodeUnsignedVint(cursor);
      if r.Ok? {
        RangeOfRange(memory, start, end, end - |cursor.rest|, end);
        start := end - |cursor.rest|;
      }
    }

    /** `part` is the range of the same frame. */
    ghost predicate IsPart(part: FrameSlice, from: nat, to: nat)
      reads part
    {
      && part.Valid() && part.memory == memory && part.original == original
      && part.start == from && part.end == to
    }
  }
}
