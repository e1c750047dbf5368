/**
 * The sequential reader `SavedGame` uses while parsing its buffer
 * (Scripts/savedGame.js:50-102). The buffer never changes while it is read,
 * so a read takes the buffer and the current position and returns the
 * value together with the position just past it.
 */
module Cursor {
  import opened Bytes
  import opened Wrappers
  import opened LittleEndian

  /** The longest name `readString` accepts, in code units. */
  const MAX_STRING: nat := 4096

  /** A value read and the position just past it. */
  datatype Read<T> = Read(value: T, next: nat)

  /** Why a read could not produce a value. */
  datatype ReadError =
    | StringTooLong(length: nat, position: nat)  // the thrown "longer than 4K" error; `position` is where reading stopped
    | PastEnd(position: nat)                     // a header field would be read beyond the buffer

  /** `eof`: the position has reached or passed the end of the buffer. */
  predicate Eof(data: seq<Byte>, pos: nat) {
    pos >= |data|
  }

  /** `skipBytes`: moves the position forward without reading; it may pass the end. */
  function SkipBytes(pos: nat, count: nat): nat {
    pos + count
  }

  /** `readByte`: the byte at the position; the position advances by one. */
  function ReadByte(data: seq<Byte>, pos: nat): (r: Read<Byte>)
    requires pos < |data|
    ensures r.next == pos + 1
  {
    Read(data[pos], SkipBytes(pos, 1))
  }

  /** `readInt16`: the little-endian 16-bit value at the position; the position advances by two. */
  function ReadInt16(data: seq<Byte>, pos: nat): (r: Read<nat>)
    requires pos + 2 <= |data|
    ensures r.value < 0x1_0000 && r.next == pos + 2
  {
    Read(U16At(data, pos), SkipBytes(pos, 2))
  }

  /** `readInt16` is two `readByte`s, the first one the low byte. */
  lemma {:induction false} ReadInt16OfBytes(data: seq<Byte>, pos: nat)
    requires pos + 2 <= |data|
    ensures var lo := ReadByte(data, pos);
            var hi := ReadByte(data, lo.next);
            ReadInt16(data, pos) == Read(lo.value + 0x100 * hi.value, hi.next)
  {
  }

  /** `readInt32`: the little-endian 32-bit value at the position; the position advances by four. */
  function ReadInt32(data: seq<Byte>, pos: nat): (r: Read<nat>)
    requires pos + 4 <= |data|
    ensures r.value < TWO_32 && r.next == pos + 4
  {
    Read(U32At(data, pos), SkipBytes(pos, 4))
  }

  /** `readInt32` is two `readInt16`s, the first one the low half. */
  lemma {:induction false} ReadInt32OfHalves(data: seq<Byte>, pos: nat)
    requires pos + 4 <= |data|
    ensures var lo := ReadInt16(data, pos);
            var hi := ReadInt16(data, lo.next);
            ReadInt32(data, pos) == Read(lo.value + 0x1_0000 * hi.value, hi.next)
  {
  }

  /** The `count` code units stored from `pos` on, two bytes each, low byte first. */
  function UnitsAt(data: seq<Byte>, pos: nat, count: nat): (r: JsString)
    requires pos + 2 * count <= |data|
    ensures |r| == count
    decreases count
  {
    if count == 0 then []
    else [U16At(data, pos)] + UnitsAt(data, pos + 2, count - 1)
  }

  /** Unit `i` of `UnitsAt` is the 16-bit value of bytes `pos + 2i` and `pos + 2i + 1`. */
  lemma {:induction false} UnitsAtIndex(data: seq<Byte>, pos: nat, count: nat)
    requires pos + 2 * count <= |data|
    ensures forall i | 0 <= i < count ::
      UnitsAt(data, pos, count)[i] == U16At(data, pos + 2 * i)
    decreases count
  {
    if count > 0 {
      UnitsAtIndex(data, pos + 2, count - 1);
      forall i | 0 <= i < count
        ensures UnitsAt(data, pos, count)[i] == U16At(data, pos + 2 * i)
      {
        if i > 0 {
          assert UnitsAt(data, pos, count)[i] == UnitsAt(data, pos + 2, count - 1)[i - 1];
        }
      }
    }
  }

  /** The `readString` loop: `count` code units read one after the other. */
  function ReadUnits(data: seq<Byte>, pos: nat, count: nat): (r: Read<JsString>)
    requires pos + 2 * count <= |data|
    ensures |r.value| == count && r.next == pos + 2 * count
  {
    Read(UnitsAt(data, pos, count), SkipBytes(pos, 2 * count))
  }

  /** One loop iteration: the first unit is a `readInt16`, and the loop goes on from where it stopped. */
  lemma {:induction false} ReadUnitsStep(data: seq<Byte>, pos: nat, count: nat)
    requires 0 < count && pos + 2 * count <= |data|
    ensures var unit := ReadInt16(data, pos);
            var rest := ReadUnits(data, unit.next, count - 1);
            ReadUnits(data, pos, count) == Read([unit.value] + rest.value, rest.next)
  {
  }

  /**
   * `readString`: a 32-bit length, the "longer than 4K" guard, then that
   * many code units. A header that would run past the end of the buffer is
   * reported as `PastEnd`.
   */
  function ReadString(data: seq<Byte>, pos: nat): (r: Result<Read<JsString>, ReadError>)
    ensures r.Success? ==> pos + 4 + 2 * |r.value.value| == r.value.next <= |data|
    ensures r.Success? ==> |r.value.value| <= MAX_STRING
  {
    if pos + 4 > |data| then Failure(PastEnd(pos))
    else
      var len := ReadInt32(data, pos);
      if len.value > MAX_STRING then Failure(StringTooLong(len.value, len.next))
      else if len.next + 2 * len.value > |data| then Failure(PastEnd(len.next))
      else Success(ReadUnits(data, len.next, len.value))
  }

  /**
   * What `readString` yields: the name whose length the prefix gives and
   * whose units follow it, consuming exactly `4 + 2n` bytes; a prefix above
   * 4096 stops it with only the prefix consumed.
   */
  lemma {:induction false} ReadStringSpec(data: seq<Byte>, pos: nat)
    ensures var r := ReadString(data, pos);
      && (r.Success? <==>
            && pos + 4 <= |data|
            && ReadInt32(data, pos).value <= MAX_STRING
            && pos + 4 + 2 * ReadInt32(data, pos).value <= |data|)
      && (r.Success? ==>
            && |r.value.value| == ReadInt32(data, pos).value
            && r.value.value == UnitsAt(data, pos + 4, |r.value.value|)
            && r.value.next == pos + 4 + 2 * |r.value.value|)
      && (r.Failure? && r.error.StringTooLong? <==>
            pos + 4 <= |data| && ReadInt32(data, pos).value > MAX_STRING)
      && (r.Failure? && r.error.StringTooLong? ==>
            r.error.position == pos + 4 && r.error.length == ReadInt32(data, pos).value)
  {
  }

  /** Reading back four written bytes yields the written value modulo 2^32. */
  lemma {:induction false} ReadWrittenUInt32(data: seq<Byte>, pos: nat, n: nat)
    requires pos + 4 <= |data| && data[pos..pos + 4] == WriteUInt32(n)
    ensures ReadInt32(data, pos).value == n % TWO_32
  {
    WriteUInt32Value(n);
    U32AtBytes(data, pos);
    assert data[pos] == data[pos..pos + 4][0];
    assert data[pos + 1] == data[pos..pos + 4][1];
    assert data[pos + 2] == data[pos..pos + 4][2];
    assert data[pos + 3] == data[pos..pos + 4][3];
  }
}
