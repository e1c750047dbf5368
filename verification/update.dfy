/**
 * What `updateJson` does to a save (Scripts/savedGame.js:173-188): the
 * splice rewrites one block, and the re-parse finds the same blocks in the
 * same order, with the edited one resized and the later ones moved.
 */
module Update {
  import opened Bytes
  import opened Wrappers
  import opened LittleEndian
  import opened Cursor
  import opened SavedGame

  /** The same units are read from two buffers that agree on the bytes holding them. */
  lemma {:induction false} UnitsAtMoved(data: seq<Byte>, pos: nat, data2: seq<Byte>, pos2: nat, count: nat)
    requires pos + 2 * count <= |data| && pos2 + 2 * count <= |data2|
    requires forall x | pos <= x < pos + 2 * count :: data2[x - pos + pos2] == data[x]
    ensures UnitsAt(data2, pos2, count) == UnitsAt(data, pos, count)
    decreases count
  {
    if count > 0 {
      assert data2[pos2] == data[pos] && data2[pos2 + 1] == data[pos + 1];
      UnitsAtMoved(data, pos + 2, data2, pos2 + 2, count - 1);
    }
  }

  /** The name-length field reads the same from two buffers that agree on its bytes. */
  lemma {:induction false} NameLengthMoved(data: seq<Byte>, h: nat, data2: seq<Byte>, h2: nat)
    requires h + 4 <= |data| && h2 + 4 <= |data2|
    requires data2[h2] == data[h] && data2[h2 + 1] == data[h + 1] && data2[h2 + 2] == data[h + 2] && data2[h2 + 3] == data[h + 3]
    ensures U32At(data2, h2) == U32At(data, h)
  {
  }

  /**
   * A header carried over to another buffer: the name bytes are copied
   * (possibly to another place) and the size field holds `e2.filesize`.
   */
  lemma {:induction false} HeaderTransfer(data: seq<Byte>, e: Entry, data2: seq<Byte>, e2: Entry)
    requires HeaderAt(data, e)
    requires e2.filename == e.filename && 8 + 2 * |e.filename| <= e2.offset <= |data2|
    requires var h := HeaderStart(e); var h2 := HeaderStart(e2);
      data2[h2] == data[h] && data2[h2 + 1] == data[h + 1] && data2[h2 + 2] == data[h + 2] && data2[h2 + 3] == data[h + 3]
    requires forall x | HeaderStart(e) + 4 <= x < HeaderStart(e) + 4 + 2 * |e.filename| ::
      data2[x - (HeaderStart(e) + 4) + (HeaderStart(e2) + 4)] == data[x]
    requires U32At(data2, e2.offset - 4) == e2.filesize
    ensures HeaderAt(data2, e2)
  {
    NameLengthTransfer(data, e, data2, e2);
    NameTransfer(data, e, data2, e2);
  }

  /** The name-length field of a carried-over header. */
  lemma {:induction false} NameLengthTransfer(data: seq<Byte>, e: Entry, data2: seq<Byte>, e2: Entry)
    requires HeaderAt(data, e)
    requires e2.filename == e.filename && 8 + 2 * |e.filename| <= e2.offset <= |data2|
    requires var h := HeaderStart(e); var h2 := HeaderStart(e2);
      data2[h2] == data[h] && data2[h2 + 1] == data[h + 1] && data2[h2 + 2] == data[h + 2] && data2[h2 + 3] == data[h + 3]
    requires forall x | HeaderStart(e) + 4 <= x < HeaderStart(e) + 4 + 2 * |e.filename| ::
      data2[x - (HeaderStart(e) + 4) + (HeaderStart(e2) + 4)] == data[x]
    ensures var h := HeaderStart(e2);
      U32At(data2, h) == |e2.filename|
  {
    NameLengthMoved(data, HeaderStart(e), data2, HeaderStart(e2));
  }

  /** The name of a carried-over header. */
  lemma {:induction false} NameTransfer(data: seq<Byte>, e: Entry, data2: seq<Byte>, e2: Entry)
    requires 8 + 2 * |e.filename| <= e.offset <= |data| && UnitsAt(data, HeaderStart(e) + 4, |e.filename|) == e.filename
    requires e2.filename == e.filename && 8 + 2 * |e.filename| <= e2.offset <= |data2|
    requires forall x | HeaderStart(e) + 4 <= x < HeaderStart(e) + 4 + 2 * |e.filename| ::
      data2[x - (HeaderStart(e) + 4) + (HeaderStart(e2) + 4)] == data[x]
    ensures var h := HeaderStart(e2);
      UnitsAt(data2, h + 4, |e2.filename|) == e2.filename
  {
    NameMoved(data, HeaderStart(e) + 4, data2, HeaderStart(e2) + 4, e.filename);
  }

  /** A name stored in one buffer reads the same from another buffer holding a copy of its bytes. */
  lemma {:induction false} NameMoved(data: seq<Byte>, pos: nat, data2: seq<Byte>, pos2: nat, name: JsString)
    requires pos + 2 * |name| <= |data| && pos2 + 2 * |name| <= |data2|
    requires UnitsAt(data, pos, |name|) == name
    requires forall x | pos <= x < pos + 2 * |name| :: data2[x - pos + pos2] == data[x]
    ensures UnitsAt(data2, pos2, |name|) == name
  {
    UnitsAtMoved(data, pos, data2, pos2, |name|);
  }

  /** The copy condition of `HeaderTransfer`, restated for the name-length field and for the name. */
  lemma {:induction false} NameCopied(data: seq<Byte>, e: Entry, data2: seq<Byte>, e2: Entry)
    requires e2.filename == e.filename
    requires 8 + 2 * |e.filename| <= e.offset <= |data| && 8 + 2 * |e.filename| <= e2.offset <= |data2|
    requires forall x | HeaderStart(e) <= x < e.offset - 4 :: data2[x - e.offset + e2.offset] == data[x]
    ensures var h := HeaderStart(e); var h2 := HeaderStart(e2);
      data2[h2] == data[h] && data2[h2 + 1] == data[h + 1] && data2[h2 + 2] == data[h + 2] && data2[h2 + 3] == data[h + 3]
    ensures forall x | HeaderStart(e) + 4 <= x < HeaderStart(e) + 4 + 2 * |e.filename| ::
      data2[x - (HeaderStart(e) + 4) + (HeaderStart(e2) + 4)] == data[x]
  {
    var h := HeaderStart(e);
    var h2 := HeaderStart(e2);
    assert data2[h - e.offset + e2.offset] == data[h];
    assert data2[h + 1 - e.offset + e2.offset] == data[h + 1];
    assert data2[h + 2 - e.offset + e2.offset] == data[h + 2];
    assert data2[h + 3 - e.offset + e2.offset] == data[h + 3];
    forall x | h + 4 <= x < h + 4 + 2 * |e.filename|
      ensures data2[x - (h + 4) + (h2 + 4)] == data[x]
    {
      assert x - (h + 4) + (h2 + 4) == x - e.offset + e2.offset;
    }
  }

  /** A whole block header moved to another place keeps describing the same entry there. */
  lemma {:induction false} HeaderMoved(data: seq<Byte>, e: Entry, data2: seq<Byte>, e2: Entry)
    requires HeaderAt(data, e)
    requires e2.filename == e.filename && e2.filesize == e.filesize && 8 + 2 * |e.filename| <= e2.offset <= |data2|
    requires forall x | HeaderStart(e) <= x < e.offset :: data2[x - e.offset + e2.offset] == data[x]
    ensures HeaderAt(data2, e2)
  {
    var o := e.offset;
    var o2 := e2.offset;
    assert data2[o2 - 4] == data[o - 4] && data2[o2 - 3] == data[o - 3] && data2[o2 - 2] == data[o - 2] && data2[o2 - 1] == data[o - 1];
    NameCopied(data, e, data2, e2);
    HeaderTransfer(data, e, data2, e2);
  }

  /** Blocks of a tiling come in buffer order: a block ends before any later block starts. */
  lemma {:induction false} TilesOrdered(data: seq<Byte>, pos: nat, files: seq<Entry>)
    requires Tiles(data, pos, files)
    ensures forall i, j | 0 <= i < j < |files| :: End(files[i]) <= HeaderStart(files[j])
  {
    forall i, j | 0 <= i < j < |files|
      ensures End(files[i]) <= HeaderStart(files[j])
    {
      OrderedFrom(data, pos, files, i, j);
    }
  }

  lemma {:induction false} OrderedFrom(data: seq<Byte>, pos: nat, files: seq<Entry>, i: nat, j: nat)
    requires Tiles(data, pos, files) && i < j < |files|
    ensures End(files[i]) <= HeaderStart(files[j])
    decreases j - i
  {
    if j > i + 1 {
      OrderedFrom(data, pos, files, i + 1, j);
      assert HeaderAt(data, files[i + 1]);
    }
  }

  /** An entry of a block after the edited one, moved from behind a payload ending at `from` to behind one ending at `to`. */
  function Moved(e: Entry, from: nat, to: nat): Entry
    requires from <= e.offset
  {
    e.(offset := e.offset - from + to)
  }

  /**
   * The entries `initialize` finds after block `k` gets a payload of `size`
   * bytes: the earlier ones as they were, block `k` resized, the later ones
   * moved by the change in size.
   */
  function UpdatedFiles(files: seq<Entry>, k: nat, size: nat): seq<Entry>
    requires k < |files|
    requires forall i | k < i < |files| :: End(files[k]) <= files[i].offset
  {
    seq(|files|, i requires 0 <= i < |files| =>
      if i < k then files[i]
      else if i == k then files[k].(filesize := size)
      else Moved(files[i], End(files[k]), files[k].offset + size))
  }

  /** A block before the edited one sits in the unchanged prefix of the new buffer. */
  lemma {:induction false} HeaderBefore(data: seq<Byte>, e: Entry, data2: seq<Byte>, limit: nat)
    requires HeaderAt(data, e) && End(e) <= limit <= |data2| && limit <= |data|
    requires forall x | 0 <= x < limit :: data2[x] == data[x]
    ensures HeaderAt(data2, e)
  {
    HeaderMoved(data, e, data2, e);
  }

  /** A block after the edited one reappears in the new buffer, moved from `from` to `to`. */
  lemma {:induction false} HeaderAfter(data: seq<Byte>, e: Entry, data2: seq<Byte>, from: nat, to: nat)
    requires HeaderAt(data, e) && from <= HeaderStart(e) && |data| - from + to <= |data2|
    requires forall x | from <= x < |data| :: data2[to + (x - from)] == data[x]
    ensures HeaderAt(data2, Moved(e, from, to))
  {
    var e2 := Moved(e, from, to);
    forall x | HeaderStart(e) <= x < e.offset
      ensures data2[x - e.offset + e2.offset] == data[x]
    {
      assert x - e.offset + e2.offset == to + (x - from);
    }
    HeaderMoved(data, e, data2, e2);
  }

  /** The edited block keeps its name bytes and gets a new size field. */
  lemma {:induction false} HeaderResized(data: seq<Byte>, e: Entry, data2: seq<Byte>, size: nat)
    requires HeaderAt(data, e) && e.offset <= |data2|
    requires forall x {:trigger data[x]} | 0 <= x < e.offset - 4 :: data2[x] == data[x]
    requires U32At(data2, e.offset - 4) == size
    ensures HeaderAt(data2, e.(filesize := size))
  {
    NameCopied(data, e, data2, e.(filesize := size));
    HeaderTransfer(data, e, data2, e.(filesize := size));
  }

  /** Every entry's header is in place. */
  ghost predicate AllHeaders(data: seq<Byte>, files: seq<Entry>) {
    forall i {:trigger HeaderAt(data, files[i])} | 0 <= i < |files| :: HeaderAt(data, files[i])
  }

  /** The blocks before the edited one are untouched by the splice. */
  lemma {:induction false} HeadersBefore(data: seq<Byte>, files: seq<Entry>, k: nat, data2: seq<Byte>, files2: seq<Entry>, limit: nat)
    requires k <= |files| <= |files2| && limit <= |data| && limit <= |data2|
    requires forall i | 0 <= i < k :: End(files[i]) <= limit && files2[i] == files[i]
    requires AllHeaders(data, files)
    requires forall x | 0 <= x < limit :: data2[x] == data[x]
    ensures forall i {:trigger HeaderAt(data2, files2[i])} | 0 <= i < k :: HeaderAt(data2, files2[i])
  {
    forall i | 0 <= i < k
      ensures HeaderAt(data2, files2[i])
    {
      assert HeaderAt(data, files[i]);
      HeaderBefore(data, files[i], data2, limit);
    }
  }

  /** The blocks after the edited one reappear, all moved by the same distance. */
  lemma {:induction false} HeadersAfter(data: seq<Byte>, files: seq<Entry>, k: nat, data2: seq<Byte>, files2: seq<Entry>, from: nat, to: nat)
    requires k < |files| == |files2| && from <= |data| && |data| - from + to <= |data2|
    requires forall i | k < i < |files| :: from <= files[i].offset - 8 - 2 * |files[i].filename|
    requires forall i | k < i < |files| :: files2[i] == Moved(files[i], from, to)
    requires AllHeaders(data, files)
    requires forall x | from <= x < |data| :: data2[to + (x - from)] == data[x]
    ensures forall i {:trigger HeaderAt(data2, files2[i])} | k < i < |files| :: HeaderAt(data2, files2[i])
  {
    forall i | k < i < |files|
      ensures HeaderAt(data2, files2[i])
    {
      assert HeaderAt(data, files[i]);
      HeaderAfter(data, files[i], data2, from, to);
    }
  }

  /** Seen from block `k`, a tiling has its other blocks entirely before or entirely after it. */
  lemma {:induction false} TilesAround(data: seq<Byte>, files: seq<Entry>, k: nat)
    requires Tiles(data, 0, files) && k < |files|
    ensures AllHeaders(data, files)
    ensures forall i | 0 <= i < k :: End(files[i]) + 4 <= files[k].offset
    ensures forall i | k < i < |files| :: End(files[k]) + 8 + 2 * |files[i].filename| <= files[i].offset
  {
    TilesOrdered(data, 0, files);
    assert HeaderAt(data, files[k]);
  }

  /** What the splice needs to know about the tiling around block `k`. */
  ghost predicate AroundBlock(data: seq<Byte>, files: seq<Entry>, k: nat, payload: seq<Byte>) {
    && k < |files| && AllHeaders(data, files) && HeaderAt(data, files[k])
    && (forall i | 0 <= i < k :: End(files[i]) + 4 <= files[k].offset)
    && (forall i | k < i < |files| :: End(files[k]) + 8 + 2 * |files[i].filename| <= files[i].offset)
    && End(files[k]) <= |data| && |payload| < TWO_32
  }

  /**
   * `data2` is `data` with the size field and payload of `e` replaced, as
   * `Splice` builds it, apart from the new size field, which `SizeWritten` states.
   */
  ghost predicate Spliced(data: seq<Byte>, e: Entry, payload: seq<Byte>, data2: seq<Byte>) {
    && 4 <= e.offset && End(e) <= |data|
    && |data2| == |data| - e.filesize + |payload|
    && (forall x {:trigger data[x]} | 0 <= x < e.offset - 4 :: data2[x] == data[x])
    && (forall y {:trigger data2[y]} | e.offset <= y < e.offset + |payload| :: data2[y] == payload[y - e.offset])
    && (forall x | End(e) <= x < |data| :: data2[x - e.filesize + |payload|] == data[x])
  }

  /** The size field in front of the payload of `e` holds `size`. */
  ghost predicate SizeWritten(data2: seq<Byte>, e: Entry, size: nat) {
    4 <= e.offset <= |data2| && U32At(data2, e.offset - 4) == size
  }

  lemma {:induction false} SpliceIsSpliced(data: seq<Byte>, e: Entry, payload: seq<Byte>)
    requires 4 <= e.offset && End(e) <= |data| && |payload| < TWO_32
    ensures Spliced(data, e, payload, Splice(data, e, payload))
    ensures SizeWritten(Splice(data, e, payload), e, |payload|)
  {
    ReadWrittenUInt32(Splice(data, e, payload), e.offset - 4, |payload|);
    DivModUnique(|payload|, TWO_32, 0, |payload|);
  }

  /** `files2` is what `UpdatedFiles` builds from `files`. */
  ghost predicate Updated(files: seq<Entry>, k: nat, size: nat, files2: seq<Entry>) {
    && k < |files| == |files2|
    && (forall i | k < i < |files| :: End(files[k]) <= files[i].offset)
    && (forall i | 0 <= i < k :: files2[i] == files[i])
    && files2[k] == files[k].(filesize := size)
    && (forall i | k < i < |files| :: files2[i] == Moved(files[i], End(files[k]), files[k].offset + size))
  }

  lemma {:induction false} SpliceHeadersBefore(data: seq<Byte>, files: seq<Entry>, k: nat, payload: seq<Byte>, data2: seq<Byte>, files2: seq<Entry>)
    requires AroundBlock(data, files, k, payload)
    requires Updated(files, k, |payload|, files2) && Spliced(data, files[k], payload, data2)
    ensures forall i {:trigger HeaderAt(data2, files2[i])} | 0 <= i < k :: HeaderAt(data2, files2[i])
  {
    HeadersBefore(data, files, k, data2, files2, files[k].offset - 4);
  }

  lemma {:induction false} SpliceHeadersAfter(data: seq<Byte>, files: seq<Entry>, k: nat, payload: seq<Byte>, data2: seq<Byte>, files2: seq<Entry>)
    requires AroundBlock(data, files, k, payload)
    requires Updated(files, k, |payload|, files2) && Spliced(data, files[k], payload, data2)
    ensures forall i {:trigger HeaderAt(data2, files2[i])} | k < i < |files| :: HeaderAt(data2, files2[i])
  {
    var e := files[k];
    HeadersAfter(data, files, k, data2, files2, End(e), e.offset + |payload|);
  }

  lemma {:induction false} SpliceHeaderEdited(data: seq<Byte>, files: seq<Entry>, k: nat, payload: seq<Byte>, data2: seq<Byte>, files2: seq<Entry>)
    requires AroundBlock(data, files, k, payload)
    requires Updated(files, k, |payload|, files2) && Spliced(data, files[k], payload, data2)
    requires SizeWritten(data2, files[k], |payload|)
    ensures HeaderAt(data2, files2[k])
  {
    HeaderResized(data, files[k], data2, |payload|);
  }

  /** The splice keeps every block header in place in the new buffer. */
  lemma {:induction false} SpliceHeaders(data: seq<Byte>, files: seq<Entry>, k: nat, payload: seq<Byte>, data2: seq<Byte>, files2: seq<Entry>)
    requires AroundBlock(data, files, k, payload)
    requires Updated(files, k, |payload|, files2) && Spliced(data, files[k], payload, data2)
    requires SizeWritten(data2, files[k], |payload|)
    ensures AllHeaders(data2, files2)
  {
    SpliceHeadersBefore(data, files, k, payload, data2, files2);
    SpliceHeadersAfter(data, files, k, payload, data2, files2);
    SpliceHeaderEdited(data, files, k, payload, data2, files2);
  }

  /** Consecutive blocks of the updated entries still meet: the edit moves every later block by the same amount. */
  lemma {:induction false} UpdatedContiguous(files: seq<Entry>, k: nat, size: nat, files2: seq<Entry>)
    requires Updated(files, k, size, files2)
    requires forall i, j {:trigger End(files[i]), HeaderStart(files[j])} | 0 <= i && j == i + 1 < |files| :: End(files[i]) == HeaderStart(files[j])
    ensures forall i, j {:trigger End(files2[i]), HeaderStart(files2[j])} | 0 <= i && j == i + 1 < |files2| :: End(files2[i]) == HeaderStart(files2[j])
  {
    forall i, j | 0 <= i && j == i + 1 < |files2|
      ensures End(files2[i]) == HeaderStart(files2[j])
    {
      assert End(files[i]) == HeaderStart(files[j]);
    }
  }

  /** The updated entries start where the old ones did and still reach the end of the new buffer. */
  lemma {:induction false} UpdatedEnds(data: seq<Byte>, files: seq<Entry>, k: nat, payload: seq<Byte>, data2: seq<Byte>, files2: seq<Entry>)
    requires Updated(files, k, |payload|, files2) && Spliced(data, files[k], payload, data2)
    requires HeaderStart(files[0]) == 0 && End(files[|files| - 1]) >= |data|
    ensures HeaderStart(files2[0]) == 0 && End(files2[|files2| - 1]) >= |data2|
  {
    var last := |files| - 1;
    if last > k {
      assert files2[last] == Moved(files[last], End(files[k]), files[k].offset + |payload|);
    }
  }

  /** After the splice the updated entries tile the new buffer from its start. */
  lemma {:induction false} SpliceTiles(data: seq<Byte>, files: seq<Entry>, k: nat, payload: seq<Byte>, data2: seq<Byte>, files2: seq<Entry>)
    requires Tiles(data, 0, files) && AroundBlock(data, files, k, payload)
    requires Updated(files, k, |payload|, files2) && Spliced(data, files[k], payload, data2)
    requires SizeWritten(data2, files[k], |payload|)
    ensures Tiles(data2, 0, files2)
  {
    SpliceHeaders(data, files, k, payload, data2, files2);
    UpdatedContiguous(files, k, |payload|, files2);
    UpdatedEnds(data, files, k, payload, data2, files2);
  }

  /** `UpdatedFiles` keeps the entries before block `k`, resizes block `k` and moves the later ones. */
  lemma {:induction false} UpdatedFilesIsUpdated(files: seq<Entry>, k: nat, size: nat)
    requires k < |files|
    requires forall i | k < i < |files| :: End(files[k]) <= files[i].offset
    ensures Updated(files, k, size, UpdatedFiles(files, k, size))
  {
  }

  /**
   * Re-parsing the spliced buffer finds the old blocks with block `k`
   * resized and the later ones moved.
   */
  lemma {:induction false} SpliceParse(data: seq<Byte>, files: seq<Entry>, k: nat, payload: seq<Byte>)
    requires Tiles(data, 0, files) && k < |files| && End(files[k]) <= |data| && |payload| < TWO_32
    ensures 4 <= files[k].offset
    ensures forall i | k < i < |files| :: End(files[k]) <= files[i].offset
    ensures ParseFrom(Splice(data, files[k], payload), 0) == Success(UpdatedFiles(files, k, |payload|))
  {
    TilesAround(data, files, k);
    assert HeaderAt(data, files[k]);
    var data2 := Splice(data, files[k], payload);
    var files2 := UpdatedFiles(files, k, |payload|);
    SpliceIsSpliced(data, files[k], payload);
    UpdatedFilesIsUpdated(files, k, |payload|);
    SpliceTiles(data, files, k, payload, data2, files2);
    ParseTiles(data2, 0, files2);
  }

  /** Entries with the same names in the same order index the same positions. */
  lemma {:induction false} LastWithNameSameNames(files: seq<Entry>, files2: seq<Entry>, name: JsString)
    requires |files| == |files2|
    requires forall i | 0 <= i < |files| :: files2[i].filename == files[i].filename
    ensures LastWithName(files2, name) == LastWithName(files, name)
    decreases |files|
  {
    if |files| > 0 {
      var n := |files| - 1;
      LastWithNameSameNames(files[..n], files2[..n], name);
    }
  }

  /** A slice inside a prefix two buffers share is the same in both. */
  lemma {:induction false} SliceInPrefix(data: seq<Byte>, data2: seq<Byte>, start: nat, end: nat, limit: nat)
    requires start <= end <= limit <= |data| && limit <= |data2|
    requires forall x {:trigger data2[x]} | 0 <= x < limit :: data2[x] == data[x]
    ensures Slice(data2, start, end) == Slice(data, start, end)
  {
    assert data2[start..end] == data[start..end];
  }

  /**
   * A slice of the part of `data` from `from` on, which `data2` holds from
   * `to` on, is the same slice moved by `to - from` (both clamped at the end).
   */
  lemma {:induction false} SliceInSuffix(data: seq<Byte>, data2: seq<Byte>, start: nat, end: nat, from: nat, to: nat)
    requires from <= start <= end && from <= |data| && to <= |data2| && |data2| - to == |data| - from
    requires forall x | from <= x < |data| :: data2[x - from + to] == data[x]
    ensures Slice(data2, start - from + to, end - from + to) == Slice(data, start, end)
  {
    var a := Slice(data, start, end);
    var b := Slice(data2, start - from + to, end - from + to);
    assert |b| == |a|;
    forall x | 0 <= x < |a|
      ensures b[x] == a[x]
    {
      assert b[x] == data2[start - from + to + x];
      assert a[x] == data[start + x];
    }
  }

  /** The payload of a block before block `k` reads the same after the splice. */
  lemma {:induction false} PayloadBefore(data: seq<Byte>, files: seq<Entry>, k: nat, payload: seq<Byte>, data2: seq<Byte>, files2: seq<Entry>, j: nat)
    requires j < k < |files| && End(files[j]) + 4 <= files[k].offset
    requires Updated(files, k, |payload|, files2) && Spliced(data, files[k], payload, data2)
    ensures Slice(data2, files2[j].offset, End(files2[j])) == Slice(data, files[j].offset, End(files[j]))
  {
    SliceInPrefix(data, data2, files[j].offset, End(files[j]), files[k].offset - 4);
  }

  /** The payload of a block after block `k` reads the same after the splice, from its moved position. */
  lemma {:induction false} PayloadAfter(data: seq<Byte>, files: seq<Entry>, k: nat, payload: seq<Byte>, data2: seq<Byte>, files2: seq<Entry>, j: nat)
    requires k < j < |files| && End(files[k]) <= files[j].offset
    requires Updated(files, k, |payload|, files2) && Spliced(data, files[k], payload, data2)
    ensures Slice(data2, files2[j].offset, End(files2[j])) == Slice(data, files[j].offset, End(files[j]))
  {
    var e := files[k];
    SliceInSuffix(data, data2, files[j].offset, End(files[j]), End(e), e.offset + |payload|);
  }

  /** The updated entries carry the same names in the same order. */
  lemma {:induction false} UpdatedNames(files: seq<Entry>, k: nat, size: nat, files2: seq<Entry>)
    requires Updated(files, k, size, files2)
    ensures |files2| == |files| && forall i | 0 <= i < |files| :: files2[i].filename == files[i].filename
    ensures forall name :: LastWithName(files2, name) == LastWithName(files, name)
  {
    forall i | 0 <= i < |files|
      ensures files2[i].filename == files[i].filename
    {
    }
    forall name
      ensures LastWithName(files2, name) == LastWithName(files, name)
    {
      LastWithNameSameNames(files, files2, name);
    }
  }

  /** Block `k` of the new buffer holds exactly the new payload. */
  lemma {:induction false} EditedPayload(data: seq<Byte>, files: seq<Entry>, k: nat, payload: seq<Byte>, data2: seq<Byte>, files2: seq<Entry>)
    requires Updated(files, k, |payload|, files2) && Spliced(data, files[k], payload, data2)
    ensures Slice(data2, files2[k].offset, End(files2[k])) == payload
  {
    var o := files[k].offset;
    assert data2[o..o + |payload|] == payload;
  }

  /** Every block other than `k` holds the same payload as before. */
  lemma {:induction false} OtherPayloads(data: seq<Byte>, files: seq<Entry>, k: nat, payload: seq<Byte>, data2: seq<Byte>, files2: seq<Entry>)
    requires Updated(files, k, |payload|, files2) && Spliced(data, files[k], payload, data2)
    requires forall i | 0 <= i < k :: End(files[i]) + 4 <= files[k].offset
    ensures forall j | 0 <= j < |files| && j != k ::
      Slice(data2, files2[j].offset, End(files2[j])) == Slice(data, files[j].offset, End(files[j]))
  {
    forall j | 0 <= j < |files| && j != k
      ensures Slice(data2, files2[j].offset, End(files2[j])) == Slice(data, files[j].offset, End(files[j]))
    {
      if j < k {
        PayloadBefore(data, files, k, payload, data2, files2, j);
      } else {
        PayloadAfter(data, files, k, payload, data2, files2, j);
      }
    }
  }

  /** `g2` is `g` updated at block `k` with `payload`, re-parsed and re-indexed. */
  ghost predicate UpdatedSave(g: SavedGame, k: nat, payload: seq<Byte>, g2: SavedGame) {
    && IndexedByLast(g2.files, g2.index)
    && Updated(g.files, k, |payload|, g2.files) && Spliced(g.decompressed, g.files[k], payload, g2.decompressed)
    && LastWithName(g.files, g.files[k].filename) == k
    && (forall i | 0 <= i < k :: End(g.files[i]) + 4 <= g.files[k].offset)
  }

  /** `updateJson` re-initializes from the spliced buffer. */
  lemma {:induction false} UpdateBytesSplices(g: SavedGame, name: JsString, payload: seq<Byte>)
    requires Valid(g) && name in g.index && End(g.index[name]) <= |g.decompressed|
    ensures 4 <= g.index[name].offset
    ensures UpdateBytes(g, name, payload) == Initialize(Splice(g.decompressed, g.index[name], payload))
  {
    IndexedEntry(g, name);
  }

  /** Re-initializing from the spliced buffer yields the updated entries and their index. */
  lemma {:induction false} InitializeSplice(data: seq<Byte>, files: seq<Entry>, k: nat, payload: seq<Byte>)
    requires Tiles(data, 0, files) && k < |files| && End(files[k]) <= |data| && |payload| < TWO_32
    ensures 4 <= files[k].offset
    ensures forall i | k < i < |files| :: End(files[k]) <= files[i].offset
    ensures var data2 := Splice(data, files[k], payload);
            var files2 := UpdatedFiles(files, k, |payload|);
            Initialize(data2) == Success(SavedGame(data2, files2, BuildIndex(files2)))
  {
    SpliceParse(data, files, k, payload);
  }

  /** The spliced, re-parsed and re-indexed save is `g` updated at block `k`. */
  lemma {:induction false} SplicedSave(g: SavedGame, k: nat, payload: seq<Byte>)
    requires k < |g.files| && LastWithName(g.files, g.files[k].filename) == k
    requires 4 <= g.files[k].offset && End(g.files[k]) <= |g.decompressed| && |payload| < TWO_32
    requires forall i | 0 <= i < k :: End(g.files[i]) + 4 <= g.files[k].offset
    requires forall i | k < i < |g.files| :: End(g.files[k]) <= g.files[i].offset
    ensures var files2 := UpdatedFiles(g.files, k, |payload|);
            UpdatedSave(g, k, payload, SavedGame(Splice(g.decompressed, g.files[k], payload), files2, BuildIndex(files2)))
  {
    SpliceIsSpliced(g.decompressed, g.files[k], payload);
    UpdatedFilesIsUpdated(g.files, k, |payload|);
  }

  /** The updated save indexes the same names. */
  lemma {:induction false} UpdatedKeys(g: SavedGame, k: nat, payload: seq<Byte>, g2: SavedGame)
    requires IndexedByLast(g.files, g.index) && UpdatedSave(g, k, payload, g2)
    ensures |g2.files| == |g.files| && forall i | 0 <= i < |g.files| :: g2.files[i].filename == g.files[i].filename
    ensures forall name :: name in g2.index <==> name in g.index
  {
    UpdatedNames(g.files, k, |payload|, g2.files);
  }

  /** The edited name reads back exactly the new payload. */
  lemma {:induction false} UpdatedEdited(g: SavedGame, k: nat, payload: seq<Byte>, g2: SavedGame)
    requires UpdatedSave(g, k, payload, g2)
    ensures GetBytes(g2, g.files[k].filename) == Success(payload)
  {
    UpdatedNames(g.files, k, |payload|, g2.files);
    EditedPayload(g.decompressed, g.files, k, payload, g2.decompressed, g2.files);
  }

  /**
   * Two saves indexing the same names at the same positions, whose payloads
   * agree everywhere except at block `k`, read the same for every name but
   * that of block `k`.
   */
  lemma {:induction false} SameReadsBut(g: SavedGame, g2: SavedGame, k: nat, name: JsString)
    requires IndexedByLast(g.files, g.index) && IndexedByLast(g2.files, g2.index)
    requires k < |g.files| == |g2.files| && name != g.files[k].filename
    requires LastWithName(g2.files, name) == LastWithName(g.files, name)
    requires forall j | 0 <= j < |g.files| && j != k ::
      Slice(g2.decompressed, g2.files[j].offset, End(g2.files[j])) == Slice(g.decompressed, g.files[j].offset, End(g.files[j]))
    ensures GetBytes(g2, name) == GetBytes(g, name)
  {
    var j := LastWithName(g.files, name);
    if j >= 0 {
      assert j != k;
    }
  }

  /** Every other name reads what it read before. */
  lemma {:induction false} UpdatedOthers(g: SavedGame, k: nat, payload: seq<Byte>, g2: SavedGame)
    requires IndexedByLast(g.files, g.index) && UpdatedSave(g, k, payload, g2)
    ensures forall name | name != g.files[k].filename :: GetBytes(g2, name) == GetBytes(g, name)
  {
    UpdatedNames(g.files, k, |payload|, g2.files);
    OtherPayloads(g.decompressed, g.files, k, payload, g2.decompressed, g2.files);
    forall name | name != g.files[k].filename
      ensures GetBytes(g2, name) == GetBytes(g, name)
    {
      SameReadsBut(g, g2, k, name);
    }
  }

  /** `updateJson` on an entry whose payload lies inside the buffer yields the save updated at that entry's block. */
  lemma {:induction false} UpdateBytesUpdates(g: SavedGame, name: JsString, payload: seq<Byte>)
    requires Valid(g) && name in g.index
    requires End(g.index[name]) <= |g.decompressed| && |payload| < TWO_32
    ensures UpdateBytes(g, name, payload).Success?
    ensures 0 <= LastWithName(g.files, name) && g.files[LastWithName(g.files, name)].filename == name
    ensures UpdatedSave(g, LastWithName(g.files, name), payload, UpdateBytes(g, name, payload).value)
  {
    IndexedEntry(g, name);
    ValidIndex(g);
    var k := LastWithName(g.files, name) as nat;
    UpdateBytesSplices(g, name, payload);
    TilesAround(g.decompressed, g.files, k);
    assert HeaderAt(g.decompressed, g.files[k]);
    InitializeSplice(g.decompressed, g.files, k, payload);
    SplicedSave(g, k, payload);
  }

  /**
   * `updateJson` on an entry whose payload lies inside the buffer succeeds;
   * the re-parsed save has the same entries in the same order, the edited
   * name reads back the new payload, and every other name reads what it
   * read before.
   */
  lemma {:induction false} UpdateBytesEffect(g: SavedGame, name: JsString, payload: seq<Byte>)
    requires Valid(g) && name in g.index
    requires End(g.index[name]) <= |g.decompressed| && |payload| < TWO_32
    ensures UpdateBytes(g, name, payload).Success?
    ensures var g2 := UpdateBytes(g, name, payload).value;
      && |g2.files| == |g.files|
      && (forall i | 0 <= i < |g.files| :: g2.files[i].filename == g.files[i].filename)
      && (forall other :: other in g2.index <==> other in g.index)
      && GetBytes(g2, name) == Success(payload)
      && (forall other | other != name :: GetBytes(g2, other) == GetBytes(g, other))
  {
    ValidIndex(g);
    UpdateBytesUpdates(g, name, payload);
    var k := LastWithName(g.files, name) as nat;
    var g2 := UpdateBytes(g, name, payload).value;
    UpdatedKeys(g, k, payload, g2);
    UpdatedEdited(g, k, payload, g2);
    UpdatedOthers(g, k, payload, g2);
  }
}
