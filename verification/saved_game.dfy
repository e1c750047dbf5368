/**
 * The `SavedGame` class (Scripts/savedGame.js): parsing a decompressed save
 * into named entries, reading an entry's bytes, and replacing one entry's
 * payload followed by a full re-parse.
 */
module SavedGame {
  import opened Bytes
  import opened Wrappers
  import opened LittleEndian
  import opened Cursor

  /** One `{ filename, filesize, offset }` record; `offset` is where the payload starts. */
  datatype Entry = Entry(filename: JsString, filesize: nat, offset: nat)

  /** The parsed save: the buffer, its entries in file order, and the name index. */
  datatype SavedGame = SavedGame(decompressed: seq<Byte>, files: seq<Entry>, index: map<JsString, Entry>)

  /** The errors the class raises, plus the modelled header overrun. */
  datatype Error =
    | Corrupt(cause: ReadError)         // raised while parsing the buffer
    | FileNotFound(filename: JsString)  // `getBytes` on a name missing from the index
    | RangeError                        // `Uint8Array.set` out of bounds in `updateJson`
    | UndefinedEntry(filename: JsString) // `updateJson` on a name missing from the index: `undefined.filesize` throws a TypeError

  /** Where the block of `e` starts: its name-length field. */
  function HeaderStart(e: Entry): int {
    e.offset - 8 - 2 * |e.filename|
  }

  /** Where the payload of `e` ends, according to its declared size. */
  function End(e: Entry): nat {
    e.offset + e.filesize
  }

  /** The header bytes in front of `e` hold its name length, its name and its size. */
  ghost predicate HeaderAt(data: seq<Byte>, e: Entry) {
    && |e.filename| <= MAX_STRING
    && 8 + 2 * |e.filename| <= e.offset <= |data|
    && var h := HeaderStart(e);
    && U32At(data, h) == |e.filename|
    && UnitsAt(data, h + 4, |e.filename|) == e.filename
    && U32At(data, e.offset - 4) == e.filesize
  }

  /**
   * `files` is the block structure of `data` from `pos` on: the first block
   * starts at `pos`, each block starts where the previous payload ends, and
   * the last payload reaches (or overruns) the end of the buffer.
   */
  ghost predicate Tiles(data: seq<Byte>, pos: nat, files: seq<Entry>) {
    && (|files| == 0 <==> pos >= |data|)
    && (|files| > 0 ==> HeaderStart(files[0]) == pos && End(files[|files| - 1]) >= |data|)
    && (forall i {:trigger HeaderAt(data, files[i])} | 0 <= i < |files| :: HeaderAt(data, files[i]))
    && (forall i, j {:trigger End(files[i]), HeaderStart(files[j])} | 0 <= i && j == i + 1 < |files| :: End(files[i]) == HeaderStart(files[j]))
  }

  /**
   * One pass of the `initialize` loop body up to `skipBytes`: read the name
   * and the size at `pos` and build the entry, whose offset is the position
   * after the size field.
   */
  function ReadEntry(data: seq<Byte>, pos: nat): (r: Result<Entry, ReadError>)
    ensures r.Success? ==> HeaderStart(r.value) == pos
  {
    match ReadString(data, pos)
    case Failure(e) => Failure(e)
    case Success(name) =>
      if name.next + 4 > |data| then Failure(PastEnd(name.next))
      else
        var size := ReadInt32(data, name.next);
        Success(Entry(name.value, size.value, size.next))
  }

  /** An entry read at `pos` has its block header starting at `pos`. */
  lemma {:induction false} ReadEntryHeader(data: seq<Byte>, pos: nat)
    ensures ReadEntry(data, pos).Success? ==>
      HeaderAt(data, ReadEntry(data, pos).value) && HeaderStart(ReadEntry(data, pos).value) == pos
  {
  }

  /**
   * The `initialize` loop from position `pos`: while not `eof`, read an
   * entry and skip its payload. A header field that would be read past the
   * end of the buffer yields `PastEnd`.
   */
  function ParseFrom(data: seq<Byte>, pos: nat): Result<seq<Entry>, ReadError>
    decreases |data| - pos
  {
    if Eof(data, pos) then Success([])
    else
      match ReadEntry(data, pos)
      case Failure(e) => Failure(e)
      case Success(entry) =>
        match ParseFrom(data, SkipBytes(entry.offset, entry.filesize))
        case Failure(e) => Failure(e)
        case Success(rest) => Success([entry] + rest)
  }

  /** What the parse returns tiles the buffer from where it started. */
  lemma {:induction false} ParseFromTiles(data: seq<Byte>, pos: nat)
    ensures ParseFrom(data, pos).Success? ==> Tiles(data, pos, ParseFrom(data, pos).value)
    decreases |data| - pos
  {
    if !Eof(data, pos) && ReadEntry(data, pos).Success? {
      var entry := ReadEntry(data, pos).value;
      ParseFromTiles(data, End(entry));
      if ParseFrom(data, End(entry)).Success? {
        var rest := ParseFrom(data, End(entry)).value;
        ParseStep(data, pos, entry, rest);
        ReadEntryHeader(data, pos);
        TilesCons(data, pos, entry, rest);
      }
    }
  }

  /** Prepending a block that starts at `pos` and ends where `rest` starts extends the tiling. */
  lemma {:induction false} TilesCons(data: seq<Byte>, pos: nat, entry: Entry, rest: seq<Entry>)
    requires pos < |data| && HeaderStart(entry) == pos && HeaderAt(data, entry)
    requires Tiles(data, End(entry), rest)
    ensures Tiles(data, pos, [entry] + rest)
  {
    var files := [entry] + rest;
    forall i, j | 0 <= i && j == i + 1 < |files|
      ensures End(files[i]) == HeaderStart(files[j])
    {
      if i > 0 {
        assert files[i] == rest[i - 1] && files[j] == rest[i];
      }
    }
  }

  /** A block header that is in place is read back as its entry. */
  lemma {:induction false} ReadEntryOfHeader(data: seq<Byte>, e: Entry)
    requires HeaderAt(data, e)
    ensures ReadEntry(data, HeaderStart(e) as nat) == Success(e)
  {
  }

  /** Dropping the first block of a tiling leaves a tiling from where that block ends. */
  lemma {:induction false} TilesTail(data: seq<Byte>, pos: nat, files: seq<Entry>)
    requires Tiles(data, pos, files) && |files| > 0
    ensures Tiles(data, End(files[0]), files[1..])
  {
    var rest := files[1..];
    if |files| > 1 {
      assert HeaderAt(data, files[1]);
    }
    forall i, j | 0 <= i && j == i + 1 < |rest|
      ensures End(rest[i]) == HeaderStart(rest[j])
    {
      assert rest[i] == files[i + 1] && rest[j] == files[j + 1];
    }
  }

  /** The parse finds every tiling: the loop reads exactly the blocks that are there. */
  lemma {:induction false} ParseTiles(data: seq<Byte>, pos: nat, files: seq<Entry>)
    requires Tiles(data, pos, files)
    ensures ParseFrom(data, pos) == Success(files)
    decreases |files|
  {
    if |files| > 0 {
      ReadEntryOfHeader(data, files[0]);
      TilesTail(data, pos, files);
      ParseTiles(data, End(files[0]), files[1..]);
      ParseStep(data, pos, files[0], files[1..]);
      assert [files[0]] + files[1..] == files;
    }
  }

  /** One turn of the parse loop: an entry read at `pos`, then the parse from where its payload ends. */
  lemma {:induction false} ParseStep(data: seq<Byte>, pos: nat, entry: Entry, rest: seq<Entry>)
    requires pos < |data| && ReadEntry(data, pos) == Success(entry)
    requires ParseFrom(data, End(entry)) == Success(rest)
    ensures ParseFrom(data, pos) == Success([entry] + rest)
  {
  }

  /** The parse succeeds with `files` exactly when `files` tiles the buffer from `pos`. */
  lemma {:induction false} ParseFromIsTiling(data: seq<Byte>, pos: nat, files: seq<Entry>)
    ensures ParseFrom(data, pos) == Success(files) <==> Tiles(data, pos, files)
  {
    ParseFromTiles(data, pos);
    if Tiles(data, pos, files) {
      ParseTiles(data, pos, files);
    }
  }

  /**
   * The position of the last entry called `name`, or -1 when there is none:
   * the entry that `index[name]` ends up holding.
   */
  function LastWithName(files: seq<Entry>, name: JsString): (i: int)
    ensures -1 <= i < |files|
    ensures i >= 0 ==> files[i].filename == name
    ensures forall j | i < j < |files| :: files[j].filename != name
    decreases |files|
  {
    if |files| == 0 then -1
    else if files[|files| - 1].filename == name then |files| - 1
    else LastWithName(files[..|files| - 1], name)
  }

  /** The index as `initialize` fills it: one assignment per entry, in file order. */
  function BuildIndex(files: seq<Entry>): (index: map<JsString, Entry>)
    ensures forall name :: name in index <==> LastWithName(files, name) >= 0
    ensures forall name | name in index :: index[name] == files[LastWithName(files, name)]
    decreases |files|
  {
    if |files| == 0 then map[]
    else
      var last := files[|files| - 1];
      BuildIndex(files[..|files| - 1])[last.filename := last]
  }

  /** `initialize`: parse the whole buffer from position 0 and index the entries. */
  function Initialize(data: seq<Byte>): (r: Result<SavedGame, Error>)
    ensures r.Success? ==> r.value.decompressed == data
    ensures r.Success? ==> forall i | 0 <= i < |r.value.files| :: r.value.files[i].filename in r.value.index
    ensures r.Success? ==> forall name | name in r.value.index ::
      && 0 <= LastWithName(r.value.files, name)
      && r.value.index[name] == r.value.files[LastWithName(r.value.files, name)]
  {
    match ParseFrom(data, 0)
    case Failure(e) => Failure(Corrupt(e))
    case Success(files) => Success(SavedGame(data, files, BuildIndex(files)))
  }

  /** A save as `initialize` leaves it. */
  predicate Valid(g: SavedGame) {
    Initialize(g.decompressed) == Success(g)
  }

  lemma {:induction false} InitializeIsValid(data: seq<Byte>)
    ensures Initialize(data).Success? ==> Valid(Initialize(data).value)
  {
  }

  /** Every payload lies inside the buffer: no final record was cut short. */
  predicate WellFormed(g: SavedGame) {
    forall i | 0 <= i < |g.files| :: End(g.files[i]) <= |g.decompressed|
  }

  /** `Uint8Array.prototype.slice` with non-negative bounds: both ends are clamped to the length. */
  function Slice(data: seq<Byte>, start: nat, end: nat): (r: seq<Byte>)
    ensures start <= end <= |data| ==> r == data[start..end]
    ensures start <= |data| < end ==> r == data[start..]
    ensures |data| <= start ==> r == []
  {
    var s := if start <= |data| then start else |data|;
    var e := if end <= |data| then end else |data|;
    if s <= e then data[s..e] else []
  }

  /** `getBytes`: the payload of the indexed entry called `name`. */
  function GetBytes(g: SavedGame, name: JsString): (r: Result<seq<Byte>, Error>)
    ensures name !in g.index <==> r == Failure(FileNotFound(name))
    ensures name in g.index && End(g.index[name]) <= |g.decompressed| ==>
      r == Success(g.decompressed[g.index[name].offset..End(g.index[name])])
    ensures r.Success? ==> |r.value| <= g.index[name].filesize
  {
    if name !in g.index then Failure(FileNotFound(name))
    else
      var file := g.index[name];
      Success(Slice(g.decompressed, file.offset, file.offset + file.filesize))
  }

  /**
   * The buffer `updateJson` builds: everything before the entry's size field,
   * the new size, the new payload, and everything after the old payload.
   */
  function Splice(data: seq<Byte>, e: Entry, payload: seq<Byte>): (r: seq<Byte>)
    requires 4 <= e.offset && End(e) <= |data|
    ensures |r| == |data| - e.filesize + |payload|
    ensures forall i {:trigger r[i]} | 0 <= i < e.offset - 4 :: r[i] == data[i]
    ensures r[e.offset - 4..e.offset] == WriteUInt32(|payload|)
    ensures forall j {:trigger r[j]} | e.offset <= j < e.offset + |payload| :: r[j] == payload[j - e.offset]
    ensures forall j {:trigger r[j]} | e.offset + |payload| <= j < |r| :: r[j] == data[j - |payload| + e.filesize]
  {
    var size := WriteUInt32(|payload|);
    var r := data[..e.offset - 4] + size + payload + data[End(e)..];
    assert r[e.offset - 4..e.offset] == size;
    r
  }

  /**
   * `updateJson` after the JSON has been turned into bytes: splice them in
   * and re-initialize from the new buffer. A name missing from the index
   * throws before anything changes; a payload that overruns the buffer makes
   * `Uint8Array.set` throw.
   */
  function UpdateBytes(g: SavedGame, name: JsString, payload: seq<Byte>): (r: Result<SavedGame, Error>)
    requires Valid(g)
    ensures name !in g.index <==> r == Failure(UndefinedEntry(name))
    ensures name in g.index ==> (End(g.index[name]) > |g.decompressed| <==> r == Failure(RangeError))
    ensures r.Success? ==> Valid(r.value)
  {
    if name !in g.index then Failure(UndefinedEntry(name))
    else
      var file := g.index[name];
      if End(file) > |g.decompressed| then Failure(RangeError)
      else
        IndexedEntry(g, name);
        var data := Splice(g.decompressed, file, payload);
        InitializeIsValid(data);
        Initialize(data)
  }

  /** The indexed entry called `name` is the last entry with that name, and its header is in the buffer. */
  lemma {:induction false} IndexedEntry(g: SavedGame, name: JsString)
    requires Valid(g) && name in g.index
    ensures 0 <= LastWithName(g.files, name) && g.index[name] == g.files[LastWithName(g.files, name)]
    ensures HeaderAt(g.decompressed, g.index[name])
  {
    ParseFromTiles(g.decompressed, 0);
    assert Tiles(g.decompressed, 0, g.files);
  }

  /** `index` maps exactly the names of `files`, each to the last entry carrying it. */
  ghost predicate IndexedByLast(files: seq<Entry>, index: map<JsString, Entry>) {
    && (forall name :: name in index <==> LastWithName(files, name) >= 0)
    && (forall name | name in index :: index[name] == files[LastWithName(files, name)])
  }

  /** A valid save tiles its buffer and indexes every name by its last entry. */
  lemma {:induction false} ValidIndex(g: SavedGame)
    requires Valid(g)
    ensures Tiles(g.decompressed, 0, g.files)
    ensures IndexedByLast(g.files, g.index)
  {
    ParseFromTiles(g.decompressed, 0);
    assert Initialize(g.decompressed).value == g;
  }

  /** In a well-formed initialized save, `getBytes` of an indexed name returns exactly `filesize` bytes: the payload. */
  lemma {:induction false} GetBytesWellFormed(g: SavedGame, name: JsString)
    requires Valid(g) && WellFormed(g) && name in g.index
    ensures GetBytes(g, name).Success?
    ensures GetBytes(g, name).value == g.decompressed[g.index[name].offset..End(g.index[name])]
    ensures |GetBytes(g, name).value| == g.index[name].filesize
  {
    IndexedEntry(g, name);
    var i := LastWithName(g.files, name);
    assert End(g.files[i]) <= |g.decompressed|;
  }

  /** "Wolfter", a name as the save spells it. */
  const WOLFTER: JsString := [0x57, 0x6F, 0x6C, 0x66, 0x74, 0x65, 0x72]

  /** "Gexogen", a name as the save spells it. */
  const GEXOGEN: JsString := [0x47, 0x65, 0x78, 0x6F, 0x67, 0x65, 0x6E]

  /** "Dzhulbars", the game's spelling of "Wolfter". */
  const DZHULBARS: JsString := [0x44, 0x7A, 0x68, 0x75, 0x6C, 0x62, 0x61, 0x72, 0x73]

  /** "Hexogen", the game's spelling of "Gexogen". */
  const HEXOGEN: JsString := [0x48, 0x65, 0x78, 0x6F, 0x67, 0x65, 0x6E]

  /** `mapCharacterName`: the in-game spelling of two character names. */
  function MapCharacterName(name: JsString): (r: JsString)
    ensures name == WOLFTER ==> r == DZHULBARS
    ensures name == GEXOGEN ==> r == HEXOGEN
    ensures name != WOLFTER && name != GEXOGEN ==> r == name
    ensures r != WOLFTER && r != GEXOGEN
  {
    if name == WOLFTER then DZHULBARS
    else if name == GEXOGEN then HEXOGEN
    else name
  }

  /** Mapping a name that is already in its in-game spelling changes nothing. */
  lemma {:induction false} MapCharacterNameIdempotent(name: JsString)
    ensures MapCharacterName(MapCharacterName(name)) == MapCharacterName(name)
  {
  }
}
