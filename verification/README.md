# Atom saved-game editor: container codec, UTF-8 codec and JSON paths

This project is a Dafny model of the pure logic under the saved-game editor.

**`SavedGame` (Scripts/savedGame.js).** A decompressed save is one byte buffer of repeated blocks. Each block is:
- a 32-bit little-endian name length;
- that many little-endian 16-bit code units of name;
- a 32-bit little-endian payload size;
- the payload.

The model covers the following:
- **The cursor** (`Cursor`): `readByte`, `readInt16`, `readInt32`, `readString`, `skipBytes` and `eof`, over an immutable buffer and a position.
- **`initialize`** (`SavedGame.ParseFrom`, `SavedGame.BuildIndex`, `SavedGame.Initialize`). It builds the entry list and the name index.
- **`getBytes`** (`SavedGame.GetBytes`).
- **`mapCharacterName`**.
- **The byte splice of `updateJson`** (`SavedGame.Splice`, `SavedGame.UpdateBytes`). It is followed by a full re-parse.
- **`writeUInt32`** (`LittleEndian.WriteUInt32`). Its JavaScript `>>`, truncating `%` and `Uint8Array` store are written out.

`Update` proves what a splice does to the re-parsed save:
- the same entries appear in the same order;
- the edited name reads back the new payload;
- every other name reads what it read before.

**Text and JSON helpers (Scripts/atomEditor.js).**
- **`Utf8ToString`** (`TextCodec`): the lead-byte table, the continuation check, and `String.fromCharCode` cutting a value to 16 bits.
- **`StringToUtf8`**: the 1-, 2- and 3-byte forms, plus the surrogate branch. That branch also takes a lone surrogate.
- **`GetProperty` and `SetProperty`** (`JsonPath`): a dot-separated path walked through a JSON tree. `ArrayIndex` decides which keys name array elements.
- **`getJsonString` and `updateJson` as text** (`SavedGameText`): they join the codec to the container.

Two facts about the code shape the model:
- **A truncated final block is accepted.** `skipBytes` moves past the end and `eof` then holds, so the parse does not fail. The model follows the code here. `SavedGame.WellFormed` names buffers whose payloads all fit.
- **Astral characters do not round-trip.** A surrogate pair comes back from decoding as one code unit: the low 16 bits of its code point. `TextCodec.Narrowed` states exactly what comes back.

The group layout is that of section 3 of RFC 3629, and the surrogate arithmetic is that of section 2.1 of RFC 2781. Unlike RFC 3629, the decoder accepts overlong forms, encoded surrogates and 4-byte groups above U+10FFFF (leads F5 to F7, or F4 followed by 0x90 or more).

Bytes are `nat < 0x100` and code units are `nat < 0x1_0000`. Bit operations are written as arithmetic.

## Model

| member | source | states |
|---|---|---|
| LittleEndian.ToInt32 | Scripts/savedGame.js:198-200 | the signed 32-bit value that `>>` works on lies in [-2^31, 2^31) and is congruent to its input modulo 2^32 |
| LittleEndian.JsRem | Scripts/savedGame.js:197-200 | JavaScript `%` truncates: the remainder is the dividend minus the divisor times the quotient rounded toward zero, so it is smaller than the divisor in magnitude and carries the sign of the dividend |
| LittleEndian.ToUint8OfRem | Scripts/savedGame.js:197-200 | storing `x % 0x100` into a `Uint8Array` keeps x modulo 256, for negative x too |
| LittleEndian.WriteUInt32Digits | Scripts/savedGame.js:198-200 | each shifted, reduced and stored byte equals the matching base-256 digit of n modulo 2^32 |
| LittleEndian.WriteUInt32 | Scripts/savedGame.js:195-202 | `writeUInt32` yields four bytes; `WriteUInt32Value` and `WriteReadUInt32` state which |
| LittleEndian.WriteUInt32Value | Scripts/savedGame.js:195-202 | the four bytes written, read little-endian, give back n modulo 2^32 |
| LittleEndian.WriteReadUInt32 | Scripts/savedGame.js:195-202 | writing the little-endian value of any four bytes produces exactly those bytes, so writing and reading are inverse |
| Cursor.ReadByte | Scripts/savedGame.js:50-52 | the position advances by one past the byte read; `ReadInt16OfBytes` ties the value to `readInt16` |
| Cursor.ReadInt16 | Scripts/savedGame.js:59-61 | the value is below 65536 and the position advances by two |
| Cursor.ReadInt16OfBytes | Scripts/savedGame.js:59-61 | a 16-bit read equals two byte reads, the first one the low byte, and leaves the position where the second byte read ends |
| Cursor.ReadInt32 | Scripts/savedGame.js:68-70 | the value is below 2^32 and the position advances by four |
| Cursor.ReadInt32OfHalves | Scripts/savedGame.js:68-70 | a 32-bit read equals two 16-bit reads, low half first, so it is the little-endian unsigned value |
| Cursor.UnitsAt | Scripts/savedGame.js:81-83 | reading n code units yields exactly n units |
| Cursor.UnitsAtIndex | Scripts/savedGame.js:81-83 | unit i of a name is the 16-bit value stored at byte 2i past the start |
| Cursor.ReadUnits | Scripts/savedGame.js:81-83 | the loop yields n units and moves the position by 2n |
| Cursor.ReadUnitsStep | Scripts/savedGame.js:81-83 | the loop is one `readInt16` followed by the loop over the remaining units from the position that read stopped at |
| Cursor.ReadString | Scripts/savedGame.js:77-86 | a read string lies inside the buffer, has at most 4096 units and consumes 4 + 2n bytes |
| Cursor.ReadStringSpec | Scripts/savedGame.js:77-86 | a read succeeds exactly when the length is at most 4096 and its units fit; it then yields n units and consumes 4 + 2n bytes; it fails with the "longer than 4K" error exactly when the length exceeds 4096, after only the prefix has been consumed |
| Cursor.ReadWrittenUInt32 | Scripts/savedGame.js:195-202 | `readInt32` on the bytes `writeUInt32(n)` produced returns n modulo 2^32 |
| SavedGame.ReadEntry | Scripts/savedGame.js:30-36 | an entry read at a position has its block starting at that position |
| SavedGame.ReadEntryHeader | Scripts/savedGame.js:30-36 | an entry read from the buffer has its name length, name and size stored in front of its offset |
| SavedGame.ReadEntryOfHeader | Scripts/savedGame.js:30-36 | conversely, a block header that is in place reads back as exactly its entry |
| SavedGame.ParseFrom | Scripts/savedGame.js:29-42 | the `initialize` loop; it has no contract of its own and is characterised by `ParseFromIsTiling`: it returns exactly the tiling of the buffer |
| SavedGame.ParseFromTiles | Scripts/savedGame.js:29-42 | the entries of a successful parse are contiguous blocks in file order: the first starts at the start position, each starts where the previous payload ends, and the last reaches the end of the buffer |
| SavedGame.ParseTiles | Scripts/savedGame.js:29-42 | conversely, any contiguous block structure of the buffer is what the parse returns |
| SavedGame.ParseFromIsTiling | Scripts/savedGame.js:20-43 | the parse returns a list exactly when that list tiles the buffer |
| SavedGame.LastWithName | Scripts/savedGame.js:37-38 | the position found holds the name, and no later entry has it |
| SavedGame.BuildIndex | Scripts/savedGame.js:37-38 | the index holds exactly the names of the entries, and each name maps to its last entry; earlier duplicates stay only in the list |
| SavedGame.Initialize | Scripts/savedGame.js:20-43 | a successful initialization keeps the buffer; every entry's name is indexed, and every indexed entry is the last entry in the list with that name |
| SavedGame.ValidIndex | Scripts/savedGame.js:20-43 | an initialized save tiles its buffer and indexes every name by its last entry |
| SavedGame.Slice | Scripts/savedGame.js:134 | `slice` yields the bytes between its bounds, clamped at the end of the buffer |
| SavedGame.GetBytes | Scripts/savedGame.js:131-135 | `getBytes` fails exactly when the name is not indexed; when the payload fits in the buffer it returns exactly the entry's `filesize` bytes from its offset; it never returns more than `filesize` bytes |
| SavedGame.GetBytesWellFormed | Scripts/savedGame.js:131-135 | in an initialized save whose payloads all fit in the buffer, `getBytes` of an indexed name succeeds with exactly `filesize` bytes, the payload at the entry's offset |
| SavedGame.Splice | Scripts/savedGame.js:180-184 | the new buffer has length old - filesize + new length; it keeps the bytes before the size field, holds the written new length in the size field, then the new payload, then the old suffix shifted by the change in size |
| SavedGame.UpdateBytes | Scripts/savedGame.js:173-188 | the update fails with the missing-entry error exactly when the name is not in the index (reading `filesize` of `undefined` throws before anything changes); for an indexed name it fails with a range error exactly when the old payload overruns the buffer; otherwise it yields an initialized save |
| SavedGame.MapCharacterName | Scripts/savedGame.js:160-166 | "Wolfter" becomes "Dzhulbars", "Gexogen" becomes "Hexogen", and every other name is returned unchanged; the result is never one of the two save spellings |
| SavedGame.MapCharacterNameIdempotent | Scripts/savedGame.js:160-166 | mapping an already mapped name changes nothing |
| Update.SpliceIsSpliced | Scripts/savedGame.js:180-184 | the spliced buffer has the prefix, payload and suffix layout, and its size field reads back the new length |
| Update.SpliceTiles | Scripts/savedGame.js:180-187 | the updated entries tile the spliced buffer |
| Update.SpliceParse | Scripts/savedGame.js:180-187 | parsing the spliced buffer returns `UpdatedFiles`: the entries before the edited one unchanged, the edited one with the new size, and every later one with the same name and size, moved by the change in payload length |
| Update.InitializeSplice | Scripts/savedGame.js:187 | re-initializing from the spliced buffer gives the updated entries and their index |
| Update.UpdateBytesSplices | Scripts/savedGame.js:179-187 | `updateJson` re-initializes from the buffer spliced at the indexed entry |
| Update.SplicedSave | Scripts/savedGame.js:180-187 | the spliced, re-parsed and re-indexed save is the save updated at the edited block |
| Update.UpdatedKeys | Scripts/savedGame.js:187 | the updated save has the same entry names in the same order and indexes the same names |
| Update.UpdatedEdited | Scripts/savedGame.js:183 | the edited name reads back exactly the new payload |
| Update.UpdatedOthers | Scripts/savedGame.js:181-184 | every other name reads the same bytes as before |
| Update.UpdateBytesUpdates | Scripts/savedGame.js:173-188 | an update whose payload lies inside the buffer succeeds and yields the save updated at the last entry with that name: the spliced buffer, its entries as `UpdatedFiles` describes them, and their index |
| Update.UpdateBytesEffect | Scripts/savedGame.js:173-188 | after the update, the entry count, name order and indexed names are unchanged; the name reads back the new bytes; every other name reads what it read before |
| TextCodec.ExtraBytes | Scripts/atomEditor.js:127 | the table asks for at most three continuation bytes |
| TextCodec.ExtraByteMapAgrees | Scripts/atomEditor.js:127-135 | for a byte with both high bits set, the table gives 0 exactly for `11111xxx`, and otherwise one less than the group length the lead byte announces |
| TextCodec.ContinueAccepts | Scripts/atomEditor.js:140-146 | the continuation loop succeeds exactly when every byte it reads has the form `10xxxxxx` |
| TextCodec.DecodeStep | Scripts/atomEditor.js:131-150 | one pass of the outer loop consumes between 1 and the remaining number of bytes |
| TextCodec.DecodeStepSpec | Scripts/atomEditor.js:131-150 | one pass succeeds exactly on a well-formed group and yields that group's number cut to 16 bits |
| TextCodec.Utf8ToString | Scripts/atomEditor.js:125-153 | `Utf8ToString`; it has no contract of its own and is characterised by `Utf8ToStringSpec`: non-null exactly on grouped bytes, and then the groups' numbers cut to 16 bits |
| TextCodec.Utf8ToStringSpec | Scripts/atomEditor.js:125-153 | the decoder returns a string exactly when the input splits into groups (otherwise `null`), and the string holds the groups' numbers cut to 16 bits |
| TextCodec.GroupedCons | Scripts/atomEditor.js:131-150 | a group followed by grouped bytes is grouped and decodes to the group's unit followed by the rest |
| TextCodec.EncodeUnit | Scripts/atomEditor.js:165-176 | a non-surrogate unit becomes 1, 2 or 3 bytes by its size, with the right lead and continuation prefixes, and those bytes carry exactly its value |
| TextCodec.PairCodePoint | Scripts/atomEditor.js:184-185 | the combined code point lies in [0x10000, 0x110000); `PairCodePointSplits` states how the two units make it up |
| TextCodec.PairCodePointSplits | Scripts/atomEditor.js:184-185 | the code point minus 0x10000 holds the low ten bits of the first unit above the low ten bits of the second |
| TextCodec.PairCodePointEncodes | Scripts/atomEditor.js:184-185 | a high surrogate followed by a low one is exactly the UTF-16 encoding of the code point they combine to: 0xD800 plus its high ten bits, then 0xDC00 plus its low ten bits |
| TextCodec.EncodeFour | Scripts/atomEditor.js:186-189 | the surrogate branch writes a 4-byte group carrying exactly the code point |
| TextCodec.StringToUtf8 | Scripts/atomEditor.js:160-195 | `StringToUtf8`; it has no contract of its own and is characterised by `EncodeUnit`, `EncodeFour`, `StringToUtf8Grouped` and `RoundTrip`: well-formed groups that decode to the narrowed string |
| TextCodec.StringToUtf8Grouped | Scripts/atomEditor.js:160-195 | the encoder's output is always well-formed groups, and they decode to the narrowed string |
| TextCodec.RoundTrip | Scripts/atomEditor.js:125-195 | decoding the encoding of any string yields the narrowed string: non-surrogates survive and a pair collapses to one 16-bit unit |
| TextCodec.NarrowedNoSurrogates | Scripts/atomEditor.js:149 | narrowing changes nothing on a string without surrogates |
| TextCodec.RoundTripNoSurrogates | Scripts/atomEditor.js:125-195 | decoding the encoding of a string without surrogates gives back the string |
| TextCodec.EncodeGroupValue | Scripts/atomEditor.js:165-176 | re-encoding the value of a shortest 1-, 2- or 3-byte group gives back the group |
| TextCodec.ShortestFormEncodes | Scripts/atomEditor.js:160-176 | bytes made of shortest groups of at most 3 bytes are grouped, and re-encoding their decoding gives them back |
| TextCodec.DecodeThenEncode | Scripts/atomEditor.js:125-176 | on such bytes, the decoder succeeds and the encoder inverts it |
| TextCodec.AsciiUnchanged | Scripts/atomEditor.js:131-150 | bytes below 0x80 decode to one unit per byte with the same value, and encode back to themselves |
| TextCodec.MalformedExamples | Scripts/atomEditor.js:133-144 | a stray continuation byte, a `11111xxx` lead, a truncated group and a bad continuation byte each give `null` |
| TextCodec.OverlongAccepted | Scripts/atomEditor.js:133-146 | the overlong pair `C0 80` is accepted as the unit 0 |
| TextCodec.AboveMaxAccepted | Scripts/atomEditor.js:133-149 | the 4-byte group F4 90 80 80, which carries 0x110000 beyond the Unicode range, is accepted and cut to the unit 0 |
| TextCodec.PairEncodingExample | Scripts/atomEditor.js:179-190 | the pair D83D DE00 is written as F0 9F 98 80 |
| TextCodec.LoneSurrogateExample | Scripts/atomEditor.js:179-190 | a lone surrogate at the end of the string takes the pair branch with 0 for the missing unit |
| TextCodec.PairReadBackExample | Scripts/atomEditor.js:149 | F0 9F 98 80 decodes to the single unit F600, the low 16 bits of U+1F600 |
| ArrayIndex.IndexKey | Scripts/atomEditor.js:85 | the decimal form of a number is a canonical decimal string denoting that number |
| ArrayIndex.ParseIndexKey | Scripts/atomEditor.js:85 | every array index is named by its decimal form |
| ArrayIndex.DecimalRoundTrip | Scripts/atomEditor.js:85 | every canonical decimal string is the decimal form of the number it denotes |
| ArrayIndex.ParseIndexInjective | Scripts/atomEditor.js:85 | two different keys never name the same index |
| JsonPath.Split | Scripts/atomEditor.js:83 | splitting never yields an empty list of parts |
| JsonPath.GetProperty | Scripts/atomEditor.js:81-89 | `GetProperty`; it has no contract of its own and is characterised by `GetPathAppend`, `GetAfterSet`, `GetBelowSet` and `SetPropertyThenGet` |
| JsonPath.SetProperty | Scripts/atomEditor.js:97-105 | `SetProperty`; it has no contract of its own and is characterised by `SetPathSucceeds`, `GetAfterSet`, `SetKeepsOthers` and `SetPropertyThenGet` |
| JsonPath.JoinSplit | Scripts/atomEditor.js:83 | joining the split parts with dots gives back the path |
| JsonPath.SplitNoDots | Scripts/atomEditor.js:83 | no split part contains a dot |
| JsonPath.SplitJoin | Scripts/atomEditor.js:83 | splitting dot-free parts joined with dots gives back the parts |
| JsonPath.AssignThenLookup | Scripts/atomEditor.js:104 | writing a key of an object, or an index key of an array, succeeds and reads back the value written |
| JsonPath.AssignKeepsOthers | Scripts/atomEditor.js:104 | the write leaves every other key as it was, except an array's `length` |
| JsonPath.GetPathAppend | Scripts/atomEditor.js:84-86 | walking a path in two pieces is walking the first and then the second from where it ends |
| JsonPath.SetPathFromScalar | Scripts/atomEditor.js:100-104 | a write through a primitive, `undefined` or `null` fails |
| JsonPath.SetPathSucceeds | Scripts/atomEditor.js:97-105 | `SetProperty` completes exactly when the walk to the parent completes on an object, or on an array with an index key |
| JsonPath.GetAfterSet | Scripts/atomEditor.js:81-105 | after a successful write, walking the same parts yields the value written |
| JsonPath.SetKeepsOthers | Scripts/atomEditor.js:97-105 | a path that leaves the written path by a different key reads as before, unless that key is an array's `length` |
| JsonPath.GetBelowSet | Scripts/atomEditor.js:81-105 | paths below the written path read inside the new value |
| JsonPath.SetPropertyThenGet | Scripts/atomEditor.js:81-105 | after `SetProperty` succeeds, `GetProperty` on the same path yields the value written |
| SavedGameText.GetJsonString | Scripts/savedGame.js:142-144 | the read fails exactly when the name is not indexed; it decodes (not `null`) exactly when the payload is well-formed groups, and the text is then the payload's groups' numbers cut to 16 bits |
| SavedGameText.UpdateJson | Scripts/savedGame.js:173-188 | updating with text fails with the missing-entry error exactly when the name is not in the index; for an indexed name it fails with a range error exactly when the old payload overruns the buffer, and otherwise yields an initialized save |
| SavedGameText.UpdateJsonReadBack | Scripts/savedGame.js:173-188 | after updating with text, reading the name as text yields the narrowed text |
| SavedGameText.UpdateJsonReadBackExact | Scripts/savedGame.js:173-188 | for text without surrogates, reading the name back yields exactly the text |
| SavedGameText.UpdateJsonKeepsOthers | Scripts/savedGame.js:173-188 | updating one name leaves every other name's text as it was |
| SavedGameText.SameBytesSameText | Scripts/savedGame.js:142-144 | the same payload bytes read as the same text |

## Left out

- Logging, DOM and jQuery work (`Log` and the UI functions) are left out: they are side effects only.
- `export` (gzip through pako, `Blob` and the download) is left out: it is foreign I/O.
- `getJson`, `JSON.parse`, `JSON.stringify` and `PrettifyJson` are library calls and are left out. The text is taken as already serialized.
- Global.asax.cs is not part of this model: it holds web hosting and routing.
- A block header cut short by the end of the buffer makes the source loop forever. `readByte` past the end yields `undefined`, so the size read becomes `NaN`. `skipBytes(NaN)` then makes the position `NaN`, and `eof` (Scripts/savedGame.js:101) is false from then on, so `initialize` never returns. The model stops with `PastEnd` instead: this departs from a source that does not terminate. A length prefix above 4096 that fits in the buffer still raises the "longer than 4K" error, as in the source.
- The code accepts a final block whose declared size runs past the end of the buffer, and so does the model; `SavedGame.WellFormed` names the buffers where this does not happen.
- `Eof` and `SkipBytes` model `eof` and `skipBytes` directly and carry no contract of their own. The bodies of `ReadByte`, `ReadInt16`, `ReadInt32`, `ReadUnits` and `ParseFrom` use them, and `SavedGame.ParseFromIsTiling` characterises the loop they drive.
- The index is modelled as a map. Names that clash with inherited members of a plain JavaScript object (for example `__proto__`) are left out. The same holds for JSON path writes: `JsonPath.Assign` of the key `__proto__` on an object adds an own field, whereas JavaScript replaces the object's prototype.
- JSON numbers are integers. Floating point is left out.
- JSON values are trees. Shared references between nodes are left out, since `JSON.parse` never produces them.
- Property lookup sees own fields, array elements, string units and `length`. Inherited members (for example `toString`) read as `undefined`.
- Writing a named property on an array, `length` included, is reported as `NotModelled` and left out.
- Update.UpdateBytesEffect: requires the new payload to be shorter than 2^32 bytes, because the size field holds only 32 bits.
- Update.UpdateBytesUpdates: requires the new payload to be shorter than 2^32 bytes, for the same reason.
- SavedGameText.UpdateJsonReadBack: requires the encoded text to be shorter than 2^32 bytes, for the same reason.
- SavedGameText.UpdateJsonKeepsOthers: requires the encoded text to be shorter than 2^32 bytes, for the same reason.
- JsonPath.SetKeepsOthers: says nothing about an array's `length` where the paths part. Writing past the end of an array changes that `length`.
