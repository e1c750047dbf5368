/**
 * The text entry points of `SavedGame` (Scripts/savedGame.js:142-144 and
 * 173-188): a file's payload read as UTF-8 text, and a file replaced by the
 * UTF-8 encoding of new text. `JSON.parse` and `JSON.stringify` sit outside
 * this model, so the text is taken and returned as it is.
 */
module SavedGameText {
  import opened Bytes
  import opened Wrappers
  import opened LittleEndian
  import opened SavedGame
  import opened TextCodec
  import Update

  /** `getJsonString`: the payload of `name` decoded as UTF-8; `None` when the decoder gives `null`. */
  function GetJsonString(g: SavedGame, name: JsString): (r: Result<Option<JsString>, Error>)
    ensures r.Failure? <==> name !in g.index
    ensures r.Failure? ==> r.error == FileNotFound(name)
    ensures r.Success? ==> (r.value.Some? <==> Grouped(GetBytes(g, name).value))
    ensures r.Success? && r.value.Some? ==> r.value.value == DecodeGroups(GetBytes(g, name).value)
  {
    match GetBytes(g, name)
    case Failure(e) => Failure(e)
    case Success(bytes) =>
      Utf8ToStringSpec(bytes);
      Success(Utf8ToString(bytes))
  }

  /** `updateJson` once the object has been turned into text: the text's UTF-8 bytes replace the payload of `name`. */
  function UpdateJson(g: SavedGame, name: JsString, text: JsString): (r: Result<SavedGame, Error>)
    requires Valid(g)
    ensures name !in g.index <==> r == Failure(UndefinedEntry(name))
    ensures name in g.index ==> (End(g.index[name]) > |g.decompressed| <==> r == Failure(RangeError))
    ensures r.Success? ==> Valid(r.value)
  {
    UpdateBytes(g, name, StringToUtf8(text))
  }

  /** After `updateJson` the file reads back as the text with each surrogate pair narrowed to 16 bits. */
  lemma {:induction false} UpdateJsonReadBack(g: SavedGame, name: JsString, text: JsString)
    requires Valid(g) && name in g.index
    requires End(g.index[name]) <= |g.decompressed| && |StringToUtf8(text)| < TWO_32
    ensures UpdateJson(g, name, text).Success?
    ensures GetJsonString(UpdateJson(g, name, text).value, name) == Success(Some(Narrowed(text)))
  {
    Update.UpdateBytesEffect(g, name, StringToUtf8(text));
    RoundTrip(text);
  }

  /** After `updateJson` every other file reads back as text exactly as before. */
  lemma {:induction false} UpdateJsonKeepsOthers(g: SavedGame, name: JsString, text: JsString, other: JsString)
    requires Valid(g) && name in g.index && other != name
    requires End(g.index[name]) <= |g.decompressed| && |StringToUtf8(text)| < TWO_32
    ensures UpdateJson(g, name, text).Success?
    ensures GetJsonString(UpdateJson(g, name, text).value, other) == GetJsonString(g, other)
  {
    Update.UpdateBytesEffect(g, name, StringToUtf8(text));
    SameBytesSameText(g, UpdateJson(g, name, text).value, other);
  }

  /** `getJsonString` depends on the save only through `getBytes`. */
  lemma {:induction false} SameBytesSameText(g: SavedGame, g2: SavedGame, name: JsString)
    requires GetBytes(g2, name) == GetBytes(g, name)
    ensures GetJsonString(g2, name) == GetJsonString(g, name)
  {
  }

  /** Text without surrogates reads back exactly as written. */
  lemma {:induction false} UpdateJsonReadBackExact(g: SavedGame, name: JsString, text: JsString)
    requires Valid(g) && name in g.index && NoSurrogates(text)
    requires End(g.index[name]) <= |g.decompressed| && |StringToUtf8(text)| < TWO_32
    ensures UpdateJson(g, name, text).Success?
    ensures GetJsonString(UpdateJson(g, name, text).value, name) == Success(Some(text))
  {
    UpdateJsonReadBack(g, name, text);
    NarrowedNoSurrogates(text);
  }
}
