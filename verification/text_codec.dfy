/**
 * The editor's text codec (Scripts/atomEditor.js:125-195): UTF-8 bytes to a
 * JavaScript string and back. Both directions follow the code as written,
 * including its two departures from a strict UTF-8 codec: a decoded value
 * is cut to 16 bits by `String.fromCharCode`, and every surrogate code unit,
 * paired or not, is encoded as the first half of a pair.
 */
module TextCodec {
  import opened Bytes
  import opened Wrappers
  import opened LittleEndian

  /** `extraByteMap`: the continuation bytes announced by bits 5..3 of a lead byte; 0 marks a byte that cannot lead. */
  const EXTRA_BYTE_MAP: seq<nat> := [1, 1, 1, 1, 2, 2, 3, 0]

  /** `0x3F >> extra` for `extra` in 0..3: the mask of the payload bits a lead byte keeps. */
  const LEAD_MASK: seq<nat> := [0x3F, 0x1F, 0x0F, 0x07]

  /** `extraByteMap[(ch >> 3) & 0x07]`. */
  function ExtraBytes(ch: Byte): (extra: nat)
    ensures extra <= 3
  {
    EXTRA_BYTE_MAP[(ch / 8) % 8]
  }

  /** `(b & 0xC0) == 0x80`: the byte has the continuation form `10xxxxxx`. */
  predicate IsContinuation(b: Byte) {
    b / 0x40 == 2
  }

  /** `String.fromCharCode`: the value is reduced modulo 2^16. */
  function FromCharCode(v: nat): CodeUnit {
    v % 0x1_0000
  }

  /**
   * The inner loop of `Utf8ToString`: the continuation bytes from `index` up
   * to `end` each append their low six bits to `ch`, and any byte that is
   * not of the form `10xxxxxx` makes the result `null`. The value never
   * exceeds 21 bits, so `(ch << 6) | (chx & 0x3F)` is `ch * 64 + chx % 64`.
   */
  function Continue(data: seq<Byte>, index: nat, end: nat, ch: nat): Option<nat>
    requires index <= end <= |data|
    decreases end - index
  {
    if index == end then Some(ch)
    else if !IsContinuation(data[index]) then None
    else Continue(data, index + 1, end, ch * 0x40 + Low6(data[index]))
  }

  /**
   * One pass of the outer loop of `Utf8ToString` at the start of `data`:
   * the code unit produced and the number of bytes it took, or `None` for
   * the `null` the function returns. A byte below 0x80 stands for itself; a
   * byte with bit 7 set must have bit 6 set, announce 1 to 3 continuation
   * bytes through `extraByteMap`, and be followed by that many bytes.
   */
  function DecodeStep(data: seq<Byte>): (r: Option<(CodeUnit, nat)>)
    requires |data| > 0
    ensures r.Some? ==> 1 <= r.value.1 <= |data|
  {
    var ch := data[0];
    if ch < 0x80 then Some((FromCharCode(ch), 1))
    else
      var extra := ExtraBytes(ch);
      if ch % 0x80 < 0x40 || extra == 0 || 1 + extra > |data| then None
      else
        match Continue(data, 1, 1 + extra, ch % (LEAD_MASK[extra] + 1))
        case None => None
        case Some(v) => Some((FromCharCode(v), 1 + extra))
  }

  /** `Utf8ToString`: decodes `data` unit by unit; `None` stands for the `null` returned on malformed input. */
  function Utf8ToString(data: seq<Byte>): Option<JsString>
    decreases |data|
  {
    if |data| == 0 then Some([])
    else
      match DecodeStep(data)
      case None => None
      case Some((unit, used)) =>
        match Utf8ToString(data[used..])
        case None => None
        case Some(rest) => Some([unit] + rest)
  }

  /** A UTF-16 surrogate code unit, 0xD800..0xDFFF. */
  predicate IsSurrogate(c: CodeUnit) {
    0xD800 <= c < 0xE000
  }

  /**
   * The length of the byte group a lead byte starts, read off its top bits
   * (`0xxxxxxx`, `110xxxxx`, `1110xxxx`, `11110xxx`); 0 for a byte that
   * cannot start a group (`10xxxxxx` and `11111xxx`).
   */
  function GroupLength(lead: Byte): nat {
    if lead < 0x80 then 1
    else if lead < 0xC0 then 0
    else if lead < 0xE0 then 2
    else if lead < 0xF0 then 3
    else if lead < 0xF8 then 4
    else 0
  }

  /** The number carried by a group: the lead's payload bits, then six bits per continuation byte. */
  function GroupValue(group: seq<Byte>): nat
    requires 1 <= |group| <= 4
  {
    var b0: nat := group[0];
    if |group| == 1 then b0
    else if |group| == 2 then (b0 % 0x20) * 0x40 + Low6(group[1])
    else if |group| == 3 then (b0 % 0x10) * 0x1000 + Low6(group[1]) * 0x40 + Low6(group[2])
    else (b0 % 0x08) * 0x4_0000 + Low6(group[1]) * 0x1000 + Low6(group[2]) * 0x40 + Low6(group[3])
  }

  /** The six payload bits of a continuation byte. */
  function Low6(b: Byte): nat {
    b % 0x40
  }

  /** `group` is one lead byte followed by exactly the continuation bytes the lead announces. */
  predicate IsGroup(group: seq<Byte>) {
    && 0 < |group| && GroupLength(group[0]) == |group|
    && forall i | 1 <= i < |group| :: IsContinuation(group[i])
  }

  /**
   * The bytes split into groups, each a lead byte and the continuation bytes
   * it announces. Overlong forms and encoded surrogates count as groups too:
   * the decoder does not reject them.
   */
  ghost predicate Grouped(data: seq<Byte>)
    decreases |data|
  {
    |data| == 0 || (var n := GroupLength(data[0]); 0 < n <= |data| && IsGroup(data[..n]) && Grouped(data[n..]))
  }

  /** The decoding of grouped bytes, group by group: each group's number cut to 16 bits. */
  ghost function DecodeGroups(data: seq<Byte>): JsString
    requires Grouped(data)
    decreases |data|
  {
    if |data| == 0 then []
    else
      var n := GroupLength(data[0]);
      [FromCharCode(GroupValue(data[..n]))] + DecodeGroups(data[n..])
  }

  /** `extraByteMap` agrees with the top bits of every byte that passes the `0x40` test. */
  lemma {:induction false} ExtraByteMapAgrees(lead: Byte)
    requires lead >= 0xC0
    ensures ExtraBytes(lead) == 0 <==> lead >= 0xF8
    ensures lead < 0xF8 ==> ExtraBytes(lead) + 1 == GroupLength(lead)
  {
    var k := (lead / 8) % 8;
    assert k == (lead - 0xC0) / 8;
  }

  /** The inner loop accepts exactly a run of continuation bytes. */
  lemma {:induction false} ContinueAccepts(data: seq<Byte>, index: nat, end: nat, ch: nat)
    requires index <= end <= |data|
    ensures Continue(data, index, end, ch).Some? <==> forall j | index <= j < end :: IsContinuation(data[j])
    decreases end - index
  {
    if index < end && IsContinuation(data[index]) {
      ContinueAccepts(data, index + 1, end, ch * 0x40 + Low6(data[index]));
    }
  }

  /** On a run of continuation bytes the inner loop computes the group's number. */
  lemma {:induction false} ContinueGroupValue(data: seq<Byte>, n: nat)
    requires 2 <= n <= 4 && n <= |data| && GroupLength(data[0]) == n
    requires forall j | 1 <= j < n :: IsContinuation(data[j])
    ensures Continue(data, 1, n, data[0] % (LEAD_MASK[n - 1] + 1)) == Some(GroupValue(data[..n]))
  {
    var group := data[..n];
    assert group[0] == data[0] && group[1] == data[1];
    var c1 := data[0] % (LEAD_MASK[n - 1] + 1) * 0x40 + Low6(data[1]);
    assert Continue(data, 1, n, data[0] % (LEAD_MASK[n - 1] + 1)) == Continue(data, 2, n, c1);
    if n > 2 {
      assert group[2] == data[2];
      var c2 := c1 * 0x40 + Low6(data[2]);
      assert Continue(data, 2, n, c1) == Continue(data, 3, n, c2);
      if n > 3 {
        assert group[3] == data[3];
        var c3 := c2 * 0x40 + Low6(data[3]);
        assert Continue(data, 3, n, c2) == Continue(data, 4, n, c3);
      }
    }
  }

  /** One pass of the outer loop succeeds exactly on a group, and yields that group's number cut to 16 bits. */
  lemma {:induction false} DecodeStepSpec(data: seq<Byte>)
    requires |data| > 0
    ensures var n := GroupLength(data[0]);
      && (DecodeStep(data).Some? <==> 0 < n <= |data| && IsGroup(data[..n]))
      && (DecodeStep(data).Some? ==> DecodeStep(data).value == (FromCharCode(GroupValue(data[..n])), n))
  {
    var ch := data[0];
    var n := GroupLength(ch);
    if ch >= 0xC0 {
      ExtraByteMapAgrees(ch);
      if ch < 0xF8 && n <= |data| {
        var group := data[..n];
        ContinueAccepts(data, 1, n, ch % (LEAD_MASK[n - 1] + 1));
        assert IsGroup(group) <==> forall j | 1 <= j < n :: IsContinuation(data[j]) by {
          assert forall j | 1 <= j < n :: group[j] == data[j];
        }
        if IsGroup(group) {
          ContinueGroupValue(data, n);
        }
      }
    }
  }

  /** `Utf8ToString` returns a string exactly on grouped bytes, and that string is the groups' numbers cut to 16 bits. */
  lemma {:induction false} Utf8ToStringSpec(data: seq<Byte>)
    ensures Utf8ToString(data).Some? <==> Grouped(data)
    ensures Grouped(data) ==> Utf8ToString(data) == Some(DecodeGroups(data))
    decreases |data|
  {
    if |data| > 0 {
      DecodeStepSpec(data);
      var n := GroupLength(data[0]);
      if 0 < n <= |data| && IsGroup(data[..n]) {
        Utf8ToStringSpec(data[n..]);
      }
    }
  }

  /** A group followed by grouped bytes is grouped, and decodes to the group's unit followed by the rest. */
  lemma {:induction false} GroupedCons(group: seq<Byte>, rest: seq<Byte>)
    requires IsGroup(group) && Grouped(rest)
    ensures Grouped(group + rest)
    ensures DecodeGroups(group + rest) == [FromCharCode(GroupValue(group))] + DecodeGroups(rest)
  {
    var data := group + rest;
    assert data[..|group|] == group;
    assert data[|group|..] == rest;
  }

  /** The bytes of a code unit outside the surrogate range: one, two or three by its size, decoding back to it. */
  function EncodeUnit(c: CodeUnit): (r: seq<Byte>)
    requires !IsSurrogate(c)
    ensures |r| == (if c < 0x80 then 1 else if c < 0x800 then 2 else 3)
    ensures IsGroup(r) && GroupValue(r) == c
  {
    if c < 0x80 then [c]
    else if c < 0x800 then
      SixBitDigits(c);
      LeadPayload(0xC0, 0x20, c / 0x40);
      ContinuationPayload(c % 0x40);
      [0xC0 + c / 0x40, 0x80 + c % 0x40]
    else
      SixBitDigits(c);
      LeadPayload(0xE0, 0x10, c / 0x1000);
      ContinuationPayload((c / 0x40) % 0x40);
      ContinuationPayload(c % 0x40);
      [0xE0 + c / 0x1000, 0x80 + (c / 0x40) % 0x40, 0x80 + c % 0x40]
  }

  /** `x >> 12` and `x >> 18` are `x >> 6` applied twice and three times, and the six-bit digits add back up to `x`. */
  lemma {:induction false} SixBitDigits(x: nat)
    ensures x / 0x1000 == x / 0x40 / 0x40
    ensures x / 0x4_0000 == x / 0x40 / 0x40 / 0x40
    ensures x == x / 0x40 / 0x40 / 0x40 * 0x4_0000 + x / 0x40 / 0x40 % 0x40 * 0x1000 + x / 0x40 % 0x40 * 0x40 + x % 0x40
  {
    var a := x / 0x40;
    var b := a / 0x40;
    var c := b / 0x40;
    DivModUnique(x, 0x1000, b, a % 0x40 * 0x40 + x % 0x40);
    DivModUnique(x, 0x4_0000, c, b % 0x40 * 0x1000 + a % 0x40 * 0x40 + x % 0x40);
  }

  /** A lead byte `base | payload` keeps its payload under the lead's mask. */
  lemma {:induction false} LeadPayload(base: nat, size: nat, payload: nat)
    requires size in {0x20, 0x10, 0x08} && base % size == 0 && payload < size
    ensures (base + payload) % size == payload
  {
    DivModUnique(base + payload, size, base / size, payload);
  }

  /** `0x80 | d` for a six-bit `d` is a continuation byte carrying `d`. */
  lemma {:induction false} ContinuationPayload(d: nat)
    requires d < 0x40
    ensures IsContinuation(0x80 + d) && Low6(0x80 + d) == d
  {
    DivModUnique(0x80 + d, 0x40, 2, d);
  }

  /**
   * The number a surrogate and the unit after it stand for: 0x10000 plus
   * ten bits from each. Only the low ten bits of each are used, whatever
   * their range.
   */
  function PairCodePoint(first: CodeUnit, second: CodeUnit): (cp: nat)
    ensures 0x1_0000 <= cp < 0x11_0000
  {
    0x1_0000 + (first % 0x400) * 0x400 + second % 0x400
  }

  /** The code point splits back into the low ten bits of the first unit, then those of the second. */
  lemma {:induction false} PairCodePointSplits(first: CodeUnit, second: CodeUnit)
    ensures (PairCodePoint(first, second) - 0x1_0000) / 0x400 == first % 0x400
    ensures (PairCodePoint(first, second) - 0x1_0000) % 0x400 == second % 0x400
  {
    DivModUnique(PairCodePoint(first, second) - 0x1_0000, 0x400, first % 0x400, second % 0x400);
  }

  /**
   * A high surrogate followed by a low one is the UTF-16 encoding of the
   * code point they combine to (section 2.1 of RFC 2781).
   */
  lemma {:induction false} PairCodePointEncodes(first: CodeUnit, second: CodeUnit)
    requires 0xD800 <= first < 0xDC00 && 0xDC00 <= second < 0xE000
    ensures first == 0xD800 + (PairCodePoint(first, second) - 0x1_0000) / 0x400
    ensures second == 0xDC00 + (PairCodePoint(first, second) - 0x1_0000) % 0x400
  {
    PairCodePointSplits(first, second);
  }

  /** The four bytes of a number of up to 21 bits, decoding back to it. */
  function EncodeFour(cp: nat): (r: seq<Byte>)
    requires 0x1_0000 <= cp < 0x20_0000
    ensures IsGroup(r) && |r| == 4 && GroupValue(r) == cp
  {
    SixBitDigits(cp);
    LeadPayload(0xF0, 0x08, cp / 0x4_0000);
    ContinuationPayload((cp / 0x1000) % 0x40);
    ContinuationPayload((cp / 0x40) % 0x40);
    ContinuationPayload(cp % 0x40);
    [0xF0 + cp / 0x4_0000, 0x80 + (cp / 0x1000) % 0x40, 0x80 + (cp / 0x40) % 0x40, 0x80 + cp % 0x40]
  }

  /**
   * `StringToUtf8`: each code unit outside the surrogate range becomes one to
   * three bytes; any surrogate, high or low, is taken with the unit after it
   * as a pair and becomes four bytes. A surrogate at the very end pairs with
   * `charCodeAt` past the end, which is `NaN`, and `NaN & 0x3ff` is 0.
   */
  function StringToUtf8(s: JsString): seq<Byte>
    decreases |s|
  {
    if |s| == 0 then []
    else if !IsSurrogate(s[0]) then EncodeUnit(s[0]) + StringToUtf8(s[1..])
    else
      var second: CodeUnit := if |s| > 1 then s[1] else 0;
      EncodeFour(PairCodePoint(s[0], second)) + StringToUtf8(if |s| > 1 then s[2..] else [])
  }

  /**
   * What reading the encoding back yields: a unit outside the surrogate
   * range stands for itself, and a surrogate with the unit after it becomes
   * the single unit holding the low 16 bits of their pair's number.
   */
  ghost function Narrowed(s: JsString): JsString
    decreases |s|
  {
    if |s| == 0 then []
    else if !IsSurrogate(s[0]) then [s[0]] + Narrowed(s[1..])
    else
      var second: CodeUnit := if |s| > 1 then s[1] else 0;
      [FromCharCode(PairCodePoint(s[0], second))] + Narrowed(if |s| > 1 then s[2..] else [])
  }

  /** A string with no surrogate code units. */
  predicate NoSurrogates(s: JsString) {
    forall i | 0 <= i < |s| :: !IsSurrogate(s[i])
  }

  /** The encoder's output is grouped, and its groups decode to the narrowed string. */
  lemma {:induction false} StringToUtf8Grouped(s: JsString)
    ensures Grouped(StringToUtf8(s))
    ensures DecodeGroups(StringToUtf8(s)) == Narrowed(s)
    decreases |s|
  {
    if |s| > 0 {
      if !IsSurrogate(s[0]) {
        StringToUtf8Grouped(s[1..]);
        UnitGrouped(s);
      } else {
        var rest := if |s| > 1 then s[2..] else [];
        StringToUtf8Grouped(rest);
        PairGrouped(s, rest);
      }
    }
  }

  /** The step of `StringToUtf8Grouped` for a unit outside the surrogate range. */
  lemma {:induction false} UnitGrouped(s: JsString)
    requires |s| > 0 && !IsSurrogate(s[0])
    requires Grouped(StringToUtf8(s[1..])) && DecodeGroups(StringToUtf8(s[1..])) == Narrowed(s[1..])
    ensures Grouped(StringToUtf8(s)) && DecodeGroups(StringToUtf8(s)) == Narrowed(s)
  {
    var group := EncodeUnit(s[0]);
    GroupedCons(group, StringToUtf8(s[1..]));
    DivModUnique(s[0], 0x1_0000, 0, s[0]);
    assert FromCharCode(GroupValue(group)) == s[0];
  }

  /** The step of `StringToUtf8Grouped` for a surrogate and the unit after it. */
  lemma {:induction false} PairGrouped(s: JsString, rest: JsString)
    requires |s| > 0 && IsSurrogate(s[0]) && rest == (if |s| > 1 then s[2..] else [])
    requires Grouped(StringToUtf8(rest)) && DecodeGroups(StringToUtf8(rest)) == Narrowed(rest)
    ensures Grouped(StringToUtf8(s)) && DecodeGroups(StringToUtf8(s)) == Narrowed(s)
  {
    var second: CodeUnit := if |s| > 1 then s[1] else 0;
    GroupedCons(EncodeFour(PairCodePoint(s[0], second)), StringToUtf8(rest));
  }

  /** Encoding then decoding never fails, and gives back the string with each pair narrowed to 16 bits. */
  lemma {:induction false} RoundTrip(s: JsString)
    ensures Utf8ToString(StringToUtf8(s)) == Some(Narrowed(s))
  {
    StringToUtf8Grouped(s);
    Utf8ToStringSpec(StringToUtf8(s));
  }

  /** Narrowing leaves a string without surrogates unchanged. */
  lemma {:induction false} NarrowedNoSurrogates(s: JsString)
    requires NoSurrogates(s)
    ensures Narrowed(s) == s
    decreases |s|
  {
    if |s| > 0 {
      NarrowedNoSurrogates(s[1..]);
    }
  }

  /** A string without surrogates survives encoding and decoding unchanged. */
  lemma {:induction false} RoundTripNoSurrogates(s: JsString)
    requires NoSurrogates(s)
    ensures Utf8ToString(StringToUtf8(s)) == Some(s)
  {
    RoundTrip(s);
    NarrowedNoSurrogates(s);
  }

  /**
   * A group as `StringToUtf8` writes it: at most three bytes, in the
   * shortest form for its number, and not an encoded surrogate.
   */
  predicate IsShortestGroup(group: seq<Byte>) {
    && IsGroup(group) && |group| <= 3
    && (|group| == 2 ==> 0x80 <= GroupValue(group))
    && (|group| == 3 ==> 0x800 <= GroupValue(group) && !(0xD800 <= GroupValue(group) < 0xE000))
  }

  /** Bytes that split into shortest-form groups: UTF-8 of text without surrogates or characters beyond 0xFFFF. */
  ghost predicate ShortestForm(data: seq<Byte>)
    decreases |data|
  {
    |data| == 0 || (var n := GroupLength(data[0]); 0 < n <= |data| && IsShortestGroup(data[..n]) && ShortestForm(data[n..]))
  }

  /** Encoding the number of a shortest-form group gives back the group. */
  lemma {:induction false} EncodeGroupValue(group: seq<Byte>)
    requires IsShortestGroup(group)
    ensures GroupValue(group) < 0x1_0000 && !IsSurrogate(GroupValue(group))
    ensures EncodeUnit(GroupValue(group)) == group
  {
    if |group| == 2 {
      EncodeTwo(group);
    } else if |group| == 3 {
      EncodeThree(group);
    }
  }

  /** `EncodeGroupValue` for a two-byte group. */
  lemma {:induction false} EncodeTwo(group: seq<Byte>)
    requires IsShortestGroup(group) && |group| == 2
    ensures EncodeUnit(GroupValue(group)) == group
  {
    var v := GroupValue(group);
    var b0: nat := group[0];
    var d1 := Low6(group[1]);
    DivModUnique(v, 0x40, b0 % 0x20, d1);
    DivModUnique(b0, 0x20, 6, b0 - 0xC0);
    DivModUnique(group[1], 0x40, 2, d1);
    assert EncodeUnit(v) == [group[0], group[1]];
  }

  /** `EncodeGroupValue` for a three-byte group. */
  lemma {:induction false} EncodeThree(group: seq<Byte>)
    requires IsShortestGroup(group) && |group| == 3
    ensures GroupValue(group) < 0x1_0000 && EncodeUnit(GroupValue(group)) == group
  {
    var v := GroupValue(group);
    var b0: nat := group[0];
    var d1 := Low6(group[1]);
    var d2 := Low6(group[2]);
    var high: nat := (b0 % 0x10) * 0x40 + d1;
    DivModUnique(v, 0x40, high, d2);
    DivModUnique(high, 0x40, b0 % 0x10, d1);
    DivModUnique(v, 0x1000, b0 % 0x10, d1 * 0x40 + d2);
    DivModUnique(b0, 0x10, 0xE, b0 - 0xE0);
    DivModUnique(group[1], 0x40, 2, d1);
    DivModUnique(group[2], 0x40, 2, d2);
    assert EncodeUnit(v) == [group[0], group[1], group[2]];
  }

  /** Shortest-form bytes are grouped, and encoding their decoding gives them back. */
  lemma {:induction false} ShortestFormEncodes(data: seq<Byte>)
    requires ShortestForm(data)
    ensures Grouped(data) && StringToUtf8(DecodeGroups(data)) == data
    decreases |data|
  {
    if |data| > 0 {
      var n := GroupLength(data[0]);
      var group := data[..n];
      assert data == group + data[n..];
      ShortestFormEncodes(data[n..]);
      EncodeGroupValue(group);
      var u := GroupValue(group);
      DivModUnique(u, 0x1_0000, 0, u);
      var text := DecodeGroups(data);
      assert text[0] == u && text[1..] == DecodeGroups(data[n..]);
    }
  }

  /** Decoding shortest-form bytes succeeds, and encoding the result gives back the same bytes. */
  lemma {:induction false} DecodeThenEncode(data: seq<Byte>)
    requires ShortestForm(data)
    ensures Utf8ToString(data).Some? && StringToUtf8(Utf8ToString(data).value) == data
  {
    ShortestFormEncodes(data);
    Utf8ToStringSpec(data);
  }

  /** Bytes below 0x80 decode to the same values, and such units encode to the same bytes. */
  lemma {:induction false} AsciiUnchanged(data: seq<Byte>)
    requires forall i | 0 <= i < |data| :: data[i] < 0x80
    ensures Utf8ToString(data).Some?
    ensures |Utf8ToString(data).value| == |data|
    ensures forall i | 0 <= i < |data| :: Utf8ToString(data).value[i] == data[i]
    ensures StringToUtf8(Utf8ToString(data).value) == data
    decreases |data|
  {
    if |data| > 0 {
      AsciiUnchanged(data[1..]);
      DivModUnique(data[0], 0x1_0000, 0, data[0]);
      var text := Utf8ToString(data).value;
      assert text == [data[0] as CodeUnit] + Utf8ToString(data[1..]).value;
      assert StringToUtf8(text) == [data[0]] + StringToUtf8(text[1..]);
      assert data == [data[0]] + data[1..];
    }
  }

  /** Malformed input: a stray continuation byte, a byte that cannot lead, a cut-off group, a bad continuation. */
  lemma {:induction false} MalformedExamples()
    ensures Utf8ToString([0x41, 0x80]) == None
    ensures Utf8ToString([0xF8, 0x80, 0x80, 0x80]) == None
    ensures Utf8ToString([0xE2, 0x82]) == None
    ensures Utf8ToString([0xC3, 0x28]) == None
  {
    StrayContinuation();
    BadLead();
    Truncated();
    BadContinuation();
  }

  lemma {:induction false} StrayContinuation()
    ensures Utf8ToString([0x41, 0x80]) == None
  {
  }

  lemma {:induction false} BadLead()
    ensures Utf8ToString([0xF8, 0x80, 0x80, 0x80]) == None
  {
  }

  lemma {:induction false} Truncated()
    ensures Utf8ToString([0xE2, 0x82]) == None
  {
  }

  lemma {:induction false} BadContinuation()
    ensures Utf8ToString([0xC3, 0x28]) == None
  {
  }

  /** The decoder does not reject overlong forms: `C0 80` reads as the unit 0. */
  lemma {:induction false} OverlongAccepted()
    ensures Utf8ToString([0xC0, 0x80]) == Some([0])
  {
    var data: seq<Byte> := [0xC0, 0x80];
    DecodeStepSpec(data);
    assert data[..2] == data && GroupValue(data) == 0;
    assert DecodeStep(data) == Some((0, 2));
    assert Utf8ToString(data[2..]) == Some([]);
    var unit: CodeUnit := 0;
    assert [unit] + [] == [0];
    assert Utf8ToString(data) == Some([unit] + []);
  }

  /** A 4-byte group above U+10FFFF is accepted too; 0x110000 is cut to the unit 0. */
  lemma {:induction false} AboveMaxAccepted()
    ensures Utf8ToString([0xF4, 0x90, 0x80, 0x80]) == Some([0])
  {
    var data: seq<Byte> := [0xF4, 0x90, 0x80, 0x80];
    DecodeStepSpec(data);
    assert IsContinuation(data[1]) && IsContinuation(data[2]) && IsContinuation(data[3]);
    assert data[..4] == data && GroupValue(data) == 0x11_0000;
    assert DecodeStep(data) == Some((0, 4));
    assert Utf8ToString(data[4..]) == Some([]);
    var unit: CodeUnit := 0;
    assert [unit] + [] == [0];
    assert Utf8ToString(data) == Some([unit] + []);
  }

  /** U+1F600, the pair D83D DE00, becomes `F0 9F 98 80`. */
  lemma {:induction false} PairEncodingExample()
    ensures StringToUtf8([0xD83D, 0xDE00]) == [0xF0, 0x9F, 0x98, 0x80]
  {
    var s: JsString := [0xD83D, 0xDE00];
    assert PairCodePoint(0xD83D, 0xDE00) == 0x1_F600;
    assert EncodeFour(0x1_F600) == [0xF0, 0x9F, 0x98, 0x80];
    assert StringToUtf8(s[2..]) == [];
  }

  /** A lone surrogate at the end pairs with 0: D800 becomes `F0 90 80 80`. */
  lemma {:induction false} LoneSurrogateExample()
    ensures StringToUtf8([0xD800]) == [0xF0, 0x90, 0x80, 0x80]
  {
    assert PairCodePoint(0xD800, 0) == 0x1_0000;
    assert EncodeFour(0x1_0000) == [0xF0, 0x90, 0x80, 0x80];
  }

  /** The four bytes of U+1F600 read back as the single unit F600, not as the pair D83D DE00. */
  lemma {:induction false} PairReadBackExample()
    ensures Utf8ToString([0xF0, 0x9F, 0x98, 0x80]) == Some([0xF600])
  {
    var s: JsString := [0xD83D, 0xDE00];
    PairEncodingExample();
    RoundTrip(s);
    PairNarrowed(s);
  }

  /** The pair D83D DE00 narrows to the single unit F600. */
  lemma {:induction false} PairNarrowed(s: JsString)
    requires s == [0xD83D, 0xDE00]
    ensures Narrowed(s) == [0xF600]
  {
    var unit: CodeUnit := 0xF600;
    assert PairCodePoint(s[0], s[1]) == 0x1_F600;
    DivModUnique(0x1_F600, 0x1_0000, 1, unit);
    assert FromCharCode(PairCodePoint(s[0], s[1])) == unit;
    assert s[2..] == [] && Narrowed(s[2..]) == [];
    assert [unit] + [] == [0xF600];
  }
}
