/**
 * Machine-level value types shared by the codecs: bytes as stored in a
 * `Uint8Array`, and UTF-16 code units as produced by `String.fromCharCode`
 * and `charCodeAt`.
 */
module Bytes {

  /** One element of a `Uint8Array`. */
  type Byte = b: nat | b < 0x100

  /** One UTF-16 code unit of a JavaScript string. */
  type CodeUnit = u: nat | u < 0x1_0000

  /** A JavaScript string: a sequence of UTF-16 code units. */
  type JsString = seq<CodeUnit>
}
