/**
 * Little-endian integers as the saved-game container stores them, and the
 * JavaScript number semantics `writeUInt32` relies on
 * (Scripts/savedGame.js:59-70 and 195-202).
 */
module LittleEndian {
  import opened Bytes

  const TWO_32: nat := 0x1_0000_0000

  /** The unsigned 16-bit value of two bytes, low byte first (`readInt16`). */
  function U16(lo: Byte, hi: Byte): (v: nat)
    ensures v < 0x1_0000
  {
    lo + 0x100 * hi
  }

  /** The unsigned 32-bit value of four bytes, composed of two 16-bit halves, low half first (`readInt32`). */
  function U32(b0: Byte, b1: Byte, b2: Byte, b3: Byte): (v: nat)
    ensures v < TWO_32
  {
    U16(b0, b1) + 0x1_0000 * U16(b2, b3)
  }

  /**
   * The 16-bit value stored at `pos` in `data`, low byte first. Reads from a
   * buffer go through this positional form rather than through `U16`.
   */
  function U16At(data: seq<Byte>, pos: nat): (v: nat)
    requires pos + 2 <= |data|
    ensures v < 0x1_0000
  {
    data[pos] as nat + 0x100 * data[pos + 1] as nat
  }

  /** The 32-bit value stored at `pos` in `data`, low half first. */
  function U32At(data: seq<Byte>, pos: nat): (v: nat)
    requires pos + 4 <= |data|
    ensures v < TWO_32
  {
    U16At(data, pos) + 0x1_0000 * U16At(data, pos + 2)
  }

  /** The positional reads agree with the byte-wise values. */
  lemma {:induction false} U32AtBytes(data: seq<Byte>, pos: nat)
    requires pos + 4 <= |data|
    ensures U16At(data, pos) == U16(data[pos], data[pos + 1])
    ensures U32At(data, pos) == U32(data[pos], data[pos + 1], data[pos + 2], data[pos + 3])
  {
  }

  /** The two bytes are the base-256 digits of their 16-bit value. */
  lemma {:induction false} U16Digits(lo: Byte, hi: Byte)
    ensures U16(lo, hi) % 0x100 == lo && U16(lo, hi) / 0x100 == hi
  {
    DivModUnique(lo + 0x100 * hi, 0x100, hi, lo);
  }

  /** The two halves are the base-2^16 digits of the 32-bit value. */
  lemma {:induction false} U32Halves(b0: Byte, b1: Byte, b2: Byte, b3: Byte)
    ensures U32(b0, b1, b2, b3) % 0x1_0000 == U16(b0, b1)
    ensures U32(b0, b1, b2, b3) / 0x1_0000 == U16(b2, b3)
  {
    DivModUnique(U16(b0, b1) + 0x1_0000 * U16(b2, b3), 0x1_0000, U16(b2, b3), U16(b0, b1));
  }

  /** ECMAScript ToInt32: the signed 32-bit integer congruent to `n` modulo 2^32. */
  function ToInt32(n: int): (r: int)
    ensures -0x8000_0000 <= r < 0x8000_0000
    ensures r == n % TWO_32 || r == n % TWO_32 - TWO_32
  {
    var m := n % TWO_32;
    if m >= 0x8000_0000 then m - TWO_32 else m
  }

  /** The quotient rounded toward zero, which JavaScript's `%` is defined by. */
  function TruncQuot(a: int, b: nat): int
    requires b > 0
  {
    if a >= 0 then a / b else -((-a) / b)
  }

  /** JavaScript `%`: `a` minus `b` times the quotient rounded toward zero, so the remainder takes the sign of the dividend. */
  function JsRem(a: int, b: nat): (r: int)
    requires b > 0
    ensures a == b * TruncQuot(a, b) + r
    ensures -(b as int) < r < b
    ensures a >= 0 ==> r >= 0
    ensures a < 0 ==> r <= 0
  {
    if a >= 0 then a % b else -((-a) % b)
  }

  /** ECMAScript ToUint8: what a `Uint8Array` element assignment stores. */
  function ToUint8(x: int): Byte {
    x % 0x100
  }

  /**
   * `writeUInt32`: byte k is `(n >> 8k) % 0x100` stored into a `Uint8Array`;
   * `>>` first converts `n` with ToInt32 and then shifts arithmetically
   * (floor division by a power of two), and byte 0 skips the shift.
   */
  function WriteUInt32(n: nat): (r: seq<Byte>)
    ensures |r| == 4
  {
    [ ToUint8(n % 0x100),
      ToUint8(JsRem(ToInt32(n) / 0x100, 0x100)),
      ToUint8(JsRem(ToInt32(n) / 0x1_0000, 0x100)),
      ToUint8(JsRem(ToInt32(n) / 0x100_0000, 0x100)) ]
  }

  /** The four bytes `writeUInt32` stores are the little-endian form of `n` modulo 2^32. */
  lemma {:induction false} WriteUInt32Value(n: nat)
    ensures var r := WriteUInt32(n); U32(r[0], r[1], r[2], r[3]) == n % TWO_32
  {
    var r := WriteUInt32(n);
    var m := n % TWO_32;
    WriteUInt32Digits(n);
    assert r[0] == m % 0x100 && r[1] == (m / 0x100) % 0x100;
    assert r[2] == (m / 0x1_0000) % 0x100 && r[3] == (m / 0x100_0000) % 0x100;
    LittleEndianDigits(m);
  }

  /** Storing a JavaScript remainder by 256 into a `Uint8Array` yields the mathematical residue. */
  lemma {:induction false} ToUint8OfRem(x: int)
    ensures ToUint8(JsRem(x, 0x100)) == x % 0x100
  {
    if x < 0 {
      var s := (-x) % 0x100;
      var t := (-x) / 0x100;
      if s == 0 {
        DivModUnique(x, 0x100, -t, 0);
      } else {
        DivModUnique(x, 0x100, -t - 1, 0x100 - s);
        DivModUnique(-s, 0x100, -1, 0x100 - s);
      }
    }
  }

  /** Shifting the signed view of `n` agrees, modulo 256, with shifting `n mod 2^32`. */
  lemma {:induction false} ShiftedDigit(n: nat, d: int, q: int)
    requires d > 0 && q > 0 && d * q == TWO_32 && q % 0x100 == 0
    ensures (ToInt32(n) / d) % 0x100 == ((n % TWO_32) / d) % 0x100
  {
    var m := n % TWO_32;
    if ToInt32(n) != m {
      assert m == d * (m / d) + m % d;
      assert ToInt32(n) == d * (m / d - q) + m % d;
      DivModUnique(ToInt32(n), d, m / d - q, m % d);
      var t := m / d;
      assert t - q == 0x100 * (t / 0x100 - q / 0x100) + t % 0x100;
      DivModUnique(t - q, 0x100, t / 0x100 - q / 0x100, t % 0x100);
    }
  }

  lemma {:induction false} WriteUInt32Digits(n: nat)
    ensures ToUint8(JsRem(ToInt32(n) / 0x100, 0x100)) == ((n % TWO_32) / 0x100) % 0x100
    ensures ToUint8(JsRem(ToInt32(n) / 0x1_0000, 0x100)) == ((n % TWO_32) / 0x1_0000) % 0x100
    ensures ToUint8(JsRem(ToInt32(n) / 0x100_0000, 0x100)) == ((n % TWO_32) / 0x100_0000) % 0x100
    ensures n % 0x100 == (n % TWO_32) % 0x100
  {
    ToUint8OfRem(ToInt32(n) / 0x100);
    ToUint8OfRem(ToInt32(n) / 0x1_0000);
    ToUint8OfRem(ToInt32(n) / 0x100_0000);
    ShiftedDigit(n, 0x100, 0x100_0000);
    ShiftedDigit(n, 0x1_0000, 0x1_0000);
    ShiftedDigit(n, 0x100_0000, 0x100);
    var m := n % TWO_32;
    var k := n / TWO_32;
    assert n == 0x100 * (0x100_0000 * k + m / 0x100) + m % 0x100;
    DivModUnique(n, 0x100, 0x100_0000 * k + m / 0x100, m % 0x100);
  }

  /** Base-256 digits of a 32-bit value reassemble it. */
  lemma {:induction false} LittleEndianDigits(m: nat)
    requires m < TWO_32
    ensures U32(m % 0x100, (m / 0x100) % 0x100, (m / 0x1_0000) % 0x100, (m / 0x100_0000) % 0x100) == m
  {
    var lo := m % 0x1_0000;
    var hi := m / 0x1_0000;
    DivModUnique(m, 0x1_0000, hi, lo);
    SplitDigits(m, lo, hi);
    Reassemble16(lo);
    Reassemble16(hi);
  }

  lemma {:induction false} SplitDigits(m: nat, lo: nat, hi: nat)
    requires lo < 0x1_0000 && hi < 0x1_0000 && m == lo + 0x1_0000 * hi
    ensures m % 0x100 == lo % 0x100
    ensures (m / 0x100) % 0x100 == lo / 0x100
    ensures (m / 0x1_0000) % 0x100 == hi % 0x100
    ensures (m / 0x100_0000) % 0x100 == hi / 0x100
  {
    DivModUnique(m, 0x100, lo / 0x100 + 0x100 * hi, lo % 0x100);
    DivModUnique(m / 0x100, 0x100, hi, lo / 0x100);
    DivModUnique(m, 0x1_0000, hi, lo);
    DivModUnique(hi, 0x100, hi / 0x100, hi % 0x100);
    DivModUnique(m, 0x100_0000, hi / 0x100, lo + 0x1_0000 * (hi % 0x100));
    DivModUnique(hi / 0x100, 0x100, 0, hi / 0x100);
  }

  lemma {:induction false} Reassemble16(x: nat)
    requires x < 0x1_0000
    ensures U16(x % 0x100, x / 0x100) == x
  {
    DivModUnique(x, 0x100, x / 0x100, x % 0x100);
  }

  /** Four bytes are determined by their 32-bit value. */
  lemma {:induction false} U32Injective(a0: Byte, a1: Byte, a2: Byte, a3: Byte, b0: Byte, b1: Byte, b2: Byte, b3: Byte)
    requires U32(a0, a1, a2, a3) == U32(b0, b1, b2, b3)
    ensures a0 == b0 && a1 == b1 && a2 == b2 && a3 == b3
  {
    U32Halves(a0, a1, a2, a3);
    U32Halves(b0, b1, b2, b3);
    U16Digits(a0, a1);
    U16Digits(b0, b1);
    U16Digits(a2, a3);
    U16Digits(b2, b3);
  }

  /** Writing the value read from four bytes writes those same four bytes. */
  lemma {:induction false} WriteReadUInt32(b0: Byte, b1: Byte, b2: Byte, b3: Byte)
    ensures WriteUInt32(U32(b0, b1, b2, b3)) == [b0, b1, b2, b3]
  {
    var v := U32(b0, b1, b2, b3);
    DivModUnique(v, TWO_32, 0, v);
    WriteUInt32Value(v);
    var r := WriteUInt32(v);
    U32Injective(r[0], r[1], r[2], r[3], b0, b1, b2, b3);
  }

  lemma {:induction false} MulLe(d: int, a: int, b: int)
    requires d > 0 && a <= b
    ensures d * a <= d * b
  {
    var k := b - a;
    assert d * b == d * a + d * k;
  }

  /** Euclidean division is determined by any quotient/remainder pair. */
  lemma {:induction false} DivModUnique(x: int, d: int, q: int, r: int)
    requires d > 0 && 0 <= r < d && x == d * q + r
    ensures x / d == q && x % d == r
  {
    var q' := x / d;
    var r' := x % d;
    assert x == d * q' + r';
    assert d * (q + 1) == d * q + d;
    assert d * (q' + 1) == d * q' + d;
    if q' > q {
      MulLe(d, q + 1, q');
    } else if q' < q {
      MulLe(d, q' + 1, q);
    }
  }
}
