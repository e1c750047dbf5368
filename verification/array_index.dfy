/**
 * Array index keys. A property key names an element of an array or a code
 * unit of a string only when it is the canonical decimal form of an integer
 * below 2^32 - 1: "7" and "10" do, "07", "-0", "1e1" and "" do not. This is
 * how `obj[parts[i]]` in `GetProperty` and `SetProperty`
 * (Scripts/atomEditor.js:81-105) tells an element from a named property.
 */
module ArrayIndex {
  import opened Bytes
  import opened Wrappers

  /** The code unit of the digit '0'. */
  const ZERO: CodeUnit := 0x30

  /** The largest array index, 2^32 - 2. */
  const MAX_INDEX: nat := 0xFFFF_FFFE

  predicate IsDigit(c: CodeUnit) {
    ZERO <= c < ZERO + 10
  }

  predicate AllDigits(s: JsString) {
    forall i | 0 <= i < |s| :: IsDigit(s[i])
  }

  /** The number a string of decimal digits denotes, most significant digit first. */
  function DecimalValue(s: JsString): nat
    requires AllDigits(s)
    decreases |s|
  {
    if |s| == 0 then 0
    else DecimalValue(s[..|s| - 1]) * 10 + (s[|s| - 1] - ZERO)
  }

  /** Digits with no leading zero, except for "0" itself. */
  predicate IsCanonicalDecimal(s: JsString) {
    0 < |s| && AllDigits(s) && (|s| == 1 || s[0] != ZERO)
  }

  /** The array index a key names, if any. */
  function ParseIndex(key: JsString): Option<nat> {
    if IsCanonicalDecimal(key) && DecimalValue(key) <= MAX_INDEX then Some(DecimalValue(key)) else None
  }

  /** The decimal form of `n`, as `ToString` writes it. */
  function IndexKey(n: nat): (s: JsString)
    ensures IsCanonicalDecimal(s) && DecimalValue(s) == n
    decreases n
  {
    if n < 10 then [ZERO + n]
    else
      var s := IndexKey(n / 10) + [ZERO + n % 10];
      assert s[..|s| - 1] == IndexKey(n / 10);
      s
  }

  /** Every index is named by its decimal form. */
  lemma {:induction false} ParseIndexKey(n: nat)
    requires n <= MAX_INDEX
    ensures ParseIndex(IndexKey(n)) == Some(n)
  {
  }

  /** A canonical decimal string of two or more digits denotes at least 10. */
  lemma {:induction false} LongDecimalAtLeastTen(s: JsString)
    requires IsCanonicalDecimal(s) && |s| >= 2
    ensures DecimalValue(s) >= 10
    decreases |s|
  {
    var init := s[..|s| - 1];
    assert init[0] == s[0];
    if |init| >= 2 {
      LongDecimalAtLeastTen(init);
    }
  }

  /** A canonical decimal string is the decimal form of the number it denotes. */
  lemma {:induction false} DecimalRoundTrip(s: JsString)
    requires IsCanonicalDecimal(s)
    ensures IndexKey(DecimalValue(s)) == s
    decreases |s|
  {
    if |s| >= 2 {
      var init := s[..|s| - 1];
      assert init[0] == s[0];
      LongDecimalAtLeastTen(s);
      DecimalRoundTrip(init);
      var n := DecimalValue(s);
      assert n / 10 == DecimalValue(init) && n % 10 == s[|s| - 1] - ZERO;
      assert s == init + [s[|s| - 1]];
    }
  }

  /** Two different keys never name the same index. */
  lemma {:induction false} ParseIndexInjective(a: JsString, b: JsString)
    requires ParseIndex(a).Some? && ParseIndex(a) == ParseIndex(b)
    ensures a == b
  {
    DecimalRoundTrip(a);
    DecimalRoundTrip(b);
  }
}
