/** The string conversions the placement code performs: `str()` of a
    non-negative integer, `"%s-%s"` keys, `sum(ord(c) for c in key)` and the
    UTF-8 bytes that the hash extension reads from a Python `str`. */
module Text {

  predicate IsDigit(c: char) {
    '0' <= c <= '9'
  }

  predicate AllDigits(s: string) {
    forall k :: 0 <= k < |s| ==> IsDigit(s[k])
  }

  /** `str(n)` for a non-negative integer. */
  function Decimal(n: nat): string {
    var last := (48 + n % 10) as char;
    if n < 10 then [last] else Decimal(n / 10) + [last]
  }

  /** `str(n)` is a non-empty run of decimal digits without leading zeros. */
  lemma {:induction false} DecimalDigits(n: nat)
    ensures |Decimal(n)| > 0 && AllDigits(Decimal(n))
    ensures |Decimal(n)| > 1 ==> Decimal(n)[0] != '0'
  {
    if n >= 10 {
      DecimalDigits(n / 10);
    }
  }

  /** `int(s)` for a string of decimal digits. */
  function ParseDecimal(s: string): int {
    if s == [] then 0
    else ParseDecimal(s[..|s| - 1]) * 10 + (s[|s| - 1] as int - 48)
  }

  /** `int(str(n)) == n`. */
  lemma {:induction false} ParseDecimalInverts(n: nat)
    ensures ParseDecimal(Decimal(n)) == n
  {
    var s := Decimal(n);
    if n >= 10 {
      assert s[..|s| - 1] == Decimal(n / 10);
      ParseDecimalInverts(n / 10);
    }
  }

  /** The key `"%s-%s" % (partition_id, key_index)`. */
  function IndexKey(partition: nat, index: nat): string {
    Decimal(partition) + "-" + Decimal(index)
  }

  /** Different (partition, index) pairs never share a key. */
  lemma IndexKeyInjective(p1: nat, i1: nat, p2: nat, i2: nat)
    requires IndexKey(p1, i1) == IndexKey(p2, i2)
    ensures p1 == p2 && i1 == i2
  {
    var a, b := Decimal(p1), Decimal(p2);
    var key := IndexKey(p1, i1);
    DecimalDigits(p1);
    DecimalDigits(p2);
    assert key[|a|] == '-' && key[|b|] == '-';
    assert a == key[..|a|] == b;
    assert Decimal(i1) == key[|a| + 1..] == Decimal(i2);
    ParseDecimalInverts(p1);
    ParseDecimalInverts(p2);
    ParseDecimalInverts(i1);
    ParseDecimalInverts(i2);
  }

  /** `sum(ord(char) for char in key)`. */
  function OrdSum(s: string): nat {
    if s == [] then 0 else OrdSum(s[..|s| - 1]) + s[|s| - 1] as int
  }

  /** The UTF-8 encoding of one code point. */
  function Utf8Char(c: char): (b: seq<bv8>)
    ensures 1 <= |b| <= 4
    ensures |b| == 1 <==> c as int < 0x80
    ensures c as int < 0x80 ==> b == [c as int as bv8]
  {
    var n := c as int;
    if n < 0x80 then [n as bv8]
    else if n < 0x800 then [(0xC0 + n / 64) as bv8, (0x80 + n % 64) as bv8]
    else if n < 0x10000 then
      [(0xE0 + n / 4096) as bv8, (0x80 + n / 64 % 64) as bv8, (0x80 + n % 64) as bv8]
    else
      [(0xF0 + n / 262144) as bv8, (0x80 + n / 4096 % 64) as bv8,
       (0x80 + n / 64 % 64) as bv8, (0x80 + n % 64) as bv8]
  }

  /** The bytes `murmur3_32` reads from a Python `str` (format `s#`). */
  function Utf8(s: string): (b: seq<bv8>)
    ensures |s| <= |b| <= 4 * |s|
  {
    if s == [] then [] else Utf8(s[..|s| - 1]) + Utf8Char(s[|s| - 1])
  }
}
