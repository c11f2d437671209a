/** Fixed-width hexadecimal text of 32-bit values. The kernel prints such
    text in two places with two different loops: vga_put_hex
    (src/drivers/vga.c, lower-case digits) and print_hex
    (src/managers/interrupt/exception_handler.c, upper-case digits behind
    "0x"); bmp_to_c.py prints single bytes as two upper-case digits. */
module Hex {
  import opened Options

  function Pow16(k: nat): (p: nat)
    ensures p >= 1
  {
    if k == 0 then 1 else 16 * Pow16(k - 1)
  }

  /** Nibble i of v, counting from the least significant nibble. */
  function Nibble(v: nat, i: nat): (d: nat)
    ensures d < 16
  {
    (v / Pow16(i)) % 16
  }

  function HexChar(d: nat, upper: bool): (c: char)
    requires d < 16
  {
    if d < 10 then (('0' as int) + d) as char
    else if upper then (('A' as int) + d - 10) as char
    else (('a' as int) + d - 10) as char
  }

  /** The value of one hexadecimal digit of either case. */
  function HexValue(c: char): Option<nat>
  {
    if '0' <= c <= '9' then Some((c as int) - ('0' as int))
    else if 'A' <= c <= 'F' then Some((c as int) - ('A' as int) + 10)
    else if 'a' <= c <= 'f' then Some((c as int) - ('a' as int) + 10)
    else None
  }

  lemma HexCharValue(d: nat, upper: bool)
    requires d < 16
    ensures HexValue(HexChar(d, upper)) == Some(d)
  {
  }

  /** The last k hexadecimal digits of v, most significant first. */
  function HexDigits(v: nat, k: nat, upper: bool): (s: string)
    ensures |s| == k
  {
    if k == 0 then [] else HexDigits(v / 16, k - 1, upper) + [HexChar(v % 16, upper)]
  }

  /** The number a string of hexadecimal digits denotes. */
  function ParseHex(s: string): Option<nat>
  {
    if |s| == 0 then Some(0)
    else
      match (ParseHex(s[..|s| - 1]), HexValue(s[|s| - 1]))
      case (Some(hi), Some(lo)) => Some(hi * 16 + lo)
      case _ => None
  }

  /** Quotient and remainder are the only pair that satisfies the
      division equation. */
  lemma DivModUnique(v: int, d: int, q: int, r: int)
    requires d > 0 && v == d * q + r && 0 <= r < d
    ensures v / d == q && v % d == r
  {
    var q0, r0 := v / d, v % d;
    assert v == d * q0 + r0 && 0 <= r0 < d;
    if q0 < q {
      assert d * q - d * q0 == d * (q - q0);
      MulAtLeast(d, q - q0);
    } else if q0 > q {
      assert d * q0 - d * q == d * (q0 - q);
      MulAtLeast(d, q0 - q);
    }
  }

  lemma MulAtLeast(d: int, a: int)
    requires d > 0 && a >= 1
    ensures d * a >= d
  {
  }

  lemma DivDiv16(v: nat, k: nat)
    ensures (v / 16) / Pow16(k) == v / Pow16(k + 1)
  {
    var p := Pow16(k);
    var q := v / (16 * p);
    var r := v % (16 * p);
    assert v == (16 * p) * q + r && 0 <= r < 16 * p;
    var pq := p * q;
    assert (16 * p) * q == 16 * pq;
    assert v == 16 * (pq + r / 16) + r % 16;
    DivModUnique(v, 16, pq + r / 16, r % 16);
    assert r / 16 < p;
    DivModUnique(v / 16, p, q, r / 16);
  }

  /** Shifting right by 4k bits and then 4 more is shifting by 4(k+1). */
  lemma DivPow16Step(v: nat, k: nat)
    ensures (v / Pow16(k)) / 16 == v / Pow16(k + 1)
  {
    var p := Pow16(k);
    assert Pow16(k + 1) == 16 * p;
    DivSixteenTimes(v, p);
  }

  /** Dividing by p and then by 16 is dividing by 16p. */
  lemma DivSixteenTimes(v: nat, p: nat)
    requires p > 0
    ensures (v / p) / 16 == v / (16 * p)
  {
    var q := v / (16 * p);
    var r := v % (16 * p);
    Regroup(v, p, q, r, r / p, r % p);
    DivModUnique(16 * q + r / p, 16, q, r / p);
  }

  /** v split by 16p into q and r, and r split by p into a and b, is v
      split by p into 16q + a and b. */
  lemma Regroup(v: nat, p: nat, q: int, r: int, a: int, b: int)
    requires p > 0 && q == v / (16 * p) && r == v % (16 * p) && a == r / p && b == r % p
    ensures v / p == 16 * q + a && 0 <= a < 16
  {
    assert v == (16 * p) * q + r && 0 <= r < 16 * p;
    assert r == p * a + b;
    DivBelow(r, p, 16);
    assert (16 * p) * q == p * (16 * q);
    assert v == p * (16 * q + a) + b;
    DivModUnique(v, p, 16 * q + a, b);
  }

  lemma DivBelow(r: nat, p: nat, c: nat)
    requires p > 0 && r < c * p
    ensures r / p < c
  {
    var a := r / p;
    assert p * a <= r;
    assert p * a < p * c;
  }

  lemma ModSplit16(v: nat, k: nat)
    ensures ((v / 16) % Pow16(k)) * 16 + v % 16 == v % Pow16(k + 1)
  {
    var p := Pow16(k);
    var w := v / 16;
    var a := w / p;
    var b := w % p;
    assert v == 16 * w + v % 16;
    assert w == p * a + b;
    var r := b * 16 + v % 16;
    assert 16 * (p * a) == (16 * p) * a;
    assert v == (16 * p) * a + r;
    assert 0 <= r < 16 * p;
    DivModUnique(v, 16 * p, a, r);
  }

  /** Digit j of the k-digit text is nibble k-1-j: the most significant
      nibble comes first. */
  lemma {:induction false} HexDigitsIndex(v: nat, k: nat, upper: bool, j: nat)
    requires j < k
    ensures HexDigits(v, k, upper)[j] == HexChar(Nibble(v, k - 1 - j), upper)
  {
    if j == k - 1 {
      assert Nibble(v, 0) == v % 16;
    } else {
      HexDigitsIndex(v / 16, k - 1, upper, j);
      DivDiv16(v, k - 2 - j);
    }
  }

  /** Parsing the k digits gives back v modulo 16^k; for k = 8 and a
      32-bit v that is v itself. */
  lemma {:induction false} HexDigitsRoundTrip(v: nat, k: nat, upper: bool)
    ensures ParseHex(HexDigits(v, k, upper)) == Some(v % Pow16(k))
  {
    if k > 0 {
      var s := HexDigits(v, k, upper);
      assert s[..|s| - 1] == HexDigits(v / 16, k - 1, upper);
      HexDigitsRoundTrip(v / 16, k - 1, upper);
      HexCharValue(v % 16, upper);
      ModSplit16(v, k - 1);
    }
  }

  /** Eight digits describe a 32-bit value exactly. */
  lemma Hex8RoundTrip(v: nat, upper: bool)
    requires v < 0x1_0000_0000
    ensures ParseHex(HexDigits(v, 8, upper)) == Some(v)
  {
    HexDigitsRoundTrip(v, 8, upper);
    assert Pow16(8) == 0x1_0000_0000;
  }
}
