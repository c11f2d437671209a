/** Decimal text of machine integers, shared by the two integer printers
    of the kernel: vga_putint (src/drivers/vga.c) and int_to_str
    (src/orbit/orbit.c). Both emit an optional '-' followed by the digits
    of the magnitude, most significant first, with no leading zero. */
module Decimal {
  import opened Options

  const IntMin: int := -0x8000_0000
  const IntMax: int := 0x7FFF_FFFF

  /** A value of the C type int (32-bit two's complement). */
  predicate IsInt32(x: int) {
    IntMin <= x <= IntMax
  }

  predicate IsDigit(c: char) {
    '0' <= c <= '9'
  }

  predicate AllDigits(s: string) {
    forall i :: 0 <= i < |s| ==> IsDigit(s[i])
  }

  function DigitValue(c: char): nat
    requires IsDigit(c)
  {
    (c as int) - ('0' as int)
  }

  function DigitChar(d: nat): (c: char)
    requires d < 10
    ensures IsDigit(c) && DigitValue(c) == d
  {
    (('0' as int) + d) as char
  }

  function Pow10(k: nat): (p: nat)
    ensures p >= 1
  {
    if k == 0 then 1 else 10 * Pow10(k - 1)
  }

  /** Digits of a positive number, most significant first. */
  function Digits(n: nat): (s: string)
    requires n > 0
    ensures |s| > 0 && s[0] != '0'
    ensures AllDigits(s)
    decreases n
  {
    if n < 10 then [DigitChar(n)] else Digits(n / 10) + [DigitChar(n % 10)]
  }

  /** The number a digit string denotes (the inverse of Digits). */
  function Value(s: string): nat
    requires AllDigits(s)
  {
    if |s| == 0 then 0 else Value(s[..|s| - 1]) * 10 + DigitValue(s[|s| - 1])
  }

  /** The text both kernel printers produce for a C int. */
  function SignedText(num: int): string
  {
    if num == 0 then "0"
    else if num < 0 then "-" + Digits(-num)
    else Digits(num)
  }

  /** Reads an optional '-' followed by one or more digits. */
  function ParseSigned(s: string): Option<int>
  {
    if |s| > 0 && s[0] == '-' then
      (if |s| > 1 && AllDigits(s[1..]) then Some(-(Value(s[1..]) as int)) else None)
    else if |s| > 0 && AllDigits(s) then Some(Value(s))
    else None
  }

  lemma {:induction false} ValueOfDigits(n: nat)
    requires n > 0
    ensures Value(Digits(n)) == n
    decreases n
  {
    if n >= 10 {
      var s := Digits(n);
      assert s[..|s| - 1] == Digits(n / 10);
      ValueOfDigits(n / 10);
    }
  }

  lemma {:induction false} DigitsLength(n: nat, k: nat)
    requires 0 < n < Pow10(k)
    ensures |Digits(n)| <= k
    decreases n
  {
    if n >= 10 {
      assert k > 0;
      DigitsLength(n / 10, k - 1);
    }
  }

  /** Parsing the printed text gives back the number. */
  lemma SignedTextRoundTrip(num: int)
    ensures ParseSigned(SignedText(num)) == Some(num)
  {
    if num < 0 {
      NegativeRoundTrip(num);
    } else if num > 0 {
      PositiveRoundTrip(num);
    } else {
      assert "0"[..0] == "";
    }
  }

  lemma NegativeRoundTrip(num: int)
    requires num < 0
    ensures ParseSigned(SignedText(num)) == Some(num)
  {
    var s := SignedText(num);
    assert s[0] == '-' && s[1..] == Digits(-num);
    ValueOfDigits(-num);
  }

  lemma PositiveRoundTrip(num: int)
    requires num > 0
    ensures ParseSigned(SignedText(num)) == Some(num)
  {
    var s := SignedText(num);
    assert s == Digits(num);
    assert IsDigit(s[0]);
    ValueOfDigits(num);
    assert Value(s) == num;
  }

  /** The text of a C int other than INT_MIN takes at most eleven
      characters: a sign and ten digits. */
  lemma SignedTextLength(num: int)
    requires IsInt32(num) && num != IntMin
    ensures |SignedText(num)| <= 11
    ensures num != 0 ==> |SignedText(num)| == (if num < 0 then 1 else 0) + |Digits(if num < 0 then -num else num)|
  {
    assert Pow10(10) == 10_000_000_000;
    if num < 0 {
      DigitsLength(-num, 10);
    } else if num > 0 {
      DigitsLength(num, 10);
    }
  }

  /** Signed text is a '-' or digits throughout. */
  lemma SignedTextChars(num: int)
    ensures forall k :: 0 <= k < |SignedText(num)| ==> SignedText(num)[k] == '-' || IsDigit(SignedText(num)[k])
  {
    if num < 0 {
      var d := Digits(-num);
      assert forall k :: 1 <= k < |SignedText(num)| ==> SignedText(num)[k] == d[k - 1];
    }
  }

  function Reverse(t: string): (r: string)
    ensures |r| == |t|
  {
    if |t| == 0 then [] else [t[|t| - 1]] + Reverse(t[..|t| - 1])
  }

  lemma ReverseSnoc(t: string, c: char)
    ensures Reverse(t + [c]) == [c] + Reverse(t)
  {
    assert (t + [c])[..|t|] == t;
  }

  lemma {:induction false} ReverseIndex(t: string, j: nat)
    requires j < |t|
    ensures Reverse(t)[j] == t[|t| - 1 - j]
  {
    if j > 0 {
      ReverseIndex(t[..|t| - 1], j - 1);
    }
  }

  /** The digit loop both printers share: `'0' + n % 10` into a buffer
      while n > 0, then n /= 10, so the buffer holds the digits least
      significant first. */
  method CollectDigits(m: nat) returns (buffer: string)
    requires m > 0
    ensures Reverse(buffer) == Digits(m)
  {
    var n := m;
    buffer := [];
    while n > 0
      invariant 0 <= n <= m
      invariant n > 0 ==> Digits(m) == Digits(n) + Reverse(buffer)
      invariant n == 0 ==> Digits(m) == Reverse(buffer)
    {
      var d := DigitChar(n % 10);
      ReverseSnoc(buffer, d);
      if n >= 10 {
        assert Digits(n) == Digits(n / 10) + [d];
      }
      buffer := buffer + [d];
      n := n / 10;
    }
  }
}
