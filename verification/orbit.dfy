/** int_to_str of src/orbit/orbit.c, the desktop shell's number
    formatter. The rest of the shell (buttons, the event loop) is drawing
    through system calls. */
module Orbit {
  import opened Options
  import opened Decimal

  /** int_to_str: "0" for zero; otherwise '-' for a negative number, then
      the digits of the magnitude collected least significant first and
      copied back in reverse; always NUL-terminated. */
  method IntToStr(num: int) returns (buf: string)
    requires IsInt32(num) && num != IntMin
    ensures buf == SignedText(num) + ['\0']
    ensures ParseSigned(buf[..|buf| - 1]) == Some(num)
    ensures forall k :: 0 <= k < |buf| - 1 ==> buf[k] == '-' || IsDigit(buf[k])
    ensures |buf| <= 12
  {
    ghost var t := SignedText(num);
    TerminatedText(num);
    if num == 0 {
      buf := ['0', '\0'];
    } else {
      var prefix: string := [];
      var m := num;
      if num < 0 {
        prefix := ['-'];
        m := -num;
      }
      var temp := CollectDigits(m);
      buf := CopyBackwards(prefix, temp);
      assert buf == t;
      buf := buf + ['\0'];
    }
  }

  /** What a NUL-terminated signed text holds before its terminator. */
  lemma TerminatedText(num: int)
    requires IsInt32(num) && num != IntMin
    ensures var b := SignedText(num) + ['\0'];
      && ParseSigned(b[..|b| - 1]) == Some(num)
      && (forall k :: 0 <= k < |b| - 1 ==> b[k] == '-' || IsDigit(b[k]))
      && |b| <= 12
  {
    var t := SignedText(num);
    SignedTextRoundTrip(num);
    SignedTextLength(num);
    SignedTextChars(num);
    assert (t + ['\0'])[..|t|] == t;
  }

  /** The copy loop of int_to_str: `buf[j++] = temp[--i]` while i > 0. */
  method CopyBackwards(prefix: string, temp: string) returns (buf: string)
    ensures buf == prefix + Reverse(temp)
  {
    buf := prefix;
    ghost var digits := Reverse(temp);
    var i := |temp|;
    while i > 0
      invariant 0 <= i <= |temp|
      invariant buf == prefix + digits[..|temp| - i]
    {
      i := i - 1;
      ReverseIndex(temp, |temp| - 1 - i);
      assert digits[..|temp| - i] == digits[..|temp| - i - 1] + [temp[i]];
      buf := buf + [temp[i]];
    }
    assert digits[..|temp|] == digits;
  }
}
