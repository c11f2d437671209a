/** NUL-terminated character arrays as the C code keeps them. A model
    string stands for the bytes up to its first NUL, or all of it when
    it holds none (the terminator then lies just past its end). */
module CStrings {

  /** The text before the first NUL: what a C string holds. */
  function CString(t: string): (r: string)
    ensures |r| <= |t| && r == t[..|r|]
    ensures forall i :: 0 <= i < |r| ==> r[i] != '\0'
    ensures |r| < |t| ==> t[|r|] == '\0'
  {
    if |t| == 0 || t[0] == '\0' then [] else [t[0]] + CString(t[1..])
  }

  lemma {:induction false} CStringOfPlain(t: string)
    requires forall i :: 0 <= i < |t| ==> t[i] != '\0'
    ensures CString(t + ['\0']) == t
  {
    if |t| > 0 {
      assert (t + ['\0'])[1..] == t[1..] + ['\0'];
      CStringOfPlain(t[1..]);
      assert [t[0]] + t[1..] == t;
    }
  }

  /** The bounded copy loop of gui_create_button and gui_create_window:
      `for (i = 0; i < limit && text[i] != '\0'; i++) dst[i] = text[i];`
      then `dst[i] = '\0'`. */
  method CopyBounded(text: string, limit: nat) returns (dst: string)
    ensures |dst| >= 1 && dst[|dst| - 1] == '\0'
    ensures dst[..|dst| - 1] == Truncate(CString(text), limit)
    ensures CString(dst) == Truncate(CString(text), limit)
  {
    ghost var c := CString(text);
    dst := [];
    var i := 0;
    while i < limit && i < |text| && text[i] != '\0'
      invariant 0 <= i <= |c| && i <= limit
      invariant dst == c[..i]
    {
      dst := dst + [text[i]];
      i := i + 1;
    }
    assert i == |Truncate(c, limit)|;
    CStringOfPlain(dst);
    dst := dst + ['\0'];
    assert dst[..|dst| - 1] == c[..i];
  }

  /** The first min(|t|, limit) characters. */
  function Truncate(t: string, limit: nat): (r: string)
    ensures |r| == if |t| < limit then |t| else limit
    ensures r == t[..|r|]
  {
    if |t| <= limit then t else t[..limit]
  }
}
