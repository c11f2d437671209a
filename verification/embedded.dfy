/** tools/bmp_to_c.py: the C array-literal emitter (bmp_to_c_array) and
    the header document that main assembles from the icons that exist. */
module EmbeddedArray {
  import opened Options
  import opened Bytes
  import Hex
  import Decimal

  /** One byte as "0x" and two upper-case hexadecimal digits. */
  function Token(b: Byte): (t: string)
    ensures |t| == 4
  {
    "0x" + Hex.HexDigits(b, 2, true)
  }

  /** What follows token i when it is not the last: a comma, then a line
      break and indentation after every twelfth token, else a space. */
  function Separator(i: nat): string
  {
    if (i + 1) % 12 == 0 then ",\n    " else ", "
  }

  /** The tokens of data[i..] with their separators. */
  function BodyFrom(data: seq<Byte>, i: nat): string
    requires i <= |data|
    decreases |data| - i
  {
    if i == |data| then ""
    else Token(data[i]) + ((if i < |data| - 1 then Separator(i) else "") + BodyFrom(data, i + 1))
  }

  function Body(data: seq<Byte>): string
  {
    BodyFrom(data, 0)
  }

  function HeaderLine(name: string): string
  {
    "// " + name + " - Embedded BMP data\n"
  }

  function Opening(name: string): string
  {
    "const uint8_t " + name + "["
  }

  const AfterSize := "] = {\n    "
  const Closing := "\n};\n\n"

  /** bmp_to_c_array(file, name) for a file holding data. */
  function Declaration(data: seq<Byte>, name: string): string
  {
    (HeaderLine(name) + Opening(name)) + (Decimal.SignedText(|data|) + (AfterSize + Body(data) + Closing))
  }

  // ---------------------------------------------------------------------
  // Reading a declaration back

  /** Reads the tokens of an array body back into bytes. */
  function ParseBody(s: string): Option<seq<Byte>>
    decreases |s|
  {
    if |s| == 0 then Some([])
    else if |s| < 4 || s[..2] != "0x" then None
    else
      match Hex.ParseHex(s[2..4])
      case None => None
      case Some(v) =>
        if v >= 256 then None
        else
          var rest := s[4..];
          if |rest| == 0 then Some([v as Byte])
          else if |rest| >= 2 && rest[..2] == ", " then
            (match ParseBody(rest[2..])
             case Some(more) => Some([v as Byte] + more)
             case None => None)
          else if |rest| >= 6 && rest[..6] == ",\n    " then
            (match ParseBody(rest[6..])
             case Some(more) => Some([v as Byte] + more)
             case None => None)
          else None
  }

  /** Position of the first occurrence of c in s, or |s|. */
  function Find(s: string, c: char): (k: nat)
    ensures k <= |s|
    ensures forall j :: 0 <= j < k ==> s[j] != c
    ensures k < |s| ==> s[k] == c
  {
    if |s| == 0 then 0 else if s[0] == c then 0 else 1 + Find(s[1..], c)
  }

  lemma {:induction false} FindFirst(s: string, c: char, k: nat)
    requires k < |s| && s[k] == c
    requires forall j :: 0 <= j < k ==> s[j] != c
    ensures Find(s, c) == k
    decreases k
  {
    if k > 0 {
      FindFirst(s[1..], c, k - 1);
    }
  }

  /** Reads what follows the opening bracket: the declared length up to
      the closing bracket, then the body between the brace lines. */
  function ParseSizedBody(t: string): Option<(int, seq<Byte>)>
  {
    var k := Find(t, ']');
    var rest := t[k..];
    if |rest| < |AfterSize| + |Closing| || rest[..|AfterSize|] != AfterSize
       || rest[|rest| - |Closing|..] != Closing then None
    else
      match (Decimal.ParseSigned(t[..k]), ParseBody(rest[|AfterSize|..|rest| - |Closing|]))
      case (Some(size), Some(bytes)) => Some((size, bytes))
      case _ => None
  }

  /** Reads a declaration of the given array: its header line, the
      declared length and the bytes of its body. */
  function ParseDeclaration(text: string, name: string): Option<(int, seq<Byte>)>
  {
    var pre := HeaderLine(name) + Opening(name);
    if |text| < |pre| || text[..|pre|] != pre then None
    else ParseSizedBody(text[|pre|..])
  }

  lemma TokenDigits(b: Byte)
    ensures Token(b)[..2] == "0x"
    ensures Token(b)[2..4] == Hex.HexDigits(b, 2, true)
    ensures Hex.ParseHex(Token(b)[2..4]) == Some(b as nat)
  {
    var d := Hex.HexDigits(b, 2, true);
    Halves("0x", d);
    assert Token(b)[2..4] == d;
    Hex.HexDigitsRoundTrip(b, 2, true);
    assert Hex.Pow16(2) == 256 by { assert Hex.Pow16(1) == 16; }
    Hex.DivModUnique(b as nat, 256, 0, b as nat);
  }

  /** Splitting a concatenation at the end of its first part. */
  lemma Halves(a: string, b: string)
    ensures (a + b)[..|a|] == a && (a + b)[|a|..] == b
  {
  }

  lemma ParseBodyStep(s: string, b: Byte, sep: string, tail: string, more: seq<Byte>)
    requires s == Token(b) + (sep + tail)
    requires sep == "" || sep == ", " || sep == ",\n    "
    requires sep == "" ==> tail == ""
    requires ParseBody(tail) == Some(more)
    ensures ParseBody(s) == Some([b] + more)
  {
    TokenDigits(b);
    Halves(Token(b), sep + tail);
    assert s[..2] == "0x" && s[2..4] == Token(b)[2..4];
    var rest := s[4..];
    Halves(sep, tail);
    if sep == "" {
      assert rest == "";
      assert more == [];
      assert [b] + more == [b];
    } else if sep == ", " {
      assert rest[..2] == ", " && rest[2..] == tail;
    } else {
      assert rest[1] == '\n';
      assert rest[..2] != ", ";
      assert rest[..6] == ",\n    " && rest[6..] == tail;
    }
  }

  /** The body parses back to exactly the bytes it was made from. */
  lemma {:induction false} BodyRoundTrip(data: seq<Byte>, i: nat)
    requires i <= |data|
    ensures ParseBody(BodyFrom(data, i)) == Some(data[i..])
    decreases |data| - i
  {
    if i < |data| {
      var sep := if i < |data| - 1 then Separator(i) else "";
      BodyRoundTrip(data, i + 1);
      assert data[i..] == [data[i]] + data[i + 1..];
      assert BodyFrom(data, i) == Token(data[i]) + (sep + BodyFrom(data, i + 1));
      if sep == "" {
        assert BodyFrom(data, i + 1) == "";
      }
      ParseBodyStep(BodyFrom(data, i), data[i], sep, BodyFrom(data, i + 1), data[i + 1..]);
    } else {
      assert BodyFrom(data, i) == "" && data[i..] == [];
    }
  }

  lemma SizedBodyParts(size: string, body: string)
    requires forall j :: 0 <= j < |size| ==> size[j] != ']'
    ensures ParseSizedBody(size + (AfterSize + body + Closing))
      == match (Decimal.ParseSigned(size), ParseBody(body))
         case (Some(n), Some(bytes)) => Some((n, bytes))
         case _ => None
  {
    var rest := AfterSize + body + Closing;
    var t := size + rest;
    assert forall j :: 0 <= j < |size| ==> t[j] == size[j];
    FindFirst(t, ']', |size|);
    assert t[|size|..] == rest;
    assert t[..|size|] == size;
    assert rest[..|AfterSize|] == AfterSize;
    assert rest[|rest| - |Closing|..] == Closing;
    assert rest[|AfterSize|..|rest| - |Closing|] == body;
  }

  lemma SizedBodyRoundTrip(data: seq<Byte>)
    ensures ParseSizedBody(Decimal.SignedText(|data|) + (AfterSize + Body(data) + Closing)) == Some((|data|, data))
  {
    var size := Decimal.SignedText(|data|);
    assert Decimal.AllDigits(size) by {
      if |data| > 0 {
        assert size == Decimal.Digits(|data|);
      }
    }
    SizedBodyParts(size, Body(data));
    Decimal.SignedTextRoundTrip(|data|);
    BodyRoundTrip(data, 0);
  }

  /** The declaration reads back as the declared length |data| and the
      bytes themselves, in order. */
  lemma DeclarationRoundTrip(data: seq<Byte>, name: string)
    ensures ParseDeclaration(Declaration(data, name), name) == Some((|data|, data))
  {
    var pre := HeaderLine(name) + Opening(name);
    var t := Decimal.SignedText(|data|) + (AfterSize + Body(data) + Closing);
    var text := Declaration(data, name);
    Halves(pre, t);
    SizedBodyRoundTrip(data);
  }

  // ---------------------------------------------------------------------
  // Line breaks

  function CountChar(s: string, c: char): nat
  {
    if |s| == 0 then 0 else (if s[0] == c then 1 else 0) + CountChar(s[1..], c)
  }

  lemma {:induction false} CountCharAppend(a: string, b: string, c: char)
    ensures CountChar(a + b, c) == CountChar(a, c) + CountChar(b, c)
    decreases |a|
  {
    if |a| == 0 {
      assert a + b == b;
    } else {
      assert (a + b)[1..] == a[1..] + b;
      CountCharAppend(a[1..], b, c);
    }
  }

  lemma {:induction false} CountAbsent(s: string, c: char)
    requires forall j :: 0 <= j < |s| ==> s[j] != c
    ensures CountChar(s, c) == 0
    decreases |s|
  {
    if |s| > 0 {
      CountAbsent(s[1..], c);
    }
  }

  lemma TokenHasNoBreak(b: Byte)
    ensures CountChar(Token(b), '\n') == 0
  {
    var t := Token(b);
    Hex.HexDigitsIndex(b, 2, true, 0);
    Hex.HexDigitsIndex(b, 2, true, 1);
    assert t == ['0', 'x', t[2], t[3]];
    CountAbsent(t, '\n');
  }

  lemma SeparatorBreaks(i: nat)
    ensures CountChar(Separator(i), '\n') == if (i + 1) % 12 == 0 then 1 else 0
  {
    if (i + 1) % 12 == 0 {
      assert Separator(i) == [','] + "\n    ";
      CountCharAppend([','], "\n    ", '\n');
      assert "\n    "[1..] == "    ";
      CountAbsent("    ", '\n');
    } else {
      CountAbsent(", ", '\n');
    }
  }

  lemma {:induction false} BodyFromBreaks(data: seq<Byte>, i: nat)
    requires i < |data|
    ensures CountChar(BodyFrom(data, i), '\n') == (|data| - 1) / 12 - i / 12
    decreases |data| - i
  {
    var sep := if i < |data| - 1 then Separator(i) else "";
    var tail := BodyFrom(data, i + 1);
    CountCharAppend(sep, tail, '\n');
    CountCharAppend(Token(data[i]), sep + tail, '\n');
    TokenHasNoBreak(data[i]);
    if i < |data| - 1 {
      BodyFromBreaks(data, i + 1);
      SeparatorBreaks(i);
    }
  }

  /** The body of N > 0 bytes holds floor((N-1)/12) line breaks: one after
      each twelfth token that is not the last. The empty body holds none. */
  lemma BodyBreaks(data: seq<Byte>)
    ensures CountChar(Body(data), '\n') == if |data| == 0 then 0 else (|data| - 1) / 12
  {
    if |data| > 0 {
      BodyFromBreaks(data, 0);
    }
  }

  // ---------------------------------------------------------------------
  // The header document

  const Preamble := "#ifndef EMBEDDED_ICONS_H\n#define EMBEDDED_ICONS_H\n\n#include <stdint.h>\n\n/**\n * Embedded BMP icon data for MaahiOS desktop\n * Generated from tools/*.bmp files\n */\n\n"
  const Postamble := "#endif // EMBEDDED_ICONS_H\n"

  /** One entry of the name mapping: input file name and array name. */
  datatype Entry = Entry(fileName: string, arrayName: string)

  /** The mapping main converts, in its iteration order. */
  const IconEntries: seq<Entry> := [
    Entry("file_icon.bmp", "icon_file_bmp"),
    Entry("process_icon.bmp", "icon_process_bmp"),
    Entry("disk_icon.bmp", "icon_disk_bmp"),
    Entry("notebook_icon.bmp", "icon_notebook_bmp")]

  /** The entries whose file exists; files maps each existing file to its
      contents. */
  function Present(entries: seq<Entry>, files: map<string, seq<Byte>>): (r: seq<Entry>)
    ensures |r| <= |entries|
    ensures forall k :: 0 <= k < |r| ==> r[k].fileName in files
  {
    if |entries| == 0 then []
    else
      var rest := Present(entries[..|entries| - 1], files);
      var e := entries[|entries| - 1];
      if e.fileName in files then rest + [e] else rest
  }

  /** An entry is kept exactly when it is in the mapping and its file
      exists. */
  lemma {:induction false} PresentExactly(entries: seq<Entry>, files: map<string, seq<Byte>>, e: Entry)
    ensures e in Present(entries, files) <==> e in entries && e.fileName in files
    decreases |entries|
  {
    if |entries| > 0 {
      var init := entries[..|entries| - 1];
      PresentExactly(init, files, e);
      assert entries == init + [entries[|entries| - 1]];
    }
  }

  /** The declarations main appends, one per existing file, in order. */
  function Blocks(entries: seq<Entry>, files: map<string, seq<Byte>>): (r: seq<string>)
    ensures |r| == |Present(entries, files)|
    ensures forall k :: 0 <= k < |r| ==>
      var e := Present(entries, files)[k];
      r[k] == Declaration(files[e.fileName], e.arrayName)
  {
    var p := Present(entries, files);
    seq(|p|, k requires 0 <= k < |p| => Declaration(files[p[k].fileName], p[k].arrayName))
  }

  function Concat(ss: seq<string>): string
  {
    if |ss| == 0 then "" else Concat(ss[..|ss| - 1]) + ss[|ss| - 1]
  }

  /** The text main writes to embedded_icons.h. */
  function Document(entries: seq<Entry>, files: map<string, seq<Byte>>): string
  {
    Preamble + Concat(Blocks(entries, files)) + Postamble
  }

  /** A missing file only removes its own declaration: the run neither
      stops nor loses the other entries. */
  lemma {:induction false} MissingFileSkipped(entries: seq<Entry>, files: map<string, seq<Byte>>, j: nat)
    requires j < |entries| && entries[j].fileName !in files
    ensures Present(entries, files) == Present(entries[..j] + entries[j + 1..], files)
    decreases |entries|
  {
    var n := |entries|;
    var shorter := entries[..j] + entries[j + 1..];
    if j == n - 1 {
      assert shorter == entries[..n - 1];
    } else {
      assert shorter[..|shorter| - 1] == entries[..n - 1][..j] + entries[..n - 1][j + 1..];
      assert shorter[|shorter| - 1] == entries[n - 1];
      MissingFileSkipped(entries[..n - 1], files, j);
    }
  }

  /** With every file present, one declaration per entry, in mapping order. */
  lemma {:induction false} AllPresent(entries: seq<Entry>, files: map<string, seq<Byte>>)
    requires forall k :: 0 <= k < |entries| ==> entries[k].fileName in files
    ensures Present(entries, files) == entries
  {
    if |entries| > 0 {
      AllPresent(entries[..|entries| - 1], files);
    }
  }

  /** The converter's scenario: of the four icons one file is missing, and
      the document holds exactly the three other declarations, in order. */
  lemma OneOfFourMissing(files: map<string, seq<Byte>>, j: nat)
    requires j < 4
    requires forall k :: 0 <= k < 4 ==> (IconEntries[k].fileName in files <==> k != j)
    ensures |Blocks(IconEntries, files)| == 3
    ensures Present(IconEntries, files) == IconEntries[..j] + IconEntries[j + 1..]
  {
    MissingFileSkipped(IconEntries, files, j);
    var rest := IconEntries[..j] + IconEntries[j + 1..];
    assert forall k :: 0 <= k < |rest| ==> rest[k].fileName in files by {
      forall k | 0 <= k < |rest|
        ensures rest[k].fileName in files
      {
        if k < j {
          assert rest[k] == IconEntries[k];
        } else {
          assert rest[k] == IconEntries[k + 1];
        }
      }
    }
    AllPresent(rest, files);
  }
}
