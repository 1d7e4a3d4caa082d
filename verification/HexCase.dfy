/** The case of hexadecimal digits does not matter to the host: a file in lower,
    upper or mixed case reads as the same image. */
module HexCase {
  import opened Spm
  import opened Chunks
  import opened IntelHex
  import opened TextFile
  import opened HexImage
  import opened HidLoader
  import opened HidResults

  /** The letters a to f raised, everything else as it is. */
  function Raise(c: char): (r: char) {
    match c
    case 'a' => 'A'
    case 'b' => 'B'
    case 'c' => 'C'
    case 'd' => 'D'
    case 'e' => 'E'
    case 'f' => 'F'
    case _ => c
  }

  function RaiseAll(s: string): (r: string)
    ensures |r| == |s| && forall k | 0 <= k < |s| :: r[k] == Raise(s[k])
  {
    seq(|s|, k requires 0 <= k < |s| => Raise(s[k]))
  }

  /** The host takes exactly the hexadecimal digits, at their value. */
  lemma NibbleExact(c: char)
    ensures var v := Nibble(c);
            && (v >= 0 <==> c in "0123456789ABCDEFabcdef")
            && (v >= 0 ==> c == "0123456789ABCDEF"[v] || c == "0123456789abcdef"[v])
  {
  }

  lemma NibbleRaised(c: char)
    ensures Nibble(Raise(c)) == Nibble(c)
    ensures Raise(c) == ':' <==> c == ':'
    ensures Raise(c) == '\n' <==> c == '\n'
    ensures Raise(c) == '\0' <==> c == '\0'
  {
  }

  lemma FieldRaised(line: string, k: nat)
    ensures IsField(RaiseAll(line), k) <==> IsField(line, k)
    ensures IsField(line, k) ==> Field(RaiseAll(line), k) == Field(line, k)
  {
    hide Nibble, Raise;
    if 2 * k + 3 <= |line| {
      NibbleRaised(line[2 * k + 1]);
      NibbleRaised(line[2 * k + 2]);
    }
  }

  lemma FieldsRaised(line: string, from: nat, to: nat)
    requires from <= to
    ensures AreFields(RaiseAll(line), from, to) <==> AreFields(line, from, to)
    ensures AreFields(line, from, to) ==> Fields(RaiseAll(line), from, to) == Fields(line, from, to)
  {
    hide IsField, Field, RaiseAll;
    forall k ensures IsField(RaiseAll(line), k) <==> IsField(line, k)
      ensures IsField(line, k) ==> Field(RaiseAll(line), k) == Field(line, k)
    {
      if k >= 0 {
        FieldRaised(line, k);
      }
    }
  }

  /** One line means the same in either case, under every extended address. */
  lemma ParseRaised(line: string, ext: nat)
    ensures Parse(RaiseAll(line), ext) == Parse(line, ext)
  {
    hide IsField, Field, AreFields, Fields, Sum, Raise;
    var up := RaiseAll(line);
    FieldsRaised(line, 0, 4);
    if |line| > 0 {
      NibbleRaised(line[0]);
    }
    assert HasHeader(up) <==> HasHeader(line);
    if HasHeader(line) {
      HeaderRaised(line);
      var len := Field(line, 0) as nat;
      FieldsRaised(line, 0, 5 + len);
      FieldsRaised(line, 4, 5 + len);
      FieldsRaised(line, 4, 4 + len);
      FieldsRaised(line, 0, 7);
      BaseRaised(line, true);
      BaseRaised(line, false);
      PartFields(line, 4 + len, 5 + len);
      PartFields(up, 4 + len, 5 + len);
      ParsePlain(line, ext);
      ParsePlain(up, ext);
    }
  }

  /** Parse of a line with a header, by its fields. */
  lemma ParsePlain(line: string, ext: nat)
    requires HasHeader(line)
    ensures var len, addr, code := Field(line, 0) as nat, Word(Field(line, 1), Field(line, 2)), Field(line, 3);
            Parse(line, ext)
            == if |line| < 11 + 2 * len || Wrap(addr + ext + len) >= MAX_MEMORY then Bad
               else if code == 1 then EndOfFile
               else if code == 2 && len == 2 then ParseBase(line, false)
               else if code == 4 && len == 2 then ParseBase(line, true)
               else if code != 0 then Ignored
               else if AreFields(line, 4, 5 + len) && AreFields(line, 0, 5 + len) && Sum(Fields(line, 0, 5 + len)) % 256 == 0
               then DataLine(addr, Fields(line, 4, 4 + len))
               else Bad
  {
    hide IsField, Field, Sum, Fields, ParseBase;
    var len := Field(line, 0) as nat;
    assert AreFields(line, 4, 5 + len) <==> AreFields(line, 0, 5 + len);
  }

  lemma PartFields(line: string, to: nat, end: nat)
    requires 4 <= to <= end
    ensures AreFields(line, 4, end) ==> AreFields(line, 4, to)
  {
    hide IsField;
  }

  lemma HeaderRaised(line: string)
    requires HasHeader(line)
    ensures AreFields(line, 0, 4) && AreFields(RaiseAll(line), 0, 4)
    ensures IsField(line, 0) && IsField(line, 1) && IsField(line, 2) && IsField(line, 3)
    ensures forall k | 0 <= k < 4 :: IsField(RaiseAll(line), k) && Field(RaiseAll(line), k) == Field(line, k)
  {
    hide Field;
    forall k | 0 <= k < 4 ensures IsField(RaiseAll(line), k) && Field(RaiseAll(line), k) == Field(line, k) {
      FieldRaised(line, k);
    }
  }

  lemma BaseRaised(line: string, linear: bool)
    requires HasHeader(line) && HasHeader(RaiseAll(line))
    ensures ParseBase(RaiseAll(line), linear) == ParseBase(line, linear)
  {
    hide Sum, Fields, IsField, Field, RaiseAll;
    FieldsRaised(line, 0, 7);
    FieldRaised(line, 4);
    FieldRaised(line, 5);
  }

  // ----- files -----

  lemma {:induction false} LineEndRaised(text: string, limit: nat)
    ensures LineEnd(RaiseAll(text), limit) == LineEnd(text, limit)
    decreases limit
  {
    hide Raise;
    if |text| > 0 && limit > 0 {
      NibbleRaised(text[0]);
      assert RaiseAll(text)[1..] == RaiseAll(text[1..]);
      LineEndRaised(text[1..], limit - 1);
    }
  }

  lemma {:induction false} CStringRaised(s: string)
    ensures CString(RaiseAll(s)) == RaiseAll(CString(s))
    decreases |s|
  {
    hide Raise;
    if |s| > 0 {
      NibbleRaised(s[0]);
      assert RaiseAll(s)[1..] == RaiseAll(s[1..]);
      CStringRaised(s[1..]);
    }
  }

  /** Lines that differ in case only. */
  predicate SameRaised(a: seq<string>, b: seq<string>) {
    |a| == |b| && forall i | 0 <= i < |a| :: a[i] == RaiseAll(b[i])
  }

  lemma {:induction false} BuffersRaised(text: string)
    ensures SameRaised(Buffers(RaiseAll(text)), Buffers(text))
    decreases |text|
  {
    hide LineEnd, CString, RaiseAll;
    if |text| > 0 {
      var n := LineEnd(text, BUFFER);
      LineEndRaised(text, BUFFER);
      RaisedParts(text, n);
      CStringRaised(text[..n]);
      BuffersRaised(text[n..]);
    }
  }

  lemma RaisedParts(text: string, n: nat)
    requires n <= |text|
    ensures RaiseAll(text)[..n] == RaiseAll(text[..n]) && RaiseAll(text)[n..] == RaiseAll(text[n..])
  {
  }

  lemma {:induction false} LinesRaised(s: Image, a: seq<string>, b: seq<string>)
    requires ValidImage(s) && SameRaised(a, b)
    ensures ReadLines(s, a) == ReadLines(s, b)
    decreases |a|
  {
    hide Parse, Store, RaiseAll;
    if |a| > 0 && !s.ended {
      ParseRaised(b[0], s.ext);
      assert |a[0]| == |b[0]|;
      assert SameRaised(a[1..], b[1..]);
      if |b[0]| == 0 {
        LinesRaised(s, a[1..], b[1..]);
      } else if ParseLine(s, b[0]).Some? {
        LinesRaised(ParseLine(s, b[0]).value, a[1..], b[1..]);
      }
    }
  }

  /** A whole file reads the same in either case. */
  lemma TextRaised(text: string)
    ensures ReadText(RaiseAll(text)) == ReadText(text)
  {
    hide ReadLines, Buffers, SameRaised;
    BuffersRaised(text);
    LinesRaised(EmptyImage(), Buffers(RaiseAll(text)), Buffers(text));
  }

  /** End to end, for every text that is the file of an image up to the case of its
      digits: it reads as the image, and reaches the flash of a part under the same
      condition. */
  lemma EitherCaseReaches(text: string, chunks: seq<seq<byte>>, eol: string, codeSize: nat, block: nat)
    requires KnownPart(codeSize, block) && ValidPage(block)
    requires |Flatten(chunks)| <= codeSize && ImageFile(chunks, eol) && RaiseAll(text) == FileText(chunks, eol)
    ensures ReadText(text).Some? && ReadText(text).value == FileImage(chunks, eol)
    ensures (forall flash: seq<byte> | |flash| == codeSize ::
               Received(codeSize, flash, ReadText(text).value, block, codeSize)[..|Flatten(chunks)|] == Flatten(chunks))
            <==> Reaches(Flatten(chunks), codeSize)
  {
    hide ReadText, Received, Flatten, FileText, RaiseAll, ImageFile, Reaches;
    TextRaised(text);
    WrittenIsRead(chunks, eol, 0);
    WrittenReachesFlashIff(chunks, eol, codeSize, block);
  }
}
