/** A text file as fgets hands it out: buffers of at most 1023 characters that
    end with the newline, each seen as a C string. */
module TextFile {
  const BUFFER: nat := 1023

  /** The characters one fgets call takes: up to and including the first newline,
      at most `limit`. */
  function LineEnd(text: string, limit: nat): (n: nat)
    ensures n <= |text| && n <= limit && (|text| > 0 && limit > 0 ==> n > 0)
    decreases limit
  {
    if |text| == 0 || limit == 0 then 0
    else if text[0] == '\n' then 1
    else 1 + LineEnd(text[1..], limit - 1)
  }

  /** What is left of a buffer when it is read as a C string. */
  function CString(buffer: string): (s: string) {
    if |buffer| == 0 || buffer[0] == '\0' then "" else [buffer[0]] + CString(buffer[1..])
  }

  /** The C strings that successive fgets calls leave in the buffer. */
  function Buffers(text: string): (bs: seq<string>)
    decreases |text|
  {
    if |text| == 0 then []
    else
      var n := LineEnd(text, BUFFER);
      [CString(text[..n])] + Buffers(text[n..])
  }

  /** No newline and no NUL. */
  predicate Plain(s: string) {
    forall k | 0 <= k < |s| :: s[k] != '\n' && s[k] != '\0'
  }

  lemma {:induction false} LineEndAt(x: string, rest: string, limit: nat)
    requires (forall k | 0 <= k < |x| :: x[k] != '\n') && |x| < limit
    ensures LineEnd(x + "\n" + rest, limit) == |x| + 1
    decreases |x|
  {
    var text := x + "\n" + rest;
    if |x| > 0 {
      assert text[1..] == x[1..] + "\n" + rest;
      LineEndAt(x[1..], rest, limit - 1);
    }
  }

  lemma {:induction false} CStringWhole(s: string)
    requires forall k | 0 <= k < |s| :: s[k] != '\0'
    ensures CString(s) == s
    decreases |s|
  {
    if |s| > 0 {
      CStringWhole(s[1..]);
    }
  }

  /** A line that fits the buffer arrives whole, newline included. */
  lemma LineArrives(x: string, rest: string)
    requires Plain(x) && |x| < BUFFER
    ensures Buffers(x + "\n" + rest) == [x + "\n"] + Buffers(rest)
  {
    hide LineEnd, CString;
    var line, text := x + "\n", x + "\n" + rest;
    LineEndAt(x, rest, BUFFER);
    assert text[..|line|] == line && text[|line|..] == rest;
    CStringWhole(line);
  }

  /** fgets: the next position in the file. */
  method Fgets(text: string, from: nat) returns (to: nat)
    requires from < |text|
    ensures from < to <= |text| && to - from == LineEnd(text[from..], BUFFER)
  {
    to := from;
    while to < |text| && to - from < BUFFER
      invariant from <= to <= |text| && to - from <= BUFFER
      invariant LineEnd(text[from..], BUFFER) == to - from + LineEnd(text[to..], BUFFER - (to - from))
    {
      assert text[to..][0] == text[to] && text[to..][1..] == text[to + 1..];
      to := to + 1;
      if text[to - 1] == '\n' {
        return;
      }
    }
  }

  lemma {:induction false} LineEndFull(x: string, rest: string, limit: nat)
    requires Plain(x) && |x| >= limit
    ensures LineEnd(x + rest, limit) == limit
    decreases limit
  {
    if limit > 0 {
      assert (x + rest)[1..] == x[1..] + rest;
      LineEndFull(x[1..], rest, limit - 1);
    }
  }

  /** A line arrives whole exactly when it has fewer than 1023 characters; of a longer
      one the first buffer holds the first 1023. */
  lemma WholeLineIff(x: string, rest: string)
    requires Plain(x)
    ensures var text := x + "\n" + rest;
            && |Buffers(text)| > 0 && (Buffers(text)[0] == x + "\n" <==> |x| < 1023)
            && (|x| >= 1023 ==> Buffers(text)[0] == x[..1023])
  {
    hide LineEnd, CString, Buffers;
    var text := x + "\n" + rest;
    FirstBuffer(text);
    if |x| < 1023 {
      LineEndAt(x, rest, 1023);
      assert text[..|x| + 1] == x + "\n";
      CStringWhole(x + "\n");
    } else {
      assert text == x + ("\n" + rest);
      LineEndFull(x, "\n" + rest, 1023);
      assert text[..1023] == x[..1023];
      CStringWhole(x[..1023]);
    }
  }

  lemma FirstBuffer(text: string)
    requires |text| > 0
    ensures |Buffers(text)| > 0 && Buffers(text)[0] == CString(text[..LineEnd(text, BUFFER)])
  {
  }

  lemma {:induction false} CStringCut(x: string, y: string)
    requires forall k | 0 <= k < |x| :: x[k] != '\0'
    ensures CString(x + "\0" + y) == x
    decreases |x|
  {
    var s := x + "\0" + y;
    if |x| > 0 {
      assert s[1..] == x[1..] + "\0" + y;
      CStringCut(x[1..], y);
    }
  }

  /** A NUL hides the rest of its line. */
  lemma NulHides(x: string, y: string, rest: string)
    requires Plain(x) && (forall k | 0 <= k < |y| :: y[k] != '\n') && |x| + |y| < 1022
    ensures var text := x + "\0" + y + "\n" + rest;
            |Buffers(text)| > 0 && Buffers(text)[0] == x
  {
    hide LineEnd, CString, Buffers;
    var line := x + "\0" + y;
    var text := line + "\n" + rest;
    FirstBuffer(text);
    LineEndAt(line, rest, 1023);
    assert text[..|line| + 1] == x + "\0" + (y + "\n");
    CStringCut(x, y + "\n");
  }
}
