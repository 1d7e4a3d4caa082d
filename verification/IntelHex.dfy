/** Writer for the Intel Hexadecimal Object File Format, Rev. A: a reference
    definition of the record text, independent of every reader modelled here. */
module IntelHex {
  import opened Spm
  import opened Chunks

  const DATA_RECORD: byte := 0
  const EOF_RECORD: byte := 1

  function Digit(v: nat): (c: char)
    requires v < 16
  {
    "0123456789ABCDEF"[v]
  }

  function HexByte(b: byte): (s: string)
    ensures |s| == 2
  {
    [Digit((b / 16) as nat), Digit((b % 16) as nat)]
  }

  function HexBytes(bs: seq<byte>): (s: string)
    ensures |s| == 2 * |bs|
    decreases |bs|
  {
    if |bs| == 0 then "" else HexByte(bs[0]) + HexBytes(bs[1..])
  }

  function Sum(bs: seq<byte>): (n: nat)
    decreases |bs|
  {
    if |bs| == 0 then 0 else bs[0] as nat + Sum(bs[1..])
  }

  lemma {:induction false} SumAppend(a: seq<byte>, b: seq<byte>)
    ensures Sum(a + b) == Sum(a) + Sum(b)
    decreases |a|
  {
    if |a| == 0 {
      assert a + b == b;
    } else {
      SumAppend(a[1..], b);
      assert (a + b)[1..] == a[1..] + b;
    }
  }

  lemma {:induction false} HexBytesAppend(a: seq<byte>, b: seq<byte>)
    ensures HexBytes(a + b) == HexBytes(a) + HexBytes(b)
    decreases |a|
  {
    hide HexByte;
    if |a| == 0 {
      assert a + b == b;
    } else {
      HexBytesAppend(a[1..], b);
      assert (a + b)[1..] == a[1..] + b && (a + b)[0] == a[0];
    }
  }

  /** Two's complement of the byte sum. */
  function Complement(n: nat): (c: byte)
    ensures (n + c as nat) % 256 == 0
  {
    ((256 - n % 256) % 256) as byte
  }

  /** Byte count, load offset and record type of a record. */
  function Header(len: nat, address: nat, kind: byte): (h: seq<byte>)
    requires len < 256 && address < 0x10000
    ensures |h| == 4
  {
    [len as byte, (address / 256) as byte, (address % 256) as byte, kind]
  }

  /** ":" followed by header, data and checksum, two digits a byte. */
  function Record(address: nat, kind: byte, data: seq<byte>): (s: string)
    requires |data| < 256 && address < 0x10000
  {
    var body := Header(|data|, address, kind) + data;
    ":" + HexBytes(body + [Complement(Sum(body))])
  }

  /** The chunks as consecutive data records from address n on. */
  function DataRecords(n: nat, chunks: seq<seq<byte>>): (text: string)
    requires n + |Flatten(chunks)| <= 0x10000
    requires forall c | c in chunks :: 0 < |c| < 256
    decreases |chunks|
  {
    if |chunks| == 0 then "" else Record(n, DATA_RECORD, chunks[0]) + DataRecords(n + |chunks[0]|, chunks[1..])
  }

  /** A file: the data records, then the end-of-file record. */
  function File(n: nat, chunks: seq<seq<byte>>): (text: string)
    requires n + |Flatten(chunks)| <= 0x10000
    requires forall c | c in chunks :: 0 < |c| < 256
  {
    DataRecords(n, chunks) + Record(0, EOF_RECORD, [])
  }
}
