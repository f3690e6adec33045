/** hexDump: a debugging aid that renders a byte buffer as lines of
    lowercase hexadecimal, bytesPerLine bytes per line, each line labelled
    with its offset. The callback that receives each line is modelled by
    the sequence of lines the method returns. */
module HexDump {
  import opened ByteTypes
  import opened Numerals

  function Min(a: int, b: int): int {
    if a < b then a else b
  }

  /** One byte as the source renders it: toString(16), with a '0' put in
      front of a value below 16. */
  function ByteHex(b: byte): string {
    if b < 16 then "0" + HexString(b as nat) else HexString(b as nat)
  }

  /** The byte's high and low hex digit. */
  function HexPair(b: byte): (r: string)
    ensures |r| == 2
  {
    [DigitChar(b as nat / 16), DigitChar(b as nat % 16)]
  }

  /** The hex of data[x..end], one pair of digits per byte. */
  function HexRange(data: seq<byte>, x: nat, end: nat): (r: string)
    requires x <= end <= |data|
    ensures |r| == 2 * (end - x)
    decreases end
  {
    if end == x then "" else HexRange(data, x, end - 1) + HexPair(data[end - 1])
  }

  /** toString(16) of a byte of 16 or more is already two digits, so
      every byte comes out as its high and its low hex digit. */
  lemma ByteHexDigits(b: byte)
    ensures ByteHex(b) == HexPair(b)
  {
    if b >= 16 {
      assert Render(b as nat / 16, 16) == [DigitChar(b as nat / 16)];
    }
  }

  /** k copies of c. */
  function Repeat(c: char, k: nat): (r: string)
    ensures |r| == k && forall i :: 0 <= i < k ==> r[i] == c
  {
    if k == 0 then "" else [c] + Repeat(c, k - 1)
  }

  /** padStart: s with c in front until it is n long. */
  function PadStart(s: string, n: nat, c: char): string {
    if |s| >= n then s else Repeat(c, n - |s|) + s
  }

  /** The text passed to the callback for the line at offset x. */
  function DumpLine(linePrefix: string, x: nat, hexPart: string): string {
    linePrefix + " 0x" + PadStart(HexString(x), 4, '0') + " - " + hexPart
  }

  /** The number of lines: one per bytesPerLine bytes or part of them,
      none for a length of zero or less. */
  function LineCount(bytesPerLine: int, length: int): (n: nat)
    requires bytesPerLine > 0 || length <= 0
    ensures length <= 0 <==> n == 0
    decreases length
  {
    if length <= 0 then 0 else 1 + LineCount(bytesPerLine, length - bytesPerLine)
  }

  /** The offsets of the lines from x on: x, x + bytesPerLine, ... while below length. */
  function Offsets(bytesPerLine: int, length: int, x: nat): (r: seq<nat>)
    requires bytesPerLine > 0
    ensures |r| == LineCount(bytesPerLine, length - x)
    ensures forall k :: 0 <= k < |r| ==> x <= r[k] < length
    decreases length - x
  {
    if x >= length then [] else [x] + Offsets(bytesPerLine, length, x + bytesPerLine)
  }

  /** The line at offset x: its bytes run to the next offset or to length. */
  function LineAt(linePrefix: string, bytesPerLine: int, data: seq<byte>, length: int, x: nat): string
    requires bytesPerLine > 0 && x < length <= |data|
  {
    DumpLine(linePrefix, x, HexRange(data, x, Min(x + bytesPerLine, length)))
  }

  /** The lines from offset x on, one at each offset of Offsets. */
  function DumpFrom(linePrefix: string, bytesPerLine: int, data: seq<byte>, length: int, x: nat): seq<string>
    requires bytesPerLine > 0 && length <= |data|
  {
    var offsets := Offsets(bytesPerLine, length, x);
    seq(|offsets|, k requires 0 <= k < |offsets| => LineAt(linePrefix, bytesPerLine, data, length, offsets[k]))
  }

  /** The inner loop of hexDump: the hex of data[x..end], built a byte at a time. */
  method HexPart(data: seq<byte>, x: nat, end: nat) returns (hexPart: string)
    requires x <= end <= |data|
    ensures hexPart == HexRange(data, x, end)
  {
    hexPart := "";
    var lx := x;
    while lx < end
      invariant x <= lx <= end
      invariant hexPart == HexRange(data, x, lx)
    {
      ByteHexDigits(data[lx]);
      hexPart := hexPart + ByteHex(data[lx]);
      lx := lx + 1;
    }
  }

  /** hexDump: the lines passed to the callback, in order. The result
      never depends on isEbcdic. */
  method Dump(linePrefix: string, bytesPerLine: int, data: seq<byte>, length: int, isEbcdic: bool)
    returns (lines: seq<string>)
    requires bytesPerLine > 0 || length <= 0
    requires length <= |data|
    ensures length <= 0 ==> lines == []
    ensures length > 0 ==> lines == DumpFrom(linePrefix, bytesPerLine, data, length, 0)
  {
    lines := [];
    if length <= 0 {
      return;
    }
    var x := 0;
    ghost var done: seq<nat> := [];
    while x < length
      invariant Offsets(bytesPerLine, length, 0) == done + Offsets(bytesPerLine, length, x)
      invariant |lines| == |done|
      invariant forall k :: 0 <= k < |done| ==> done[k] < length && lines[k] == LineAt(linePrefix, bytesPerLine, data, length, done[k])
    {
      var hexPart := HexPart(data, x, Min(x + bytesPerLine, length));
      OffsetsNext(bytesPerLine, length, done, x);
      lines := lines + [DumpLine(linePrefix, x, hexPart)];
      done := done + [x];
      x := x + bytesPerLine;
    }
    assert done == Offsets(bytesPerLine, length, 0);
  }

  /** Moving the line at x from the offsets still to come to those done. */
  lemma OffsetsNext(bytesPerLine: int, length: int, done: seq<nat>, x: nat)
    requires bytesPerLine > 0 && x < length
    requires Offsets(bytesPerLine, length, 0) == done + Offsets(bytesPerLine, length, x)
    ensures Offsets(bytesPerLine, length, 0) == (done + [x]) + Offsets(bytesPerLine, length, x + bytesPerLine)
  {
    var rest := Offsets(bytesPerLine, length, x + bytesPerLine);
    assert Offsets(bytesPerLine, length, x) == [x] + rest;
    assert done + ([x] + rest) == (done + [x]) + rest;
  }

  // ---------------------------------------------------------------------
  // Properties

  /** Every byte is exactly two lowercase hex digits that read back as the byte. */
  lemma ByteHexRoundTrip(b: byte)
    ensures |ByteHex(b)| == 2
    ensures forall i :: 0 <= i < 2 ==> IsHexDigit(ByteHex(b)[i]) && !('A' <= ByteHex(b)[i] <= 'Z')
    ensures DigitsValue(ByteHex(b), 16) == b as nat
  {
    ByteHexDigits(b);
    var h := HexPair(b);
    assert h[..1] == [DigitChar(b as nat / 16)];
    assert DigitsValue(h[..1][..0], 16) == 0;
  }

  /** The hex of data[x..z] is the hex of data[x..y] followed by that of data[y..z]. */
  lemma {:induction false} HexRangeSplit(data: seq<byte>, x: nat, y: nat, z: nat)
    requires x <= y <= z <= |data|
    ensures HexRange(data, x, z) == HexRange(data, x, y) + HexRange(data, y, z)
    decreases z
  {
    if z > y {
      HexRangeSplit(data, x, y, z - 1);
    }
  }

  /** Byte i is shown at characters 2(i - x) and 2(i - x) + 1. */
  lemma {:induction false} HexRangeAt(data: seq<byte>, x: nat, end: nat, i: nat)
    requires x <= i < end <= |data|
    ensures HexRange(data, x, end)[2 * (i - x)] == ByteHex(data[i])[0]
    ensures HexRange(data, x, end)[2 * (i - x) + 1] == ByteHex(data[i])[1]
    decreases end
  {
    ByteHexDigits(data[i]);
    var h := HexRange(data, x, end - 1);
    assert HexRange(data, x, end) == h + HexPair(data[end - 1]);
    if i < end - 1 {
      HexRangeAt(data, x, end - 1, i);
    }
  }

  /** Leading '0's do not change the value of a digit string. */
  lemma {:induction false} LeadingZeroValue(s: string, base: nat)
    requires forall i :: 0 <= i < |s| ==> IsHexDigit(s[i])
    ensures DigitsValue("0" + s, base) == DigitsValue(s, base)
    decreases |s|
  {
    if s != [] {
      assert ("0" + s)[..|"0" + s| - 1] == "0" + s[..|s| - 1];
      LeadingZeroValue(s[..|s| - 1], base);
    }
  }

  lemma {:induction false} ZerosValue(k: nat, s: string)
    requires forall i :: 0 <= i < |s| ==> IsHexDigit(s[i])
    ensures DigitsValue(Repeat('0', k) + s, 16) == DigitsValue(s, 16)
    decreases k
  {
    if k > 0 {
      var t := Repeat('0', k - 1) + s;
      ZerosValue(k - 1, s);
      assert Repeat('0', k) + s == "0" + t;
      LeadingZeroValue(t, 16);
    } else {
      assert Repeat('0', 0) + s == s;
    }
  }

  /** The offset field is at least four lowercase hex digits and reads back as the offset. */
  lemma OffsetField(x: nat)
    ensures |PadStart(HexString(x), 4, '0')| >= 4
    ensures x < 0x10000 ==> |PadStart(HexString(x), 4, '0')| == 4
    ensures DigitsValue(PadStart(HexString(x), 4, '0'), 16) == x
  {
    RenderRoundTrip(x, 16);
    if |HexString(x)| < 4 {
      ZerosValue(4 - |HexString(x)|, HexString(x));
    }
    if x < 0x10000 {
      assert Pow16(4) == 0x10000;
      RenderBound(x, 4);
    }
  }

  function Pow16(k: nat): (p: nat)
    ensures p >= 1
  {
    if k == 0 then 1 else 16 * Pow16(k - 1)
  }

  /** A number below 16^k has at most k hex digits. */
  lemma {:induction false} RenderBound(x: nat, k: nat)
    requires k >= 1 && x < Pow16(k)
    ensures |Render(x, 16)| <= k
    decreases k
  {
    if x >= 16 {
      assert Pow16(1) == 16;
      assert x / 16 < Pow16(k - 1);
      RenderBound(x / 16, k - 1);
    }
  }

  /** The line count is ceil(length / bytesPerLine): the fewest lines that hold length bytes. */
  lemma {:induction false} LineCountCeil(bytesPerLine: int, length: int)
    requires bytesPerLine > 0 && length > 0
    ensures LineCount(bytesPerLine, length) == (length + bytesPerLine - 1) / bytesPerLine
    ensures (LineCount(bytesPerLine, length) - 1) * bytesPerLine < length <= LineCount(bytesPerLine, length) * bytesPerLine
    decreases length
  {
    var n := LineCount(bytesPerLine, length);
    var rest := length - bytesPerLine;
    if rest > 0 {
      LineCountCeil(bytesPerLine, rest);
      var m := n - 1;
      assert (m - 1) * bytesPerLine < rest <= m * bytesPerLine;
      assert (n - 1) * bytesPerLine == (m - 1) * bytesPerLine + bytesPerLine;
      assert n * bytesPerLine == m * bytesPerLine + bytesPerLine;
      DivBetween(length + bytesPerLine - 1, bytesPerLine, n);
    } else {
      assert n == 1;
      DivBetween(length + bytesPerLine - 1, bytesPerLine, 1);
    }
  }

  /** q is a / d when q * d <= a < (q + 1) * d. */
  lemma DivBetween(a: int, d: int, q: int)
    requires d > 0 && q * d <= a < q * d + d
    ensures a / d == q
  {
    var k := a / d;
    assert a == k * d + a % d && 0 <= a % d < d;
    if k > q {
      MulStep(q, k, d);
    } else if k < q {
      MulStep(k, q, d);
    }
  }

  lemma {:induction false} MulStep(a: int, b: int, c: int)
    requires a < b && c > 0
    ensures a * c + c <= b * c
    decreases b - a
  {
    assert b * c == (b - 1) * c + c;
    if b - 1 > a {
      MulStep(a, b - 1, c);
    }
  }

  /** Offset i from x is x + i * bytesPerLine. */
  lemma {:induction false} OffsetAt(bytesPerLine: int, length: int, x: nat, i: nat, off: nat)
    requires bytesPerLine > 0 && i < |Offsets(bytesPerLine, length, x)| && off == x + i * bytesPerLine
    ensures Offsets(bytesPerLine, length, x)[i] == off
    decreases i
  {
    assert x < length;
    if i > 0 {
      assert off == x + bytesPerLine + (i - 1) * bytesPerLine;
      OffsetAt(bytesPerLine, length, x + bytesPerLine, i - 1, off);
    }
  }

  /** Line i from offset x is the line at offset x + i * bytesPerLine, and
      covers data[x + i * bytesPerLine .. min(x + (i + 1) * bytesPerLine, length)]. */
  lemma DumpLineAt(linePrefix: string, bytesPerLine: int, data: seq<byte>, length: int, x: nat, i: nat, off: nat)
    requires bytesPerLine > 0 && length <= |data|
    requires i < |DumpFrom(linePrefix, bytesPerLine, data, length, x)| && off == x + i * bytesPerLine
    ensures off < length
    ensures DumpFrom(linePrefix, bytesPerLine, data, length, x)[i]
      == DumpLine(linePrefix, off, HexRange(data, off, Min(off + bytesPerLine, length)))
  {
    OffsetAt(bytesPerLine, length, x, i, off);
  }

  /** The hex part of each line from offset x on, in line order. */
  function LineParts(bytesPerLine: int, data: seq<byte>, length: int, x: nat): (r: seq<string>)
    requires bytesPerLine > 0 && length <= |data|
    ensures |r| == |Offsets(bytesPerLine, length, x)|
    decreases length - x
  {
    if x >= length then []
    else [HexRange(data, x, Min(x + bytesPerLine, length))] + LineParts(bytesPerLine, data, length, x + bytesPerLine)
  }

  /** The strings of ss joined in order. */
  function Concat(ss: seq<string>): string {
    if ss == [] then "" else ss[0] + Concat(ss[1..])
  }

  /** Part k is the hex of the bytes of the line at the k-th offset. */
  lemma {:induction false} LinePartAt(bytesPerLine: int, data: seq<byte>, length: int, x: nat, k: nat)
    requires bytesPerLine > 0 && length <= |data| && k < |Offsets(bytesPerLine, length, x)|
    ensures var off := Offsets(bytesPerLine, length, x)[k];
      off < length && LineParts(bytesPerLine, data, length, x)[k] == HexRange(data, off, Min(off + bytesPerLine, length))
    decreases k
  {
    if k > 0 {
      LinePartAt(bytesPerLine, data, length, x + bytesPerLine, k - 1);
    }
  }

  /** Joined in order, the hex parts of the lines from offset x are the hex of data[x..length]. */
  lemma {:induction false} LinePartsCoverData(bytesPerLine: int, data: seq<byte>, length: int, x: nat)
    requires bytesPerLine > 0 && x <= length <= |data|
    ensures Concat(LineParts(bytesPerLine, data, length, x)) == HexRange(data, x, length)
    decreases length - x
  {
    if x < length {
      var y := Min(x + bytesPerLine, length);
      var parts := LineParts(bytesPerLine, data, length, x);
      assert parts[1..] == LineParts(bytesPerLine, data, length, x + bytesPerLine);
      if y < length {
        LinePartsCoverData(bytesPerLine, data, length, y);
      } else {
        assert LineParts(bytesPerLine, data, length, x + bytesPerLine) == [];
      }
      HexRangeSplit(data, x, y, length);
    }
  }

  /** The lines Dump returns show every byte once, in order: line k is the
      prefix, the k-th offset and the k-th hex part, and the hex parts
      joined are the hex of data[0..length]. */
  lemma DumpCoversData(linePrefix: string, bytesPerLine: int, data: seq<byte>, length: int)
    requires bytesPerLine > 0 && 0 <= length <= |data|
    ensures var lines := DumpFrom(linePrefix, bytesPerLine, data, length, 0);
      var parts := LineParts(bytesPerLine, data, length, 0);
      var offsets := Offsets(bytesPerLine, length, 0);
      && |lines| == |parts|
      && (forall k :: 0 <= k < |lines| ==> lines[k] == DumpLine(linePrefix, offsets[k], parts[k]))
      && Concat(parts) == HexRange(data, 0, length)
  {
    var lines := DumpFrom(linePrefix, bytesPerLine, data, length, 0);
    forall k | 0 <= k < |lines|
      ensures lines[k] == DumpLine(linePrefix, Offsets(bytesPerLine, length, 0)[k], LineParts(bytesPerLine, data, length, 0)[k])
    {
      LinePartAt(bytesPerLine, data, length, 0, k);
    }
    LinePartsCoverData(bytesPerLine, data, length, 0);
  }

  lemma ExampleHex()
    ensures HexRange([0x0A, 0xFF, 0x41], 0, 3) == "0aff41"
  {
    var d: seq<byte> := [0x0A, 0xFF, 0x41];
    assert HexPair(0x0A) == "0a" && HexPair(0xFF) == "ff" && HexPair(0x41) == "41";
    assert HexRange(d, 0, 1) == "0a";
  }

  lemma ExampleOffset()
    ensures PadStart(HexString(0), 4, '0') == "0000"
  {
    assert HexString(0) == "0";
    assert Repeat('0', 3) == "000";
  }

  /** Three bytes at 0x20 per line with prefix "telnet >" give the single
      line "telnet > 0x0000 - 0aff41". */
  lemma DumpExample()
    ensures DumpFrom("telnet >", 0x20, [0x0A, 0xFF, 0x41], 3, 0) == ["telnet > 0x0000 - 0aff41"]
  {
    var d: seq<byte> := [0x0A, 0xFF, 0x41];
    ExampleHex();
    ExampleOffset();
    assert DumpLine("telnet >", 0, "0aff41") == "telnet > 0x0000 - 0aff41";
    assert DumpFrom("telnet >", 0x20, d, 3, 0x20) == [];
  }
}
