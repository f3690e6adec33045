/** Text blocks as the frame encoder writes them (pushEscapedDataByte for
    the framing characters, pushDataByte for the data), and what
    forEachTextByte reads back from them: the decoder as written, and a
    corrected decoder that skips the block check and the two-byte DLE SYN
    time fill. */
module BscTextBlocks {
  import opened ByteTypes
  import opened BscProtocol
  import opened Crc16
  import opened BscFrameSpec

  /** Transparent data as pushDataByte writes it: every DLE twice. */
  function DoubleDle(data: seq<byte>): seq<byte>
    decreases |data|
  {
    if data == [] then []
    else (if data[0] == DLE then [DLE, DLE] else [data[0]]) + DoubleDle(data[1..])
  }

  /** Data that pushDataByte writes unchanged outside transparent text:
      no SOH or STX (which restart the block check) and no terminator
      (which would close the block). */
  predicate PlainData(data: seq<byte>) {
    forall i :: 0 <= i < |data| ==> data[i] != SOH && data[i] != STX && !IsTerminator(data[i] as int)
  }

  /** A new frame holding the leading SYN, with auto-BCC on. */
  const Start: FrameState := FrameState([SYN], 0, false, true)

  /** A normal text block: STX, the data and the terminator, each through pushDataByte. */
  function PlainBlock(data: seq<byte>, term: byte): FrameState {
    DataStep(DataSteps(DataStep(Start, STX), data), term)
  }

  /** A transparent text block: DLE STX, the data through pushDataByte,
      then DLE and the terminator. */
  function TransparentBlock(data: seq<byte>, term: byte): FrameState {
    EscapedStep(DataSteps(EscapedStep(Start, STX), data), term)
  }

  // ---------------------------------------------------------------------
  // The encoder

  /** Transparent data: each DLE is doubled and every byte is folded once into the CRC. */
  lemma DataRunTransparent(e: FrameState, data: seq<byte>)
    requires e.transparent
    ensures DataSteps(e, data) == FrameState(e.bytes + DoubleDle(data), Crc(data, e.crc), true, e.autoBcc)
  {
    TransparentRunBytes(e, data);
    TransparentRunCrc(e, data);
  }

  /** The bytes written by a transparent data run, and the modes it keeps. */
  lemma {:induction false} TransparentRunBytes(e: FrameState, data: seq<byte>)
    requires e.transparent
    ensures DataSteps(e, data).bytes == e.bytes + DoubleDle(data)
    ensures DataSteps(e, data).transparent && DataSteps(e, data).autoBcc == e.autoBcc
    decreases |data|
  {
    if data == [] {
      assert e.bytes + DoubleDle(data) == e.bytes;
    } else {
      var h := DoubleDle([data[0]]);
      var e1 := DataStep(e, data[0]);
      TransparentStepBytes(e, data[0]);
      TransparentRunBytes(e1, data[1..]);
      DoubleDleCons(data);
      assert e1.bytes + DoubleDle(data[1..]) == e.bytes + (h + DoubleDle(data[1..]));
    }
  }

  /** DoubleDle of a non-empty sequence: the first byte's part, then the rest's. */
  lemma DoubleDleCons(data: seq<byte>)
    requires data != []
    ensures DoubleDle(data) == DoubleDle([data[0]]) + DoubleDle(data[1..])
  {
    assert [data[0]][1..] == [];
  }

  /** The bytes of one transparent data step. */
  lemma TransparentStepBytes(e: FrameState, b: byte)
    requires e.transparent
    ensures DataStep(e, b).bytes == e.bytes + DoubleDle([b])
    ensures DataStep(e, b).transparent && DataStep(e, b).autoBcc == e.autoBcc
  {
    assert [b][1..] == [];
  }

  /** The check value of a transparent data run folds every byte once. */
  lemma {:induction false} TransparentRunCrc(e: FrameState, data: seq<byte>)
    requires e.transparent
    ensures DataSteps(e, data).crc == Crc(data, e.crc)
    decreases |data|
  {
    if data != [] {
      var e1 := DataStep(e, data[0]);
      TransparentDataStep(e, data[0]);
      TransparentRunCrc(e1, data[1..]);
    }
  }

  /** One byte of transparent data: a DLE is written twice, and the byte
      is folded into the CRC. */
  lemma TransparentDataStep(e: FrameState, b: byte)
    requires e.transparent
    ensures DataStep(e, b)
      == FrameState(e.bytes + (if b == DLE then [DLE, DLE] else [b]), UpdateByte(e.crc, b), true, e.autoBcc)
  {
  }

  /** Plain data outside transparent text is written as it is and folded into the CRC. */
  lemma DataRunNormal(e: FrameState, data: seq<byte>)
    requires !e.transparent && PlainData(data)
    ensures DataSteps(e, data) == FrameState(e.bytes + data, Crc(data, e.crc), false, e.autoBcc)
  {
    NormalRunBytes(e, data);
    NormalRunCrc(e, data);
  }

  /** Plain data is one element shorter plain data after its first byte. */
  lemma PlainDataTail(data: seq<byte>)
    requires data != [] && PlainData(data)
    ensures PlainData(data[1..])
  {
    forall i | 0 <= i < |data[1..]|
      ensures data[1..][i] != SOH && data[1..][i] != STX && !IsTerminator(data[1..][i] as int)
    {
      assert data[1..][i] == data[i + 1];
    }
  }

  /** One byte of plain data outside transparent text is written as it is
      and folded into the CRC. */
  lemma NormalDataStep(e: FrameState, b: byte)
    requires !e.transparent && b != SOH && b != STX && !IsTerminator(b as int)
    ensures DataStep(e, b) == FrameState(e.bytes + [b], UpdateByte(e.crc, b), false, e.autoBcc)
  {
  }

  /** The bytes written by a plain data run, and the modes it keeps. */
  lemma {:induction false} NormalRunBytes(e: FrameState, data: seq<byte>)
    requires !e.transparent && PlainData(data)
    ensures DataSteps(e, data).bytes == e.bytes + data
    ensures !DataSteps(e, data).transparent && DataSteps(e, data).autoBcc == e.autoBcc
    decreases |data|
  {
    if data == [] {
      assert e.bytes + data == e.bytes;
    } else {
      var e1 := DataStep(e, data[0]);
      NormalDataStep(e, data[0]);
      PlainDataTail(data);
      NormalRunBytes(e1, data[1..]);
      assert e.bytes + [data[0]] + data[1..] == e.bytes + data;
    }
  }

  /** The check value of a plain data run folds every byte once. */
  lemma {:induction false} NormalRunCrc(e: FrameState, data: seq<byte>)
    requires !e.transparent && PlainData(data)
    ensures DataSteps(e, data).crc == Crc(data, e.crc)
    decreases |data|
  {
    if data != [] {
      var e1 := DataStep(e, data[0]);
      NormalDataStep(e, data[0]);
      PlainDataTail(data);
      NormalRunCrc(e1, data[1..]);
    }
  }

  /** A normal block is SYN STX, the data, the terminator and the block
      check over the data and the terminator, and leaves normal mode on. */
  lemma PlainBlockBytes(data: seq<byte>, term: byte)
    requires PlainData(data) && IsTerminator(term as int)
    ensures PlainBlock(data, term).bytes == [SYN, STX] + data + [term] + BccBytes(PlainBlock(data, term).crc)
    ensures PlainBlock(data, term).crc == Crc(data + [term], 0)
    ensures !PlainBlock(data, term).transparent
  {
    var e0 := DataStep(Start, STX);
    assert e0 == FrameState([SYN, STX], 0, false, true);
    DataRunNormal(e0, data);
    var e1 := DataSteps(e0, data);
    CrcSnoc(data, term, 0);
    assert DataStep(e1, term).bytes == e1.bytes + [term] + BccBytes(UpdateByte(Crc(data, 0), term));
  }

  /** A transparent block is SYN DLE STX, the data with every DLE doubled,
      DLE and the terminator, and the block check over the data and the
      terminator; it leaves transparent mode off. */
  lemma TransparentBlockBytes(data: seq<byte>, term: byte)
    requires IsTerminator(term as int)
    ensures TransparentBlock(data, term).bytes
      == [SYN, DLE, STX] + DoubleDle(data) + [DLE, term] + BccBytes(TransparentBlock(data, term).crc)
    ensures TransparentBlock(data, term).crc == Crc(data + [term], 0)
    ensures !TransparentBlock(data, term).transparent
  {
    var e0 := EscapedStep(Start, STX);
    assert e0 == FrameState([SYN, DLE, STX], 0, true, true);
    DataRunTransparent(e0, data);
    var e1 := DataSteps(e0, data);
    CrcSnoc(data, term, 0);
    assert EscapedStep(e1, term).bytes == e1.bytes + [DLE, term] + BccBytes(UpdateByte(Crc(data, 0), term));
  }

  // ---------------------------------------------------------------------
  // forEachTextByte as written

  /** Inside normal text, terminator-free bytes are reported one for one. */
  lemma {:induction false} PlainTextRun(s: seq<byte>, x: nat, data: seq<byte>)
    requires x + |data| <= |s| && s[x..x + |data|] == data
    requires forall i :: 0 <= i < |data| ==> !IsTerminator(data[i] as int)
    ensures TextFrom(s, x, true, false) == data + TextFrom(s, x + |data|, true, false)
    decreases |data|
  {
    if data != [] {
      assert s[x] == data[0];
      assert s[x + 1..x + |data|] == data[1..];
      PlainTextRun(s, x + 1, data[1..]);
      assert [data[0]] + data[1..] == data;
    }
  }

  /** Inside transparent text, each doubled DLE is reported once and every other byte as it is. */
  lemma {:induction false} TransparentTextRun(s: seq<byte>, x: nat, data: seq<byte>)
    requires x + |DoubleDle(data)| <= |s| && s[x..x + |DoubleDle(data)|] == DoubleDle(data)
    ensures TextFrom(s, x, true, true) == data + TextFrom(s, x + |DoubleDle(data)|, true, true)
    decreases |data|
  {
    if data != [] {
      var h := if data[0] == DLE then [DLE, DLE] else [data[0]];
      var n := |DoubleDle(data)|;
      assert DoubleDle(data) == h + DoubleDle(data[1..]);
      assert s[x + |h|..x + n] == s[x..x + n][|h|..];
      assert DoubleDle(data)[|h|..] == DoubleDle(data[1..]);
      TransparentTextRun(s, x + |h|, data[1..]);
      assert s[x] == h[0];
      if data[0] == DLE {
        assert s[x + 1] == DLE;
      }
      assert [data[0]] + data[1..] == data;
    }
  }

  /** After a normal block: the terminator closes the text, and a low
      check byte equal to STX opens it again for the high byte. */
  lemma PlainTextTail(s: seq<byte>, y: nat)
    requires |s| == y + 3 && IsTerminator(s[y] as int)
    ensures TextFrom(s, y, true, false)
      == if s[y + 1] == STX && !IsTerminator(s[y + 2] as int) then [s[y + 2]] else []
  {
    assert TextFrom(s, y, true, false) == TextFrom(s, y + 1, false, false);
    if s[y + 1] == STX {
      assert !ByteIs(s, y, DLE);
      assert TextFrom(s, y + 1, false, false) == TextFrom(s, y + 2, true, false);
      if IsTerminator(s[y + 2] as int) {
        assert TextFrom(s, y + 2, true, false) == TextFrom(s, y + 3, false, false);
      } else {
        assert TextFrom(s, y + 2, true, false) == [s[y + 2]] + TextFrom(s, y + 3, true, false);
      }
    } else {
      assert TextFrom(s, y + 1, false, false) == TextFrom(s, y + 2, false, false);
    }
    assert TextFrom(s, y + 3, true, false) == [] && TextFrom(s, y + 3, false, false) == [];
    assert TextFrom(s, y + 3, true, true) == [];
  }

  /** After a transparent block: DLE and the terminator close the text,
      and a low check byte equal to STX opens it again for the high byte. */
  lemma TransparentTextTail(s: seq<byte>, y: nat)
    requires |s| == y + 4 && s[y] == DLE && IsTerminator(s[y + 1] as int)
    ensures TextFrom(s, y, true, true) == if s[y + 2] == STX then [s[y + 3]] else []
  {
    assert TextFrom(s, y, true, true) == TextFrom(s, y + 1, false, true);
    assert TextFrom(s, y + 1, false, true) == TextFrom(s, y + 2, false, true);
    if s[y + 2] == STX {
      assert TextFrom(s, y + 2, false, true) == TextFrom(s, y + 3, true, true);
    } else {
      assert TextFrom(s, y + 2, false, true) == TextFrom(s, y + 3, false, true);
    }
    assert TextFrom(s, y + 4, true, true) == [] && TextFrom(s, y + 4, false, true) == [];
  }

  /** forEachTextByte on a normal block reports the data, and also the
      high check byte when the low check byte happens to equal STX. */
  lemma PlainBlockText(data: seq<byte>, term: byte)
    requires PlainData(data) && IsTerminator(term as int)
    ensures var e := PlainBlock(data, term);
      TextBytes(e.bytes) == data + (if Lo(e.crc) == STX && !IsTerminator(Hi(e.crc) as int) then [Hi(e.crc)] else [])
  {
    PlainBlockBytes(data, term);
    var e := PlainBlock(data, term);
    assert e.bytes == [SYN, STX] + data + [term, Lo(e.crc), Hi(e.crc)];
    PlainFrameText(e.bytes, data, term, Lo(e.crc), Hi(e.crc));
  }

  lemma PlainFrameText(s: seq<byte>, data: seq<byte>, term: byte, lo: byte, hi: byte)
    requires PlainData(data) && IsTerminator(term as int)
    requires s == [SYN, STX] + data + [term, lo, hi]
    ensures TextBytes(s) == data + (if lo == STX && !IsTerminator(hi as int) then [hi] else [])
  {
    var n := |data|;
    assert s[2..2 + n] == data;
    assert s[2 + n] == term && s[3 + n] == lo && s[4 + n] == hi;
    assert TextFrom(s, 0, false, false) == TextFrom(s, 1, false, false);
    assert TextFrom(s, 1, false, false) == TextFrom(s, 2, true, false);
    PlainTextRun(s, 2, data);
    PlainTextTail(s, 2 + n);
  }

  /** forEachTextByte on a transparent block reports the data for any
      data, and also the high check byte when the low check byte happens
      to equal STX. */
  lemma TransparentBlockText(data: seq<byte>, term: byte)
    requires IsTerminator(term as int)
    ensures var e := TransparentBlock(data, term);
      TextBytes(e.bytes) == data + (if Lo(e.crc) == STX then [Hi(e.crc)] else [])
  {
    TransparentBlockBytes(data, term);
    var e := TransparentBlock(data, term);
    assert e.bytes == [SYN, DLE, STX] + DoubleDle(data) + [DLE, term, Lo(e.crc), Hi(e.crc)];
    TransparentFrameText(e.bytes, data, term, Lo(e.crc), Hi(e.crc));
  }

  lemma TransparentFrameText(s: seq<byte>, data: seq<byte>, term: byte, lo: byte, hi: byte)
    requires IsTerminator(term as int)
    requires s == [SYN, DLE, STX] + DoubleDle(data) + [DLE, term, lo, hi]
    ensures TextBytes(s) == data + (if lo == STX then [hi] else [])
  {
    var n := |DoubleDle(data)|;
    assert s[3..3 + n] == DoubleDle(data);
    assert s[3 + n] == DLE && s[4 + n] == term && s[5 + n] == lo && s[6 + n] == hi;
    assert TextFrom(s, 0, false, false) == TextFrom(s, 1, false, false);
    assert TextFrom(s, 1, false, false) == TextFrom(s, 2, false, false);
    assert TextFrom(s, 2, false, false) == TextFrom(s, 3, true, true);
    TransparentTextRun(s, 3, data);
    TransparentTextTail(s, 3 + n);
  }

  // ---------------------------------------------------------------------
  // The corrected decoder

  /** forEachTextByte as the protocol intends it: the two block-check
      bytes after a terminator are not text, and the transparent time fill
      DLE SYN is two bytes long. */
  function IntendedTextFrom(s: seq<byte>, x: nat, inText: bool, transparent: bool): seq<byte>
    decreases |s| - x
  {
    if x >= |s| then []
    else if !inText then
      if s[x] == STX then IntendedTextFrom(s, x + 1, true, transparent || ByteIs(s, x - 1, DLE))
      else IntendedTextFrom(s, x + 1, false, transparent)
    else if !transparent then
      if IsTerminator(s[x] as int) then IntendedTextFrom(s, x + 3, false, false)
      else [s[x]] + IntendedTextFrom(s, x + 1, true, false)
    else if s[x] == DLE && x < |s| - 1 && IsTerminator(s[x + 1] as int) then
      IntendedTextFrom(s, x + 4, false, true)
    else if s[x] == DLE && ByteIs(s, x + 1, DLE) then [DLE] + IntendedTextFrom(s, x + 2, true, true)
    else if s[x] == DLE && ByteIs(s, x + 1, SYN) then IntendedTextFrom(s, x + 2, true, true)
    else [s[x]] + IntendedTextFrom(s, x + 1, true, true)
  }

  /** The text the corrected decoder reports for a frame. */
  function IntendedTextBytes(s: seq<byte>): seq<byte> {
    IntendedTextFrom(s, 0, false, false)
  }

  lemma {:induction false} IntendedPlainRun(s: seq<byte>, x: nat, data: seq<byte>)
    requires x + |data| <= |s| && s[x..x + |data|] == data
    requires forall i :: 0 <= i < |data| ==> !IsTerminator(data[i] as int)
    ensures IntendedTextFrom(s, x, true, false) == data + IntendedTextFrom(s, x + |data|, true, false)
    decreases |data|
  {
    if data != [] {
      assert s[x] == data[0];
      assert s[x + 1..x + |data|] == data[1..];
      IntendedPlainRun(s, x + 1, data[1..]);
      assert [data[0]] + data[1..] == data;
    }
  }

  lemma {:induction false} IntendedTransparentRun(s: seq<byte>, x: nat, data: seq<byte>)
    requires x + |DoubleDle(data)| <= |s| && s[x..x + |DoubleDle(data)|] == DoubleDle(data)
    ensures IntendedTextFrom(s, x, true, true) == data + IntendedTextFrom(s, x + |DoubleDle(data)|, true, true)
    decreases |data|
  {
    if data != [] {
      var h := if data[0] == DLE then [DLE, DLE] else [data[0]];
      var n := |DoubleDle(data)|;
      assert DoubleDle(data) == h + DoubleDle(data[1..]);
      assert s[x + |h|..x + n] == s[x..x + n][|h|..];
      assert DoubleDle(data)[|h|..] == DoubleDle(data[1..]);
      IntendedTransparentRun(s, x + |h|, data[1..]);
      assert s[x] == h[0];
      if data[0] == DLE {
        assert s[x + 1] == DLE;
      }
      assert [data[0]] + data[1..] == data;
    }
  }

  /** The corrected decoder reads back exactly the data of a normal block. */
  lemma PlainBlockRoundTrip(data: seq<byte>, term: byte)
    requires PlainData(data) && IsTerminator(term as int)
    ensures IntendedTextBytes(PlainBlock(data, term).bytes) == data
  {
    PlainBlockBytes(data, term);
    var e := PlainBlock(data, term);
    PlainFrameRoundTrip(e.bytes, data, term, Lo(e.crc), Hi(e.crc));
  }

  lemma PlainFrameRoundTrip(s: seq<byte>, data: seq<byte>, term: byte, lo: byte, hi: byte)
    requires PlainData(data) && IsTerminator(term as int)
    requires s == [SYN, STX] + data + [term, lo, hi]
    ensures IntendedTextBytes(s) == data
  {
    var n := |data|;
    assert s[2..2 + n] == data;
    assert IsTerminator(s[2 + n] as int) && |s| == n + 5;
    assert IntendedTextFrom(s, 0, false, false) == IntendedTextFrom(s, 1, false, false);
    assert IntendedTextFrom(s, 1, false, false) == IntendedTextFrom(s, 2, true, false);
    IntendedPlainRun(s, 2, data);
    assert IntendedTextFrom(s, 2 + n, true, false) == IntendedTextFrom(s, 5 + n, false, false);
    assert data + [] == data;
  }

  /** The corrected decoder reads back exactly the data of a transparent block, whatever the data. */
  lemma TransparentBlockRoundTrip(data: seq<byte>, term: byte)
    requires IsTerminator(term as int)
    ensures IntendedTextBytes(TransparentBlock(data, term).bytes) == data
  {
    TransparentBlockBytes(data, term);
    var e := TransparentBlock(data, term);
    TransparentFrameRoundTrip(e.bytes, data, term, Lo(e.crc), Hi(e.crc));
  }

  lemma TransparentFrameRoundTrip(s: seq<byte>, data: seq<byte>, term: byte, lo: byte, hi: byte)
    requires IsTerminator(term as int)
    requires s == [SYN, DLE, STX] + DoubleDle(data) + [DLE, term, lo, hi]
    ensures IntendedTextBytes(s) == data
  {
    var n := |DoubleDle(data)|;
    assert s[3..3 + n] == DoubleDle(data);
    assert s[3 + n] == DLE && IsTerminator(s[4 + n] as int) && |s| == n + 7;
    assert IntendedTextFrom(s, 0, false, false) == IntendedTextFrom(s, 1, false, false);
    assert IntendedTextFrom(s, 1, false, false) == IntendedTextFrom(s, 2, false, false);
    assert IntendedTextFrom(s, 2, false, false) == IntendedTextFrom(s, 3, true, true);
    IntendedTransparentRun(s, 3, data);
    assert IntendedTextFrom(s, 3 + n, true, true) == IntendedTextFrom(s, 7 + n, false, true);
    assert data + [] == data;
  }

  // ---------------------------------------------------------------------
  // Inputs on which the decoder as written goes wrong

  /** The normal block carrying the single byte F9 ends ETX 02 51: its
      low check byte is STX, so forEachTextByte also reports 51. */
  lemma BccStxReopensText()
    ensures PlainBlock([0xF9], ETX).bytes == [SYN, STX, 0xF9, ETX, STX, 0x51]
    ensures TextBytes(PlainBlock([0xF9], ETX).bytes) == [0xF9, 0x51]
    ensures IntendedTextBytes(PlainBlock([0xF9], ETX).bytes) == [0xF9]
  {
    var d: seq<byte> := [0xF9];
    PlainBlockBytes(d, ETX);
    PlainBlockText(d, ETX);
    PlainBlockRoundTrip(d, ETX);
    var e := PlainBlock(d, ETX);
    assert UpdateByte(0, 0xF9) == 0x42C0;
    assert UpdateByte(0x42C0, ETX) == 0x5102;
    assert Crc([ETX], 0x42C0) == 0x5102;
    assert d + [ETX] == [0xF9, ETX];
    assert e.crc == 0x5102;
    assert Lo(0x5102) == STX && Hi(0x5102) == 0x51;
  }

  /** A transparent block with the time fill DLE SYN between 41 and 42:
      forEachTextByte skips three bytes at the DLE and loses 42. */
  lemma DleSynSkipsThree()
    ensures TextBytes([SYN, DLE, STX, 0x41, DLE, SYN, 0x42, DLE, ETX, 0x20, 0xB5]) == [0x41]
    ensures IntendedTextBytes([SYN, DLE, STX, 0x41, DLE, SYN, 0x42, DLE, ETX, 0x20, 0xB5]) == [0x41, 0x42]
  {
    var s: seq<byte> := [SYN, DLE, STX, 0x41, DLE, SYN, 0x42, DLE, ETX, 0x20, 0xB5];
    assert TextFrom(s, 10, false, true) == [];
    assert TextFrom(s, 9, false, true) == [];
    assert TextFrom(s, 8, false, true) == [];
    assert TextFrom(s, 7, true, true) == TextFrom(s, 8, false, true);
    assert TextFrom(s, 4, true, true) == TextFrom(s, 7, true, true);
    assert TextFrom(s, 3, true, true) == [0x41] + TextFrom(s, 4, true, true);
    assert TextFrom(s, 2, false, false) == TextFrom(s, 3, true, true);
    assert TextFrom(s, 1, false, false) == TextFrom(s, 2, false, false);
    assert TextFrom(s, 0, false, false) == TextFrom(s, 1, false, false);
    assert IntendedTextFrom(s, 7, true, true) == [];
    assert IntendedTextFrom(s, 6, true, true) == [0x42];
    assert IntendedTextFrom(s, 4, true, true) == [0x42];
    assert IntendedTextFrom(s, 3, true, true) == [0x41, 0x42];
    assert IntendedTextFrom(s, 2, false, false) == IntendedTextFrom(s, 3, true, true);
    assert IntendedTextFrom(s, 1, false, false) == IntendedTextFrom(s, 2, false, false);
    assert IntendedTextFrom(s, 0, false, false) == IntendedTextFrom(s, 1, false, false);
  }
}
