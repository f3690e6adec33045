/** BscFrameCreator (bsc-frame.js): factories for the frames the bridge
    sends. Each method builds a BscFrame by pushes; the frame it returns is
    described by a value-level function, about which the lemmas speak. */
module BscFrameCreator {
  import opened ByteTypes
  import opened BscProtocol
  import opened Crc16
  import opened BscFrameSpec
  import opened BscFrames

  // ---------------------------------------------------------------------
  // Frame contents

  /** The opening of a text frame: SYN STX, or SYN DLE STX in transparent mode. */
  function TextPrefix(useTransparentMode: bool): seq<byte> {
    if useTransparentMode then [SYN, DLE, STX] else [SYN, STX]
  }

  /** The block terminator: ETX for the last block, ETB otherwise. */
  function Terminator(isLastBlock: bool): (b: byte)
    ensures IsTerminator(b as int) && b != DLE
  {
    if isLastBlock then ETX else ETB
  }

  /** What addEndOfText appends: [DLE] then the terminator. */
  function EndOfText(isLastBlock: bool, useTransparentMode: bool): seq<byte> {
    (if useTransparentMode then [DLE] else []) + [Terminator(isLastBlock)]
  }

  /** A command frame before its block check. */
  function UnsealedCommand(data: seq<byte>, isLastBlock: bool, useTransparentMode: bool): (r: seq<byte>)
    ensures |r| > |TextPrefix(useTransparentMode)|
    ensures STX in r && r[|TextPrefix(useTransparentMode)| - 1] == STX
  {
    TextPrefix(useTransparentMode) + data + EndOfText(isLastBlock, useTransparentMode)
  }

  /** The frame makeFrameCommand returns: the unsealed frame, then the block
      check addBcc computes for it. */
  function CommandFrame(data: seq<byte>, isLastBlock: bool, useTransparentMode: bool): seq<byte> {
    var u := UnsealedCommand(data, isLastBlock, useTransparentMode);
    u + BccBytes(BccValueOf(u))
  }

  /** The frame makeFramePollSelectAddress returns. */
  function PollSelectFrame(cuChar: byte, devChar: byte): seq<byte> {
    [SYN, cuChar, cuChar, devChar, devChar, ENQ]
  }

  /** The number of bytes a command frame adds to its data. */
  function CommandOverhead(useTransparentMode: bool): nat {
    if useTransparentMode then 7 else 5
  }

  // ---------------------------------------------------------------------
  // The factories

  /** makeFrameEot. */
  method MakeFrameEot() returns (frame: BscFrame)
    ensures fresh(frame) && fresh(frame.buf) && frame.Valid()
    ensures frame.State() == FrameState([SYN, EOT], 0, false, true)
  {
    frame := new BscFrame(None, [SYN, EOT]);
  }

  /** makeFrameAck: ACK0 for 0, ACK1 for anything else. */
  method MakeFrameAck(ackType: int) returns (frame: BscFrame)
    ensures fresh(frame) && fresh(frame.buf) && frame.Valid()
    ensures frame.State() == FrameState([SYN, DLE, if ackType == 0 then ACK0 else ACK1], 0, false, true)
  {
    if ackType == 0 {
      frame := new BscFrame(None, [SYN, DLE, ACK0]);
      return;
    }
    frame := new BscFrame(None, [SYN, DLE, ACK1]);
  }

  /** makeFramePollSelectAddress: each address character twice, then ENQ. */
  method MakeFramePollSelectAddress(cuChar: byte, devChar: byte) returns (frame: BscFrame)
    ensures fresh(frame) && fresh(frame.buf) && frame.Valid()
    ensures frame.State() == FrameState(PollSelectFrame(cuChar, devChar), 0, false, true)
  {
    frame := new BscFrame(None, [SYN, cuChar, cuChar, devChar, devChar, ENQ]);
  }

  /** makeFrameSelectAddress: the control unit by its select character, the
      device by its poll character. */
  method MakeFrameSelectAddress(cuAddress: int, devAddress: int) returns (frame: BscFrame)
    requires 0 <= cuAddress < 32 && 0 <= devAddress < 32
    ensures fresh(frame) && fresh(frame.buf) && frame.Valid()
    ensures frame.State() == FrameState(
      PollSelectFrame(GetDeviceSelectChar(cuAddress), GetDevicePollChar(devAddress)), 0, false, true)
  {
    var cuChar := GetDeviceSelectChar(cuAddress);
    var devChar := GetDevicePollChar(devAddress);
    frame := MakeFramePollSelectAddress(cuChar, devChar);
  }

  /** makeFramePollAddress: both addresses by their poll characters. */
  method MakeFramePollAddress(cuAddress: int, devAddress: int) returns (frame: BscFrame)
    requires 0 <= cuAddress < 32 && 0 <= devAddress < 32
    ensures fresh(frame) && fresh(frame.buf) && frame.Valid()
    ensures frame.State() == FrameState(
      PollSelectFrame(GetDevicePollChar(cuAddress), GetDevicePollChar(devAddress)), 0, false, true)
  {
    var cuChar := GetDevicePollChar(cuAddress);
    var devChar := GetDevicePollChar(devAddress);
    frame := MakeFramePollSelectAddress(cuChar, devChar);
  }

  /** createFrameWithPrefix: a default-capacity frame holding the text opening. */
  method CreateFrameWithPrefix(useTransparentMode: bool) returns (frame: BscFrame)
    ensures fresh(frame) && fresh(frame.buf) && frame.Valid()
    ensures frame.buf.Length == DEFAULT_CAPACITY
    ensures frame.State() == FrameState(TextPrefix(useTransparentMode), 0, false, true)
  {
    frame := new BscFrame(Some(DEFAULT_CAPACITY), []);
    frame.Push([SYN]);
    if !useTransparentMode {
      frame.Push([STX]);
    } else {
      frame.Push([DLE, STX]);
    }
  }

  /** addEndOfText: [DLE] then ETX or ETB. */
  method AddEndOfText(frame: BscFrame, isLastBlock: bool, useTransparentMode: bool)
    requires frame.Valid()
    requires frame.frameSize + |EndOfText(isLastBlock, useTransparentMode)| <= frame.buf.Length
    modifies frame`frameSize, frame.buf
    ensures frame.Valid()
    ensures frame.Bytes() == old(frame.Bytes()) + EndOfText(isLastBlock, useTransparentMode)
  {
    if useTransparentMode {
      frame.Push([DLE]);
    }
    if isLastBlock {
      frame.Push([ETX]);
    } else {
      frame.Push([ETB]);
    }
  }

  /** makeFrameCommand: the data is pushed as given (already escaped in
      transparent mode), then the terminator and the block check. */
  method MakeFrameCommand(data: seq<byte>, isLastBlock: bool, useTransparentMode: bool) returns (frame: BscFrame)
    requires |data| + CommandOverhead(useTransparentMode) <= DEFAULT_CAPACITY
    ensures fresh(frame) && fresh(frame.buf) && frame.Valid()
    ensures frame.State() == FrameState(CommandFrame(data, isLastBlock, useTransparentMode), 0, false, true)
  {
    frame := MakeUnsealedCommand(data, isLastBlock, useTransparentMode);
    frame.AddBcc();
  }

  /** The pushes of makeFrameCommand before the block check. */
  method MakeUnsealedCommand(data: seq<byte>, isLastBlock: bool, useTransparentMode: bool) returns (frame: BscFrame)
    requires |data| + CommandOverhead(useTransparentMode) <= DEFAULT_CAPACITY
    ensures fresh(frame) && fresh(frame.buf) && frame.Valid()
    ensures frame.buf.Length == DEFAULT_CAPACITY
    ensures frame.State() == FrameState(UnsealedCommand(data, isLastBlock, useTransparentMode), 0, false, true)
  {
    frame := CreateFrameWithPrefix(useTransparentMode);
    frame.Push(data);
    AddEndOfText(frame, isLastBlock, useTransparentMode);
  }

  // ---------------------------------------------------------------------
  // Properties of the frames

  /** The shape of a command frame: prefix, data, end of text and two block
      check bytes, low byte first, nothing else. */
  lemma CommandFrameShape(data: seq<byte>, isLastBlock: bool, t: bool)
    ensures var f := CommandFrame(data, isLastBlock, t);
      var n := |TextPrefix(t)| + |data| + |EndOfText(isLastBlock, t)|;
      |f| == n + 2
      && f[..|TextPrefix(t)|] == TextPrefix(t)
      && f[|TextPrefix(t)|..|TextPrefix(t)| + |data|] == data
      && f[n - 1] == Terminator(isLastBlock)
      && (t ==> f[n - 2] == DLE)
      && f[n..] == BccBytes(BccValueOf(UnsealedCommand(data, isLastBlock, t)))
  {
    SealedShape(data, isLastBlock, t, BccValueOf(UnsealedCommand(data, isLastBlock, t)));
  }

  /** The same shape for an unsealed command frame closed by any check value. */
  lemma SealedShape(data: seq<byte>, isLastBlock: bool, t: bool, c: bv16)
    ensures var f := UnsealedCommand(data, isLastBlock, t) + BccBytes(c);
      var n := |TextPrefix(t)| + |data| + |EndOfText(isLastBlock, t)|;
      |f| == n + 2
      && f[..|TextPrefix(t)|] == TextPrefix(t)
      && f[|TextPrefix(t)|..|TextPrefix(t)| + |data|] == data
      && f[n - 1] == Terminator(isLastBlock)
      && (t ==> f[n - 2] == DLE)
      && f[n..] == BccBytes(c)
  {
    var u := UnsealedCommand(data, isLastBlock, t);
    var f := u + BccBytes(c);
    assert |u| == |TextPrefix(t)| + |data| + |EndOfText(isLastBlock, t)|;
    assert f[..|u|] == u;
    assert u[..|TextPrefix(t)|] == TextPrefix(t);
    assert u[|TextPrefix(t)|..|TextPrefix(t)| + |data|] == data;
  }

  /** Outside transparent mode the block check covers exactly the data and
      the terminator, whenever the data holds no terminator of its own. */
  lemma CommandBccNormal(data: seq<byte>, isLastBlock: bool)
    requires forall i :: 0 <= i < |data| ==> !IsTerminator(data[i] as int)
    ensures BccInput(UnsealedCommand(data, isLastBlock, false)) == data + [Terminator(isLastBlock)]
  {
    NormalCommandInput(UnsealedCommand(data, isLastBlock, false), data, Terminator(isLastBlock));
  }

  /** The BCC input of a plain command frame is its data and terminator. */
  lemma NormalCommandInput(s: seq<byte>, data: seq<byte>, term: byte)
    requires forall i :: 0 <= i < |data| ==> !IsTerminator(data[i] as int)
    requires IsTerminator(term as int)
    requires s == [SYN, STX] + data + [term]
    ensures STX in s && BccInput(s) == data + [term]
  {
    var n := |data|;
    assert s[1] == STX;
    assert FirstStxOrSoh(s, 1) == 1 && FirstStxOrSoh(s, 0) == 1;
    BccWindowWithoutHeader(s, 1);
    NormalCommandEnd(s, data, term);
    assert s[2..n + 2] == data;
    assert ByteOrZero(s, n + 2) == term;
  }

  /** The end scan of a command frame over terminator-free data stops at
      the closing terminator. */
  lemma NormalCommandEnd(s: seq<byte>, data: seq<byte>, term: byte)
    requires forall i :: 0 <= i < |data| ==> !IsTerminator(data[i] as int)
    requires IsTerminator(term as int)
    requires s == [SYN, STX] + data + [term]
    ensures ScanTerminator(s, 2) == |data| + 2
  {
    var n := |data|;
    assert forall i :: 2 <= i < n + 2 ==> s[i] == data[i - 2];
    var k := ScanTerminator(s, 2);
    assert s[n + 2] == term;
  }

  /** In transparent mode the same holds only for data with neither a DLE
      nor a terminator value: the window then ends at the closing DLE. */
  lemma CommandBccTransparent(data: seq<byte>, isLastBlock: bool)
    requires forall i :: 0 <= i < |data| ==> data[i] != DLE && !IsTerminator(data[i] as int)
    ensures BccInput(UnsealedCommand(data, isLastBlock, true)) == data + [Terminator(isLastBlock)]
  {
    TransparentCommandInput(UnsealedCommand(data, isLastBlock, true), data, Terminator(isLastBlock));
  }

  /** The BCC input of a transparent command frame over DLE-free,
      terminator-free data is its data and terminator. */
  lemma TransparentCommandInput(s: seq<byte>, data: seq<byte>, term: byte)
    requires forall i :: 0 <= i < |data| ==> data[i] != DLE && !IsTerminator(data[i] as int)
    requires s == [SYN, DLE, STX] + data + [DLE, term]
    ensures STX in s && BccInput(s) == data + [term]
  {
    var n := |data|;
    assert s[2] == STX;
    assert FirstStxOrSoh(s, 2) == 2 && FirstStxOrSoh(s, 0) == 2;
    BccWindowWithoutHeader(s, 2);
    assert ByteIs(s, 1, DLE);
    TransparentCommandEnd(s, data, term);
    assert s[3..n + 4] == data + [DLE];
    assert ReplaceLast(data + [DLE], s[n + 4]) == data + [term];
  }

  /** The transparent end scan of a command frame over DLE-free,
      terminator-free data stops just after the closing DLE. */
  lemma TransparentCommandEnd(s: seq<byte>, data: seq<byte>, term: byte)
    requires forall i :: 0 <= i < |data| ==> data[i] != DLE && !IsTerminator(data[i] as int)
    requires s == [SYN, DLE, STX] + data + [DLE, term]
    ensures ScanTransparentEnd(s, 3) == |data| + 4
  {
    var n := |data|;
    assert forall i :: 3 <= i < n + 3 ==> s[i] == data[i - 3];
    assert forall i :: 2 <= i < n + 3 ==> s[i] != DLE;
    assert forall i :: 3 <= i < n + 4 ==> !IsTerminator(s[i] as int);
    var k := ScanTransparentEnd(s, 3);
    assert s[n + 3] == DLE;
    assert k == n + 4;
  }

  /** For data with neither DLE nor terminator values the two modes append
      the same block check. */
  lemma CommandBccModeIndependent(data: seq<byte>, isLastBlock: bool)
    requires forall i :: 0 <= i < |data| ==> data[i] != DLE && !IsTerminator(data[i] as int)
    ensures BccValueOf(UnsealedCommand(data, isLastBlock, true))
         == BccValueOf(UnsealedCommand(data, isLastBlock, false))
  {
    CommandBccNormal(data, isLastBlock);
    CommandBccTransparent(data, isLastBlock);
  }

  /** In transparent mode the window stops after the first DLE of the data:
      for the escaped form DLE DLE of a single DLE the block check covers
      only [DLE], where the data append computes it over [DLE, ETX]. */
  lemma CommandBccTransparentStopsAtDle()
    ensures BccValueOf(UnsealedCommand([DLE, DLE], true, true)) == 0xCC01
    ensures Crc([DLE], 0) == 0xCC01 && Crc([DLE, ETX], 0) == 0xC14D
  {
    var s := UnsealedCommand([DLE, DLE], true, true);
    assert s == [SYN, DLE, STX, DLE, DLE, DLE, ETX];
    assert FirstStxOrSoh(s, 2) == 2 && FirstStxOrSoh(s, 0) == 2;
    BccWindowWithoutHeader(s, 2);
    assert ScanTransparentEnd(s, 4) == 4 && ScanTransparentEnd(s, 3) == 4;
    assert s[3..4] == [DLE];
    assert BccInput(s) == [DLE];
    assert UpdateByte(0, DLE) == 0xCC01;
    assert Crc([], 0xCC01) == 0xCC01;
    assert Crc([DLE], 0) == 0xCC01;
    assert UpdateByte(0xCC01, ETX) == 0xC14D;
    assert Crc([ETX], 0xCC01) == 0xC14D;
  }

  /** The CRC that closes the test data [41, 42, 43] with ETB. */
  lemma EtbVector(w: seq<byte>)
    requires w == [0x41, 0x42, 0x43, ETB]
    ensures Crc(w, 0) == 0xC204
    ensures BccBytes(0xC204) == [0x04, 0xC2]
  {
    assert UpdateByte(0, 0x41) == 0x30C0;
    assert UpdateByte(0x30C0, 0x42) == 0x61B0;
    assert UpdateByte(0x61B0, 0x43) == 0x4521;
    assert UpdateByte(0x4521, ETB) == 0xC204;
    CrcSteps(w, 0, 0x30C0, 0x61B0, 0x4521, 0xC204);
  }

  /** The makeFrameCommand test vectors with ETX: over [41 42 43], in
      either mode, the frame ends in the block check C5 19. */
  lemma CommandFrameExampleEtx(d: seq<byte>, t: bool)
    requires d == [0x41, 0x42, 0x43]
    ensures CommandFrame(d, true, t) == TextPrefix(t) + [0x41, 0x42, 0x43] + EndOfText(true, t) + [0xC5, 0x19]
  {
    CheckVector(d + [ETX]);
    CommandBccBoth(d, true, t);
  }

  /** The makeFrameCommand test vectors with ETB: over [41 42 43], in
      either mode, the frame ends in the block check 04 C2. */
  lemma CommandFrameExampleEtb(d: seq<byte>, t: bool)
    requires d == [0x41, 0x42, 0x43]
    ensures CommandFrame(d, false, t) == TextPrefix(t) + [0x41, 0x42, 0x43] + EndOfText(false, t) + [0x04, 0xC2]
  {
    EtbVector(d + [ETB]);
    CommandBccBoth(d, false, t);
  }

  /** For [41 42 43] either mode checks the data and the terminator. */
  lemma CommandBccBoth(d: seq<byte>, isLastBlock: bool, t: bool)
    requires d == [0x41, 0x42, 0x43]
    ensures BccInput(UnsealedCommand(d, isLastBlock, t)) == d + [Terminator(isLastBlock)]
  {
    assert forall i :: 0 <= i < |d| ==> d[i] != DLE && !IsTerminator(d[i] as int);
    if t {
      CommandBccTransparent(d, isLastBlock);
    } else {
      CommandBccNormal(d, isLastBlock);
    }
  }

  /** A poll or select frame over two address characters that are not BSC
      control characters, with its trailing pad as received, classifies as
      POLL_SELECT, and its address bytes hold no control character. */
  lemma PollSelectClassifies(cu: byte, dev: byte)
    requires cu !in ControlChars && dev !in ControlChars
    ensures var f := PollSelectFrame(cu, dev);
      FrameTypeOf(f + [TRAILING_PAD]) == PollSelect && !HasBscControlChar(Some(f[1..5]))
  {
    ControlEntry(cu);
    ControlEntry(dev);
    var f := PollSelectFrame(cu, dev);
    assert f[1..5] == [cu, cu, dev, dev];
  }

  /** The frames for table addresses classify so; the address characters
      are never mistaken for control characters. */
  lemma PollSelectFrameClassifies(cuAddress: int, devAddress: int, select: bool)
    requires 0 <= cuAddress < 32 && 0 <= devAddress < 32
    ensures var cu := if select then GetDeviceSelectChar(cuAddress) else GetDevicePollChar(cuAddress);
      var f := PollSelectFrame(cu, GetDevicePollChar(devAddress));
      FrameTypeOf(f + [TRAILING_PAD]) == PollSelect && !HasBscControlChar(Some(f[1..5]))
  {
    var cu := if select then GetDeviceSelectChar(cuAddress) else GetDevicePollChar(cuAddress);
    PollSelectClassifies(cu, GetDevicePollChar(devAddress));
  }

  /** getFrameType on a command frame: text, or transparent text in
      transparent mode, except where the block check mimics another class.
      A seven-byte frame whose low check byte is ENQ reads as POLL_SELECT,
      and a normal-mode frame whose check bytes are DLE STX reads as
      transparent text. */
  lemma CommandFrameClassifies(data: seq<byte>, isLastBlock: bool, t: bool)
    requires t || forall i :: 0 <= i < |data| ==> data[i] != DLE
    ensures var f := CommandFrame(data, isLastBlock, t);
      FrameTypeOf(f) == (if |f| == 7 && f[5] == ENQ then PollSelect
                         else if t || f[|f| - 2..] == [DLE, STX] then TransparentText
                         else Text)
  {
    var f := CommandFrame(data, isLastBlock, t);
    CommandFrameShape(data, isLastBlock, t);
    var p := |TextPrefix(t)|;
    assert f[..p][1] == f[1] && f[..p][2 % p] == f[2 % p];
    if !t {
      forall i | 0 <= i < |f| - 2
        ensures f[i] != DLE
      {
        if i < p {
          assert f[..p][i] == f[i];
        } else if i < p + |data| {
          assert f[p..p + |data|][i - p] == f[i];
        }
      }
      if f[|f| - 2..] == [DLE, STX] {
        assert f[|f| - 2] == DLE && f[|f| - 1] == STX;
      }
    }
  }

  /** The test vectors of the address factories. */
  lemma AddressFrameExamples()
    ensures PollSelectFrame(GetDeviceSelectChar(2), GetDevicePollChar(1)) == [SYN, 0xE2, 0xE2, 0xC1, 0xC1, ENQ]
    ensures PollSelectFrame(GetDeviceSelectChar(1), GetDevicePollChar(0)) == [SYN, 0x61, 0x61, 0x40, 0x40, ENQ]
    ensures PollSelectFrame(GetDevicePollChar(2), GetDevicePollChar(1)) == [SYN, 0xC2, 0xC2, 0xC1, 0xC1, ENQ]
  {
  }
}
