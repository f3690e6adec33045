/** Value-level specifications of the BSC frame codec (bsc-frame.js):
    pad/SYN stripping, classification, text extraction, the BCC window and
    the byte-by-byte encoder state. The class BscFrame in bsc_frame.dfy is
    proved against these functions. */
module BscFrameSpec {
  import opened ByteTypes
  import opened BscProtocol
  import opened Crc16

  /** `a[i] === c` for a byte sequence: false outside the sequence, where
      JavaScript reads 0 or undefined, neither of which is a BSC constant. */
  predicate ByteIs(s: seq<byte>, i: int, c: byte) {
    0 <= i < |s| && s[i] == c
  }

  /** The byte at `i`, or 0 for an index just past the content that a
      typed array of larger capacity still holds. */
  function ByteOrZero(s: seq<byte>, i: int): byte {
    if 0 <= i < |s| then s[i] else 0
  }

  // ---------------------------------------------------------------------
  // createFrame: canonical wire form

  /** A byte that findStartOfFrame skips: a leading or trailing pad, or a
      SYN directly followed by another SYN. */
  predicate IsLeadingFill(s: seq<byte>, i: int)
    requires 0 <= i < |s| - 1
  {
    s[i] == LEADING_PAD || s[i] == TRAILING_PAD || (s[i] == SYN && s[i + 1] == SYN)
  }

  /** The scan of findStartOfFrame from index i. */
  function StartFrom(s: seq<byte>, i: nat): (k: nat)
    requires i <= |s|
    ensures i <= k && (k == i || k <= |s| - 1)
    ensures forall j :: i <= j < k ==> j < |s| - 1 && IsLeadingFill(s, j)
    ensures k < |s| - 1 ==> !IsLeadingFill(s, k)
    decreases |s| - i
  {
    if i < |s| - 1 && IsLeadingFill(s, i) then StartFrom(s, i + 1) else i
  }

  /** findStartOfFrame: the first byte that is not fill, never past the final byte. */
  function StartOfFrame(s: seq<byte>): (k: nat)
    ensures |s| == 0 ==> k == 0
    ensures |s| > 0 ==> k <= |s| - 1
    ensures forall j :: 0 <= j < k ==> IsLeadingFill(s, j)
    ensures k < |s| - 1 ==> !IsLeadingFill(s, k)
  {
    StartFrom(s, 0)
  }

  /** A trailing pad that findEndOfFrame drops: a pad preceded by a pad. */
  predicate IsDoublePad(s: seq<byte>, i: int)
    requires 0 < i < |s|
  {
    s[i] == TRAILING_PAD && s[i - 1] == TRAILING_PAD
  }

  /** The scan of findEndOfFrame down from index i. */
  function EndFrom(s: seq<byte>, i: nat): (k: nat)
    requires i < |s|
    ensures k <= i
    ensures forall j :: k < j <= i ==> IsDoublePad(s, j)
    ensures k > 0 ==> !IsDoublePad(s, k)
  {
    if i > 0 && IsDoublePad(s, i) then EndFrom(s, i - 1) else i
  }

  /** findEndOfFrame: the index of the last byte kept, with a trailing run of
      pads cut to one pad; -1 for an empty input. */
  function EndOfFrame(s: seq<byte>): (k: int)
    ensures |s| == 0 ==> k == -1
    ensures |s| > 0 ==> 0 <= k < |s|
    ensures |s| > 0 ==> forall j :: k < j < |s| ==> IsDoublePad(s, j)
    ensures k > 0 ==> !IsDoublePad(s, k)
  {
    if |s| == 0 then -1 else EndFrom(s, |s| - 1)
  }

  /** createFrame's content: `subarray(start, end + 1)`, empty when the two
      scans cross. */
  function Canonical(s: seq<byte>): (r: seq<byte>)
    ensures StartOfFrame(s) <= EndOfFrame(s) ==> r == s[StartOfFrame(s)..EndOfFrame(s) + 1]
    ensures StartOfFrame(s) > EndOfFrame(s) ==> r == []
  {
    var a, b := StartOfFrame(s), EndOfFrame(s);
    if a <= b then s[a..b + 1] else []
  }

  /** Stripping is idempotent: a canonical frame is returned unchanged. */
  lemma CanonicalIdempotent(s: seq<byte>)
    ensures Canonical(Canonical(s)) == Canonical(s)
  {
    var c := Canonical(s);
    var a, b := StartOfFrame(s), EndOfFrame(s);
    if a <= b {
      assert |c| == b + 1 - a;
      // The first byte of c is where the forward scan stopped.
      if |c| > 1 {
        assert c[0] == s[a] && c[1] == s[a + 1];
        assert a < |s| - 1;
        assert !IsLeadingFill(s, a);
        assert !IsLeadingFill(c, 0);
      }
      assert StartOfFrame(c) == 0;
      // The last byte of c is where the backward scan stopped.
      if |c| > 1 {
        assert c[|c| - 1] == s[b] && c[|c| - 2] == s[b - 1];
        assert !IsDoublePad(s, b);
        assert !IsDoublePad(c, |c| - 1);
      }
      assert EndOfFrame(c) == |c| - 1;
      assert c[0..|c|] == c;
    }
  }

  /** The test vectors of createFrame. */
  lemma CanonicalExamples()
    ensures Canonical([EOT]) == [EOT]
    ensures Canonical([SYN, EOT]) == [SYN, EOT]
    ensures Canonical([SYN, SYN, EOT, TRAILING_PAD, TRAILING_PAD]) == [SYN, EOT, TRAILING_PAD]
    ensures Canonical([LEADING_PAD, SYN, EOT]) == [SYN, EOT]
    ensures Canonical([]) == []
  {
    var s := [SYN, SYN, EOT, TRAILING_PAD, TRAILING_PAD];
    assert !IsLeadingFill(s, 1) && StartFrom(s, 1) == 1;
    assert IsLeadingFill(s, 0) && StartFrom(s, 0) == 1;
    assert !IsDoublePad(s, 3) && EndFrom(s, 3) == 3;
    assert IsDoublePad(s, 4) && EndFrom(s, 4) == 3;
    var u := [LEADING_PAD, SYN, EOT];
    assert !IsLeadingFill(u, 1) && StartFrom(u, 1) == 1;
    assert StartFrom(u, 0) == 1;
  }

  // ---------------------------------------------------------------------
  // pushEscapedDataByte and pushDataByte

  /** The part of a frame the encoding appends depend on: the content, the
      running CRC, the transparent-mode flag and the auto-BCC switch. */
  datatype FrameState = FrameState(bytes: seq<byte>, crc: bv16, transparent: bool, autoBcc: bool)

  /** The CRC after pushEscapedDataByte(b): STX restarts it, any other byte is folded in. */
  function EscapedCrc(e: FrameState, b: byte): bv16 {
    if b == STX then 0 else UpdateByte(e.crc, b)
  }

  /** The bytes pushEscapedDataByte(b) appends: DLE, the byte, and the block
      check after a terminator when auto-BCC is on. */
  function EscapedAdded(e: FrameState, b: byte): (r: seq<byte>)
    ensures |r| == (if e.autoBcc && IsTerminator(b as int) then 4 else 2)
    ensures r[..2] == [DLE, b]
  {
    [DLE, b] + (if e.autoBcc && IsTerminator(b as int) then BccBytes(EscapedCrc(e, b)) else [])
  }

  /** pushEscapedDataByte(b) on the frame state. */
  function EscapedStep(e: FrameState, b: byte): FrameState {
    var mode := if b == STX then true
                else if b == ETB || b == ITB || b == ENQ || b == ETX then false
                else e.transparent;
    FrameState(e.bytes + EscapedAdded(e, b), EscapedCrc(e, b), mode, e.autoBcc)
  }

  /** The CRC after pushDataByte(b): outside transparent text SOH and STX
      restart it; every other byte is folded in. */
  function DataCrc(e: FrameState, b: byte): bv16 {
    if !e.transparent && (b == SOH || b == STX) then 0 else UpdateByte(e.crc, b)
  }

  /** The bytes pushDataByte(b) appends: the byte (a DLE twice in
      transparent text), and the block check after a terminator outside
      transparent text when auto-BCC is on. */
  function DataAdded(e: FrameState, b: byte): (r: seq<byte>)
    ensures |r| >= 1 && r[0] == b
  {
    (if e.transparent && b == DLE then [DLE, DLE] else [b])
    + (if e.autoBcc && !e.transparent && IsTerminator(b as int) then BccBytes(DataCrc(e, b)) else [])
  }

  /** pushDataByte(b) on the frame state. */
  function DataStep(e: FrameState, b: byte): FrameState {
    FrameState(e.bytes + DataAdded(e, b), DataCrc(e, b), e.transparent, e.autoBcc)
  }

  /** pushDataByte over a whole sequence, in order. */
  function DataSteps(e: FrameState, data: seq<byte>): FrameState
    decreases |data|
  {
    if data == [] then e else DataSteps(DataStep(e, data[0]), data[1..])
  }

  /** A state assembled from the parts of pushEscapedDataByte is its step. */
  lemma EscapedStepFromParts(e: FrameState, b: byte, bytes: seq<byte>, crc: bv16, mode: bool)
    requires crc == if b == STX then 0 else UpdateByte(e.crc, b)
    requires mode <==> b == STX || (e.transparent && b != ETB && b != ITB && b != ENQ && b != ETX)
    requires bytes == e.bytes + [DLE, b] + (if e.autoBcc && IsTerminator(b as int) then BccBytes(crc) else [])
    ensures FrameState(bytes, crc, mode, e.autoBcc) == EscapedStep(e, b)
  {
  }

  /** A state assembled from the parts of pushDataByte is its step. */
  lemma DataStepFromParts(e: FrameState, b: byte, bytes: seq<byte>, crc: bv16)
    requires crc == if !e.transparent && (b == SOH || b == STX) then 0 else UpdateByte(e.crc, b)
    requires bytes == e.bytes + (if e.transparent && b == DLE then [DLE, DLE] else [b])
                      + (if e.autoBcc && !e.transparent && IsTerminator(b as int) then BccBytes(crc) else [])
    ensures FrameState(bytes, crc, e.transparent, e.autoBcc) == DataStep(e, b)
  {
  }

  /** The escaped append writes DLE and the byte, adds the block check
      (low byte first) exactly after a terminator with auto-BCC, and
      enters transparent mode exactly on STX or stays in it for a byte
      other than ETB, ITB, ENQ and ETX. */
  lemma EscapedStepFacts(e: FrameState, b: byte)
    ensures |EscapedStep(e, b).bytes| >= |e.bytes| + 2
    ensures EscapedStep(e, b).bytes[..|e.bytes|] == e.bytes
    ensures EscapedStep(e, b).bytes[|e.bytes|..|e.bytes| + 2] == [DLE, b]
    ensures e.autoBcc && IsTerminator(b as int) ==>
      |EscapedStep(e, b).bytes| == |e.bytes| + 4
      && EscapedStep(e, b).bytes[|e.bytes| + 2] as int == (EscapedStep(e, b).crc as int) % 256
      && EscapedStep(e, b).bytes[|e.bytes| + 3] as int == (EscapedStep(e, b).crc as int) / 256
    ensures !(e.autoBcc && IsTerminator(b as int)) ==> |EscapedStep(e, b).bytes| == |e.bytes| + 2
    ensures EscapedStep(e, b).transparent <==>
      b == STX || (e.transparent && b != ETB && b != ITB && b != ENQ && b != ETX)
    ensures EscapedStep(e, b).crc == if b == STX then 0 else UpdateByte(e.crc, b)
  {
    var r := EscapedStep(e, b).bytes;
    assert r == e.bytes + EscapedAdded(e, b);
  }

  /** The data append: outside transparent text SOH and STX restart the CRC
      without folding; in transparent text a DLE is written twice but
      folded once; the block check follows a terminator only outside
      transparent text. The mode never changes. */
  lemma DataStepFacts(e: FrameState, b: byte)
    ensures |DataStep(e, b).bytes| > |e.bytes|
    ensures DataStep(e, b).bytes[..|e.bytes|] == e.bytes
    ensures DataStep(e, b).transparent == e.transparent
    ensures e.transparent && b == DLE ==>
      DataStep(e, b).bytes == e.bytes + [DLE, DLE] && DataStep(e, b).crc == UpdateByte(e.crc, DLE)
    ensures !e.transparent && (b == SOH || b == STX) ==>
      DataStep(e, b).bytes == e.bytes + [b] && DataStep(e, b).crc == 0
    ensures e.autoBcc && !e.transparent && IsTerminator(b as int) ==>
      DataStep(e, b).bytes == e.bytes + [b] + BccBytes(UpdateByte(e.crc, b))
    ensures !(e.autoBcc && !e.transparent && IsTerminator(b as int)) && !(e.transparent && b == DLE) ==>
      DataStep(e, b).bytes == e.bytes + [b]
  {
    var r := DataStep(e, b).bytes;
    assert r == e.bytes + DataAdded(e, b);
  }

  // ---------------------------------------------------------------------
  // getFrameType

  /** The frame classes of getFrameType. */
  datatype FrameType =
    | Eot | Enq | Ack | Nak | Wack | Rvi | PollSelect | Text | TransparentText | Bad
  {
    /** The numeric FRAME_TYPE_* constant of each class. */
    function Code(): (c: int)
      ensures c == -1 <==> this == Bad
      ensures this != Bad ==> 1 <= c <= 10
    {
      match this
      case Eot => 1
      case Enq => 2
      case Ack => 3
      case Nak => 4
      case Wack => 5
      case Rvi => 6
      case PollSelect => 7
      case Text => 9
      case TransparentText => 10
      case Bad => -1
    }
  }

  /** RESPONSE_TIMEOUT and RESPONSE_OTHER_ERROR, the statuses a response
      frame may carry in place of a classification. */
  const RESPONSE_TIMEOUT: int := -2
  const RESPONSE_OTHER_ERROR: int := -99

  /** Some DLE is directly followed by STX. */
  predicate HasDleStx(s: seq<byte>) {
    exists i :: 0 <= i < |s| - 1 && s[i] == DLE && s[i + 1] == STX
  }

  /** The classification getFrameType makes, test by test in its order. */
  function FrameTypeOf(s: seq<byte>): (t: FrameType)
    ensures t == Text ==> STX in s && !HasDleStx(s)
    ensures t == TransparentText ==> STX in s
    ensures t == Bad ==> STX !in s
  {
    if ByteIs(s, 1, EOT) then Eot
    else if ByteIs(s, 1, ENQ) then Enq
    else if ByteIs(s, 1, DLE) && |s| == 4 && (s[2] == ACK0 || s[2] == ACK1) then Ack
    else if ByteIs(s, 1, DLE) && |s| == 4 && s[2] == WACK then Wack
    else if ByteIs(s, 1, DLE) && |s| == 4 && s[2] == RVI then Rvi
    else if ByteIs(s, 1, NAK) then Nak
    else if |s| == 7 && s[5] == ENQ then PollSelect
    else if HasDleStx(s) then TransparentText
    else if STX in s then Text
    else Bad
  }

  /** The classifications shown for the frames the factories build. */
  lemma FrameTypeExamples()
    ensures FrameTypeOf([SYN, EOT]) == Eot
    ensures FrameTypeOf([SYN, DLE, ACK0, TRAILING_PAD]) == Ack
    ensures FrameTypeOf([SYN, DLE, ACK1, TRAILING_PAD]) == Ack
    ensures FrameTypeOf([SYN, DLE, WACK, TRAILING_PAD]) == Wack
    ensures FrameTypeOf([SYN, DLE, RVI, TRAILING_PAD]) == Rvi
    ensures FrameTypeOf([SYN, NAK, TRAILING_PAD]) == Nak
    ensures FrameTypeOf([SYN, 0x40, 0x40, 0x40, 0x40, ENQ, TRAILING_PAD]) == PollSelect
    ensures FrameTypeOf([SYN, STX, 0x40, ETX, 0x00, 0x00]) == Text
    ensures FrameTypeOf([SYN, DLE, STX, 0x40, DLE, ETX, 0x00, 0x00]) == TransparentText
    ensures FrameTypeOf([SYN, 0x40, TRAILING_PAD]) == Bad
  {
    var t := [SYN, DLE, STX, 0x40, DLE, ETX, 0x00, 0x00];
    assert t[1] == DLE && t[2] == STX;
    var n := [SYN, STX, 0x40, ETX, 0x00, 0x00];
    assert n[1] == STX;
    var b: seq<byte> := [SYN, 0x40, TRAILING_PAD];
    assert forall i :: 0 <= i < |b| ==> b[i] != STX;
  }

  // ---------------------------------------------------------------------
  // forEachTextByte

  /** The bytes forEachTextByte hands to its callback from index x on, in
      the given scanner state. A text block opens at every STX seen outside
      text, and is transparent for the rest of the frame once a DLE has
      preceded such an STX. */
  function TextFrom(s: seq<byte>, x: nat, inText: bool, transparent: bool): seq<byte>
    decreases |s| - x
  {
    if x >= |s| then []
    else if !inText then
      if s[x] == STX then TextFrom(s, x + 1, true, transparent || ByteIs(s, x - 1, DLE))
      else TextFrom(s, x + 1, false, transparent)
    else if !transparent then
      if IsTerminator(s[x] as int) then TextFrom(s, x + 1, false, false)
      else [s[x]] + TextFrom(s, x + 1, true, false)
    else if s[x] == DLE && x < |s| - 1 && IsTerminator(s[x + 1] as int) then
      TextFrom(s, x + 1, false, true)
    else if s[x] == DLE && ByteIs(s, x + 1, DLE) then [DLE] + TextFrom(s, x + 2, true, true)
    else if s[x] == DLE && ByteIs(s, x + 1, SYN) then TextFrom(s, x + 3, true, true)
    else [s[x]] + TextFrom(s, x + 1, true, true)
  }

  /** Everything forEachTextByte reports for a frame, in order. */
  function TextBytes(s: seq<byte>): seq<byte> {
    TextFrom(s, 0, false, false)
  }

  /** Outside text nothing is reported until the next STX. */
  lemma {:induction false} TextFromSkipsToStx(s: seq<byte>, x: nat, transparent: bool)
    requires x <= |s|
    requires forall i :: x <= i < |s| ==> s[i] != STX
    ensures TextFrom(s, x, false, transparent) == []
    decreases |s| - x
  {
    if x < |s| {
      TextFromSkipsToStx(s, x + 1, transparent);
    }
  }

  /** A frame without STX has no text. */
  lemma NoStxNoText(s: seq<byte>)
    requires STX !in s
    ensures TextBytes(s) == []
  {
    TextFromSkipsToStx(s, 0, false);
  }

  // ---------------------------------------------------------------------
  // findStartEndForBcc and addBcc

  /** The scan for the first STX or SOH from p, which STX's presence bounds. */
  function FirstStxOrSoh(s: seq<byte>, p: nat): (k: nat)
    requires p <= |s|
    requires exists i :: p <= i < |s| && s[i] == STX
    ensures p <= k < |s| && (s[k] == STX || s[k] == SOH)
    ensures forall i :: p <= i < k ==> s[i] != STX && s[i] != SOH
    decreases |s| - p
  {
    if s[p] == STX || s[p] == SOH then p else FirstStxOrSoh(s, p + 1)
  }

  /** The scan for the first STX from p. */
  function FirstStx(s: seq<byte>, p: nat): (k: nat)
    requires p <= |s|
    requires exists i :: p <= i < |s| && s[i] == STX
    ensures p <= k < |s| && s[k] == STX
    ensures forall i :: p <= i < k ==> s[i] != STX
    decreases |s| - p
  {
    if s[p] == STX then p else FirstStx(s, p + 1)
  }

  /** The end scan of normal text: the first terminator from p, or the end. */
  function ScanTerminator(s: seq<byte>, p: nat): (k: nat)
    requires p <= |s|
    ensures p <= k <= |s|
    ensures k < |s| ==> IsTerminator(s[k] as int)
    ensures forall i :: p <= i < k ==> !IsTerminator(s[i] as int)
    decreases |s| - p
  {
    if p == |s| || IsTerminator(s[p] as int) then p else ScanTerminator(s, p + 1)
  }

  /** The end scan of transparent text: the first position from p that
      follows a DLE or holds a terminator, or the end. */
  function ScanTransparentEnd(s: seq<byte>, p: nat): (k: nat)
    requires 1 <= p <= |s|
    ensures p <= k <= |s|
    ensures k < |s| ==> s[k - 1] == DLE || IsTerminator(s[k] as int)
    ensures forall i :: p - 1 <= i < k - 1 ==> s[i] != DLE
    ensures forall i :: p <= i < k ==> !IsTerminator(s[i] as int)
    decreases |s| - p
  {
    if p == |s| || s[p - 1] == DLE || IsTerminator(s[p] as int) then p
    else ScanTransparentEnd(s, p + 1)
  }

  /** The end scan findStartEndForBcc runs from p in the given mode. */
  function EndScan(s: seq<byte>, p: nat, transparent: bool): (k: nat)
    requires 1 <= p <= |s|
    ensures p <= k <= |s|
  {
    if transparent then ScanTransparentEnd(s, p) else ScanTerminator(s, p)
  }

  /** The result of findStartEndForBcc. */
  datatype BccWindow = BccWindow(startOfCalc: nat, endOfCalc: nat, transparentMode: bool)

  /** findStartEndForBcc: the BCC covers the bytes after the SOH (header
      and text) or after the STX, and runs to the terminator scan's stop.
      Text is transparent when a DLE directly precedes the STX. */
  function BccWindowOf(s: seq<byte>): (w: BccWindow)
    requires STX in s
    ensures w.startOfCalc <= w.endOfCalc <= |s|
    ensures 1 <= w.startOfCalc
  {
    var p := FirstStxOrSoh(s, 0);
    if s[p] == SOH then
      var q := FirstStx(s, p + 1);
      var t := s[q - 1] == DLE;
      BccWindow(p + 1, EndScan(s, q, t), t)
    else
      var t := ByteIs(s, p - 1, DLE);
      BccWindow(p + 1, EndScan(s, p + 1, t), t)
  }

  /** An STX follows the first SOH when no STX precedes it. */
  lemma StxAfterHeader(s: seq<byte>, p: nat)
    requires STX in s && p == FirstStxOrSoh(s, 0) && s[p] == SOH
    ensures exists i :: p + 1 <= i < |s| && s[i] == STX
  {
    var i :| 0 <= i < |s| && s[i] == STX;
    assert p < i;
  }

  /** BccWindowOf when the first STX or SOH is an SOH at p, with an STX at k. */
  lemma BccWindowWithHeader(s: seq<byte>, p: nat, k: nat)
    requires STX in s && p == FirstStxOrSoh(s, 0) && s[p] == SOH
    requires p + 1 <= k < |s| && s[k] == STX
    ensures var q := FirstStx(s, p + 1);
      BccWindowOf(s) == BccWindow(p + 1, EndScan(s, q, s[q - 1] == DLE), s[q - 1] == DLE)
  {
  }

  /** BccWindowOf when the first STX or SOH is an STX at p. */
  lemma BccWindowWithoutHeader(s: seq<byte>, p: nat)
    requires STX in s && p == FirstStxOrSoh(s, 0) && s[p] == STX
    ensures BccWindowOf(s) == BccWindow(p + 1, EndScan(s, p + 1, ByteIs(s, p - 1, DLE)), ByteIs(s, p - 1, DLE))
  {
  }

  /** `calcData[calcData.length - 1] = x` on a copy; no effect on an empty one. */
  function ReplaceLast(s: seq<byte>, x: byte): (r: seq<byte>)
    ensures |r| == |s|
    ensures |s| > 0 ==> r == s[..|s| - 1] + [x]
  {
    if |s| == 0 then s else s[..|s| - 1] + [x]
  }

  /** The bytes addBcc runs the CRC over. The byte at endOfCalc is read from
      the buffer, so at the end of the content it is the 0 of unused capacity. */
  function BccInput(s: seq<byte>): seq<byte>
    requires STX in s
  {
    var w := BccWindowOf(s);
    var window := s[w.startOfCalc..w.endOfCalc];
    if w.transparentMode then ReplaceLast(window, ByteOrZero(s, w.endOfCalc))
    else window + [ByteOrZero(s, w.endOfCalc)]
  }

  /** The block check addBcc appends. */
  function BccValueOf(s: seq<byte>): bv16
    requires STX in s
  {
    Crc(BccInput(s), 0)
  }

  /** The windows of the plain-text BCC tests. */
  lemma PlainWindowExamples()
    ensures BccWindowOf([SYN, SYN, STX, 0x41, 0x42, ETX]) == BccWindow(3, 5, false)
    ensures BccWindowOf([SYN, SYN, STX, 0x41, 0x42, ITB]) == BccWindow(3, 5, false)
  {
    PlainWindow([SYN, SYN, STX, 0x41, 0x42, ETX]);
    PlainWindow([SYN, SYN, STX, 0x41, 0x42, ITB]);
  }

  /** A six-byte plain frame shaped like the tests: window 3 to 5. */
  lemma PlainWindow(a: seq<byte>)
    requires |a| == 6 && a[..3] == [SYN, SYN, STX] && a[3] == 0x41 && a[4] == 0x42
    requires IsTerminator(a[5] as int)
    ensures STX in a && BccWindowOf(a) == BccWindow(3, 5, false)
  {
    assert a[2] == STX;
    assert FirstStxOrSoh(a, 2) == 2 && FirstStxOrSoh(a, 0) == 2;
    assert ScanTerminator(a, 5) == 5 && ScanTerminator(a, 4) == 5 && ScanTerminator(a, 3) == 5;
  }

  /** The windows of the transparent-text BCC tests. */
  lemma TransparentWindowExamples()
    ensures BccWindowOf([SYN, SYN, DLE, STX, 0x41, 0x42, DLE, ETX]) == BccWindow(4, 7, true)
    ensures BccWindowOf([SYN, SYN, DLE, STX, 0x41, 0x42, DLE, ETB]) == BccWindow(4, 7, true)
  {
    TransparentWindow([SYN, SYN, DLE, STX, 0x41, 0x42, DLE, ETX]);
    TransparentWindow([SYN, SYN, DLE, STX, 0x41, 0x42, DLE, ETB]);
  }

  /** An eight-byte transparent frame shaped like the tests: window 4 to 7. */
  lemma TransparentWindow(b: seq<byte>)
    requires |b| == 8 && b[..4] == [SYN, SYN, DLE, STX] && b[4] == 0x41 && b[5] == 0x42
    requires b[6] == DLE && IsTerminator(b[7] as int)
    ensures STX in b && BccWindowOf(b) == BccWindow(4, 7, true)
  {
    assert b[3] == STX;
    assert FirstStxOrSoh(b, 3) == 3 && FirstStxOrSoh(b, 0) == 3;
    assert ScanTransparentEnd(b, 7) == 7 && ScanTransparentEnd(b, 6) == 7;
    assert ScanTransparentEnd(b, 5) == 7 && ScanTransparentEnd(b, 4) == 7;
  }

  /** The two header frames of the addBcc tests. */
  const HeaderFrameOne: seq<byte> := [SYN, SOH, 0x6C, 0xD9, STX, 0x40, 0x40, 0x40, 0x70, ETX]
  const HeaderFrameTwo: seq<byte> := [SYN, SOH, 0x6C, 0xD9, STX, 0x40, 0xC8, 0x40, 0x50, ETX]

  /** The window of a ten-byte header frame shaped like the test frames. */
  lemma HeaderFrameWindow(c: seq<byte>)
    requires |c| == 10 && c[0] == SYN && c[1] == SOH && c[4] == STX && c[9] == ETX
    requires c[2] == 0x6C && c[3] == 0xD9 && c[5] == 0x40 && c[7] == 0x40
    requires c[6] in {0x40, 0xC8} && c[8] in {0x70, 0x50}
    ensures STX in c && BccWindowOf(c) == BccWindow(2, 9, false)
    ensures BccInput(c) == c[2..10]
  {
    assert c[4] == STX;
    assert FirstStxOrSoh(c, 1) == 1 && FirstStxOrSoh(c, 0) == 1;
    assert FirstStx(c, 4) == 4 && FirstStx(c, 3) == 4 && FirstStx(c, 2) == 4;
    assert ScanTerminator(c, 9) == 9 && ScanTerminator(c, 8) == 9 && ScanTerminator(c, 7) == 9;
    assert ScanTerminator(c, 6) == 9 && ScanTerminator(c, 5) == 9 && ScanTerminator(c, 4) == 9;
    assert c[2..9] + [c[9]] == c[2..10];
  }

  /** The block check of the first header test frame is 3F 48, not the
      26 88 its test names (that test compares two frames whose pushes
      both overflow the capacity, so it holds either way). */
  lemma HeaderFrameOneBcc()
    ensures BccValueOf(HeaderFrameOne) == 0x483F
    ensures BccBytes(0x483F) == [0x3F, 0x48]
  {
    HeaderFrameWindow(HeaderFrameOne);
    var w: seq<byte> := [0x6C, 0xD9, STX, 0x40, 0x40, 0x40, 0x70, ETX];
    assert BccInput(HeaderFrameOne) == w;
    HeaderFrameOneCrc();
    BccBytesValue(0x483F);
  }

  /** The block check of the second header test frame is its test's 0D 28. */
  lemma HeaderFrameTwoBcc()
    ensures BccValueOf(HeaderFrameTwo) == 0x280D
    ensures BccBytes(0x280D) == [0x0D, 0x28]
  {
    HeaderFrameWindow(HeaderFrameTwo);
    var w: seq<byte> := [0x6C, 0xD9, STX, 0x40, 0xC8, 0x40, 0x50, ETX];
    assert BccInput(HeaderFrameTwo) == w;
    HeaderFrameTwoCrc();
    BccBytesValue(0x280D);
  }

  /** The CRC over the window of the first header test frame. */
  lemma HeaderFrameOneCrc()
    ensures Crc([0x6C, 0xD9, 0x02, 0x40, 0x40, 0x40, 0x70, 0x03], 0) == 0x483F
  {
    assert UpdateByte(0x0000, 0x6C) == 0x2D00;
    assert UpdateByte(0x2D00, 0xD9) == 0x9AEC;
    assert UpdateByte(0x9AEC, 0x02) == 0x4C1A;
    assert UpdateByte(0x4C1A, 0x40) == 0x3BCC;
    assert UpdateByte(0x3BCC, 0x40) == 0xA53A;
    assert UpdateByte(0xA53A, 0x40) == 0xE324;
    assert UpdateByte(0xE324, 0x70) == 0xFFE2;
    assert UpdateByte(0xFFE2, 0x03) == 0x483F;
    assert Crc([0x03], 0xFFE2) == 0x483F;
    assert Crc([0x70, 0x03], 0xE324) == 0x483F;
    assert Crc([0x40, 0x70, 0x03], 0xA53A) == 0x483F;
    assert Crc([0x40, 0x40, 0x70, 0x03], 0x3BCC) == 0x483F;
    assert Crc([0x40, 0x40, 0x40, 0x70, 0x03], 0x4C1A) == 0x483F;
    assert Crc([0x02, 0x40, 0x40, 0x40, 0x70, 0x03], 0x9AEC) == 0x483F;
    assert Crc([0xD9, 0x02, 0x40, 0x40, 0x40, 0x70, 0x03], 0x2D00) == 0x483F;
    assert Crc([0x6C, 0xD9, 0x02, 0x40, 0x40, 0x40, 0x70, 0x03], 0x0000) == 0x483F;
  }

  /** The CRC over the window of the second header test frame. */
  lemma HeaderFrameTwoCrc()
    ensures Crc([0x6C, 0xD9, 0x02, 0x40, 0xC8, 0x40, 0x50, 0x03], 0) == 0x280D
  {
    assert UpdateByte(0x0000, 0x6C) == 0x2D00;
    assert UpdateByte(0x2D00, 0xD9) == 0x9AEC;
    assert UpdateByte(0x9AEC, 0x02) == 0x4C1A;
    assert UpdateByte(0x4C1A, 0x40) == 0x3BCC;
    assert UpdateByte(0x3BCC, 0xC8) == 0xC33A;
    assert UpdateByte(0xC33A, 0x40) == 0xE342;
    assert UpdateByte(0xE342, 0x50) == 0x0D63;
    assert UpdateByte(0x0D63, 0x03) == 0x280D;
    assert Crc([0x03], 0x0D63) == 0x280D;
    assert Crc([0x50, 0x03], 0xE342) == 0x280D;
    assert Crc([0x40, 0x50, 0x03], 0xC33A) == 0x280D;
    assert Crc([0xC8, 0x40, 0x50, 0x03], 0x3BCC) == 0x280D;
    assert Crc([0x40, 0xC8, 0x40, 0x50, 0x03], 0x4C1A) == 0x280D;
    assert Crc([0x02, 0x40, 0xC8, 0x40, 0x50, 0x03], 0x9AEC) == 0x280D;
    assert Crc([0xD9, 0x02, 0x40, 0xC8, 0x40, 0x50, 0x03], 0x2D00) == 0x280D;
    assert Crc([0x6C, 0xD9, 0x02, 0x40, 0xC8, 0x40, 0x50, 0x03], 0x0000) == 0x280D;
  }
}
