/** BscFrame (bsc-frame.js): a fixed-capacity byte buffer holding one BSC
    frame, with the appends that build frames and the scans that read them.
    Every method is proved against the value-level functions of BscFrameSpec. */
module BscFrames {
  import opened ByteTypes
  import opened BscProtocol
  import opened Crc16
  import opened BscFrameSpec

  /** The capacity of a frame made without an explicit size. */
  const DEFAULT_CAPACITY: nat := 300

  class BscFrame {
    /** The typed array itself; its length is the capacity. */
    var buf: array<byte>
    /** Number of bytes pushed so far. */
    var frameSize: nat
    /** Running CRC of the data appends. */
    var crcValue: bv16
    /** Set by the constructor and read by nothing. */
    var inTransparentText: bool
    /** The mode the data appends read and write; never initialised in the
        source, so it starts out falsy. */
    var transparentMode: bool
    /** Whether a terminator append is followed by the block check. */
    var autoInsertBcc: bool

    /** Content fits the capacity and the unused capacity is still zero. */
    ghost predicate Valid()
      reads this, buf
    {
      frameSize <= buf.Length && forall i :: frameSize <= i < buf.Length ==> buf[i] == 0
    }

    /** The frame's content, `this[0 .. frameSize)`. */
    function Bytes(): (r: seq<byte>)
      reads this, buf
      requires Valid()
      ensures |r| == frameSize
    {
      buf[..frameSize]
    }

    /** The state the data appends work on. */
    function State(): FrameState
      reads this, buf
      requires Valid()
    {
      FrameState(Bytes(), crcValue, transparentMode, autoInsertBcc)
    }

    /** `this[i]` as a number: content, then the zeros of unused capacity,
        and -1 for the undefined read past the capacity. */
    function Peek(i: int): (r: int)
      reads this, buf
      ensures -1 <= r < 256
    {
      if 0 <= i < buf.Length then buf[i] as int else -1
    }

    /** Comparing a read with a nonzero constant is the same as asking the
        content, since only zeros lie beyond it. */
    lemma PeekIs(i: int, c: byte)
      requires Valid() && c != 0
      ensures Peek(i) == c as int <==> ByteIs(Bytes(), i, c)
    {
    }

    /** `new BscFrame(size, initialData)`; None stands for a null size, which
        takes the length of the initial data. */
    constructor (size: Option<nat>, initialData: seq<byte>)
      requires |initialData| <= size.GetOr(|initialData|)
      ensures Valid() && fresh(buf)
      ensures buf.Length == size.GetOr(|initialData|)
      ensures State() == FrameState(initialData, 0, false, true)
      ensures !inTransparentText
    {
      buf := new byte[size.GetOr(|initialData|)](_ => 0);
      frameSize := 0;
      crcValue := 0;
      inTransparentText := false;
      transparentMode := false;
      autoInsertBcc := true;
      new;
      Push(initialData);
    }

    /** pushByte: store at frameSize and advance it. */
    method PushByte(b: byte)
      requires Valid() && frameSize < buf.Length
      modifies this`frameSize, buf
      ensures Valid()
      ensures Bytes() == old(Bytes()) + [b]
    {
      buf[frameSize] := b;
      frameSize := frameSize + 1;
      assert Bytes() == old(Bytes()) + [b];
    }

    /** The two pushes that close a block: the low byte of the check, then
        the high byte. */
    method PushBcc(bccValue: bv16)
      requires Valid() && frameSize + 2 <= buf.Length
      modifies this`frameSize, buf
      ensures Valid()
      ensures Bytes() == old(Bytes()) + BccBytes(bccValue)
    {
      PushByte(Lo(bccValue));
      PushByte(Hi(bccValue));
    }

    /** push of an array: every byte in order. */
    method Push(data: seq<byte>)
      requires Valid() && frameSize + |data| <= buf.Length
      modifies this`frameSize, buf
      ensures Valid()
      ensures Bytes() == old(Bytes()) + data
    {
      var x := 0;
      while x < |data|
        invariant 0 <= x <= |data|
        invariant Valid()
        invariant Bytes() == old(Bytes()) + data[..x]
      {
        PushByte(data[x]);
        x := x + 1;
        assert data[..x] == data[..x - 1] + [data[x - 1]];
      }
      assert data[..x] == data;
    }

    /** pushEscapedDataByte: DLE, then the byte, then the block check after
        a terminator. */
    method PushEscapedDataByte(b: byte)
      requires Valid() && frameSize + |EscapedAdded(State(), b)| <= buf.Length
      modifies this`frameSize, this`crcValue, this`transparentMode, buf
      ensures Valid()
      ensures State() == EscapedStep(old(State()), b)
    {
      ghost var e := State();
      PushByte(DLE);
      SwitchOnEscaped(b);
      PushByte(b);
      ghost var tail: seq<byte> := [];
      if autoInsertBcc && IsTerminator(b as int) {
        PushBcc(crcValue);
        tail := BccBytes(crcValue);
      }
      assert Bytes() == e.bytes + [DLE, b] + tail;
      EscapedStepFromParts(e, b, Bytes(), crcValue, transparentMode);
    }

    /** The register updates of pushEscapedDataByte: STX restarts the CRC
        and enters transparent mode; any other byte is folded in, and ETB,
        ITB, ENQ and ETX leave transparent mode. */
    method SwitchOnEscaped(b: byte)
      modifies this`crcValue, this`transparentMode
      ensures crcValue == if b == STX then 0 else UpdateByte(old(crcValue), b)
      ensures transparentMode <==>
        b == STX || (old(transparentMode) && b != ETB && b != ITB && b != ENQ && b != ETX)
    {
      if b == STX {
        crcValue := 0;
        transparentMode := true;
      } else {
        crcValue := UpdateByte(crcValue, b);
        if b == ETB || b == ITB || b == ENQ || b == ETX {
          transparentMode := false;
        }
      }
    }

    /** pushDataByte: the byte (a DLE twice in transparent text), then the
        block check after a terminator outside transparent text. */
    method PushDataByte(b: byte)
      requires Valid() && frameSize + |DataAdded(State(), b)| <= buf.Length
      modifies this`frameSize, this`crcValue, buf
      ensures Valid()
      ensures State() == DataStep(old(State()), b)
    {
      ghost var e := State();
      if !transparentMode && (b == SOH || b == STX) {
        crcValue := 0;
      } else {
        crcValue := UpdateByte(crcValue, b);
      }
      ghost var written := if e.transparent && b == DLE then [DLE, DLE] else [b];
      if transparentMode && b == DLE {
        PushByte(b);
      }
      PushByte(b);
      ghost var tail: seq<byte> := [];
      if autoInsertBcc && !transparentMode && IsTerminator(b as int) {
        PushBcc(crcValue);
        tail := BccBytes(crcValue);
      }
      assert Bytes() == e.bytes + written + tail;
      DataStepFromParts(e, b, Bytes(), crcValue);
    }

    /** findStartOfFrame. */
    static method FindStartOfFrame(frameData: seq<byte>) returns (idx: nat)
      ensures idx == StartOfFrame(frameData)
    {
      idx := 0;
      while idx < |frameData| - 1
        invariant idx <= |frameData|
        invariant StartFrom(frameData, idx) == StartOfFrame(frameData)
      {
        if frameData[idx] == LEADING_PAD || frameData[idx] == TRAILING_PAD
           || (frameData[idx] == SYN && frameData[idx + 1] == SYN) {
          idx := idx + 1;
        } else {
          break;
        }
      }
    }

    /** findEndOfFrame. */
    static method FindEndOfFrame(frameData: seq<byte>) returns (idx: int)
      ensures idx == EndOfFrame(frameData)
    {
      idx := |frameData| - 1;
      while idx > 0
        invariant -1 <= idx < |frameData|
        invariant |frameData| == 0 ==> idx == -1
        invariant |frameData| > 0 ==> 0 <= idx && EndFrom(frameData, idx) == EndOfFrame(frameData)
      {
        if frameData[idx] == TRAILING_PAD && frameData[idx - 1] == TRAILING_PAD {
          idx := idx - 1;
        } else {
          break;
        }
      }
    }

    /** createFrame: a fresh frame, sized to fit, holding the canonical slice. */
    static method CreateFrame(frameData: seq<byte>) returns (f: BscFrame)
      ensures fresh(f) && fresh(f.buf) && f.Valid()
      ensures f.State() == FrameState(Canonical(frameData), 0, false, true)
      ensures f.buf.Length == |Canonical(frameData)|
    {
      var startOfFrame := FindStartOfFrame(frameData);
      var endOfFrame := FindEndOfFrame(frameData);
      var slice := if startOfFrame <= endOfFrame then frameData[startOfFrame..endOfFrame + 1] else [];
      f := new BscFrame(None, slice);
    }

    /** getFrameType. The source tests ENQ twice; the second test can never
        succeed and is dropped. */
    method GetFrameType() returns (t: FrameType)
      requires Valid()
      ensures t == FrameTypeOf(Bytes())
    {
      PeekIs(1, EOT);
      PeekIs(1, ENQ);
      PeekIs(1, DLE);
      PeekIs(1, NAK);
      PeekIs(2, ACK0);
      PeekIs(2, ACK1);
      PeekIs(2, WACK);
      PeekIs(2, RVI);
      PeekIs(5, ENQ);
      if Peek(1) == EOT as int {
        return Eot;
      } else if Peek(1) == ENQ as int {
        return Enq;
      } else if Peek(1) == DLE as int && frameSize == 4 && (Peek(2) == ACK0 as int || Peek(2) == ACK1 as int) {
        return Ack;
      } else if Peek(1) == DLE as int && frameSize == 4 && Peek(2) == WACK as int {
        return Wack;
      } else if Peek(1) == DLE as int && frameSize == 4 && Peek(2) == RVI as int {
        return Rvi;
      } else if Peek(1) == NAK as int {
        return Nak;
      } else if frameSize == 7 && Peek(5) == ENQ as int {
        return PollSelect;
      }
      var x := 0;
      while x < frameSize - 1
        invariant 0 <= x <= frameSize
        invariant forall i :: 0 <= i < x && i < frameSize - 1 ==> !(buf[i] == DLE && buf[i + 1] == STX)
      {
        if buf[x] == DLE && buf[x + 1] == STX {
          assert Bytes()[x] == DLE && Bytes()[x + 1] == STX;
          return TransparentText;
        }
        x := x + 1;
      }
      assert !HasDleStx(Bytes());
      x := 0;
      while x < frameSize
        invariant 0 <= x <= frameSize
        invariant forall i :: 0 <= i < x ==> buf[i] != STX
      {
        if buf[x] == STX {
          assert Bytes()[x] == STX;
          return Text;
        }
        x := x + 1;
      }
      assert STX !in Bytes();
      return Bad;
    }

    /** hasHeader: whether an SOH lies within the content. */
    method HasHeader() returns (r: bool)
      requires Valid()
      ensures r <==> SOH in Bytes()
    {
      var x := 0;
      while x < frameSize
        invariant 0 <= x <= frameSize
        invariant forall i :: 0 <= i < x ==> buf[i] != SOH
      {
        if buf[x] == SOH {
          assert Bytes()[x] == SOH;
          return true;
        }
        x := x + 1;
      }
      assert SOH !in Bytes();
      return false;
    }

    /** forEachTextByte: the bytes handed to the callback, in call order. */
    method ForEachTextByte() returns (text: seq<byte>)
      requires Valid()
      ensures text == TextBytes(Bytes())
    {
      var inText := false;
      var transparentText := false;
      text := [];
      var x := 0;
      while x < frameSize
        invariant text + TextFrom(Bytes(), x, inText, transparentText) == TextBytes(Bytes())
        decreases frameSize - x
      {
        var reported;
        x, inText, transparentText, reported := TextStep(x, inText, transparentText);
        text := text + reported;
      }
    }

    /** One pass of forEachTextByte's loop at index x: the byte reported
        (if any), the new scanner state and the next index. */
    method TextStep(x: nat, inText: bool, transparentText: bool)
      returns (next: nat, inText': bool, transparentText': bool, reported: seq<byte>)
      requires Valid() && x < frameSize
      ensures next > x
      ensures reported + TextFrom(Bytes(), next, inText', transparentText')
        == TextFrom(Bytes(), x, inText, transparentText)
    {
      inText', transparentText', reported := inText, transparentText, [];
      if !inText {
        if buf[x] == STX {
          inText' := true;
          if x >= 1 && buf[x - 1] == DLE {
            transparentText' := true;
          }
          return x + 1, inText', transparentText', reported;
        }
      } else {
        if !transparentText {
          if IsTerminator(buf[x] as int) {
            inText' := false;
          }
        } else if x < frameSize - 1 && buf[x] == DLE && IsTerminator(buf[x + 1] as int) {
          inText' := false;
        }
      }
      next := x;
      if inText' {
        if transparentText && buf[x] == DLE {
          PeekIs(x + 1, DLE);
          PeekIs(x + 1, SYN);
          var peeked := Peek(x + 1);
          if peeked == DLE as int {
            next := x + 1;
          } else if peeked == SYN as int {
            return x + 3, inText', transparentText', reported;
          }
        }
        reported := [buf[next]];
      }
      next := next + 1;
    }

    /** The first scan of findStartEndForBcc: to the first STX or SOH. */
    method ScanToStxOrSoh() returns (ptr: nat)
      requires Valid() && STX in Bytes()
      ensures ptr == FirstStxOrSoh(Bytes(), 0)
    {
      ghost var s := Bytes();
      ghost var first := FirstStxOrSoh(s, 0);
      ptr := 0;
      while buf[ptr] != STX && buf[ptr] != SOH
        invariant ptr <= first
        decreases first - ptr
      {
        assert s[ptr] == buf[ptr];
        ptr := ptr + 1;
      }
      assert ptr == first;
    }

    /** The header scan of findStartEndForBcc: from after the SOH to the
        next STX, of which k is one. */
    method ScanToStx(from: nat, ghost k: nat) returns (ptr: nat)
      requires Valid() && from <= k < frameSize && Bytes()[k] == STX
      ensures ptr == FirstStx(Bytes(), from)
    {
      ghost var s := Bytes();
      ghost var stx := FirstStx(s, from);
      ptr := from;
      while buf[ptr] != STX
        invariant from <= ptr <= stx
        decreases stx - ptr
      {
        assert s[ptr] == buf[ptr];
        ptr := ptr + 1;
      }
      assert ptr == stx;
    }

    /** The end scans of findStartEndForBcc, transparent or not, capped at frameSize. */
    method ScanToEnd(from: nat, transparent: bool) returns (ptr: nat)
      requires Valid() && 1 <= from <= frameSize
      ensures ptr == EndScan(Bytes(), from, transparent)
    {
      ghost var s := Bytes();
      ptr := from;
      if transparent {
        ghost var stop := ScanTransparentEnd(s, from);
        while Peek(ptr - 1) != DLE as int && !IsTerminator(Peek(ptr)) && ptr < frameSize
          invariant from <= ptr <= stop
          decreases stop - ptr
        {
          ptr := ptr + 1;
        }
        assert ptr == stop;
      } else {
        ghost var stop := ScanTerminator(s, from);
        while !IsTerminator(Peek(ptr)) && ptr < frameSize
          invariant from <= ptr <= stop
          decreases stop - ptr
        {
          ptr := ptr + 1;
        }
        assert ptr == stop;
      }
    }

    /** findStartEndForBcc. Both unbounded scans stop because an STX is
        present: the first at the first STX or SOH, the second at the STX
        that must follow an SOH. */
    method FindStartEndForBcc() returns (w: BccWindow)
      requires Valid() && STX in Bytes()
      ensures w == BccWindowOf(Bytes())
    {
      var ptr := ScanToStxOrSoh();
      if buf[ptr] == SOH {
        w := WindowAfterHeader(ptr);
      } else {
        w := WindowAfterStx(ptr);
      }
    }

    /** findStartEndForBcc after an SOH at p: the window starts after it and
        its mode is read at the STX that follows. */
    method WindowAfterHeader(p: nat) returns (w: BccWindow)
      requires Valid() && STX in Bytes() && p == FirstStxOrSoh(Bytes(), 0) && buf[p] == SOH
      ensures w == BccWindowOf(Bytes())
    {
      ghost var s := Bytes();
      var transparent := false;
      var startOfCalc := p + 1;
      StxAfterHeader(s, p);
      ghost var k := FirstStx(s, p + 1);
      var ptr := ScanToStx(startOfCalc, k);
      assert buf[ptr - 1] == s[ptr - 1];
      if buf[ptr - 1] == DLE {
        transparent := true;
      }
      ptr := ScanToEnd(ptr, transparent);
      w := BccWindow(startOfCalc, ptr, transparent);
      BccWindowWithHeader(s, p, k);
    }

    /** findStartEndForBcc after an STX at p: the window starts after it, in
        transparent mode when a DLE precedes it. */
    method WindowAfterStx(p: nat) returns (w: BccWindow)
      requires Valid() && STX in Bytes() && p == FirstStxOrSoh(Bytes(), 0) && buf[p] != SOH
      ensures w == BccWindowOf(Bytes())
    {
      ghost var s := Bytes();
      var transparent := false;
      PeekIs(p as int - 1, DLE);
      if Peek(p as int - 1) == DLE as int {
        transparent := true;
      }
      var startOfCalc := p + 1;
      var ptr := ScanToEnd(startOfCalc, transparent);
      w := BccWindow(startOfCalc, ptr, transparent);
      BccWindowWithoutHeader(s, p);
    }

    /** addBcc: append the block check, low byte then high byte. */
    method AddBcc()
      requires Valid() && STX in Bytes() && frameSize + 2 <= buf.Length
      modifies this`frameSize, buf
      ensures Valid()
      ensures Bytes() == old(Bytes()) + BccBytes(BccValueOf(old(Bytes())))
    {
      ghost var s := Bytes();
      var w := FindStartEndForBcc();
      assert buf[w.startOfCalc..w.endOfCalc] == s[w.startOfCalc..w.endOfCalc];
      assert buf[w.endOfCalc] == ByteOrZero(s, w.endOfCalc);
      var bccValue: bv16;
      if w.transparentMode {
        var calcData := buf[w.startOfCalc..w.endOfCalc];
        if |calcData| > 0 {
          calcData := calcData[..|calcData| - 1] + [buf[w.endOfCalc]];
        }
        bccValue := Crc(calcData, 0);
      } else {
        assert buf[w.startOfCalc..w.endOfCalc + 1] == buf[w.startOfCalc..w.endOfCalc] + [buf[w.endOfCalc]];
        bccValue := Crc(buf[w.startOfCalc..w.endOfCalc + 1], 0);
      }
      assert bccValue == BccValueOf(s);
      PushBcc(bccValue);
    }
  }

  /** ResponseBscFrame: a frame received in answer, which may carry a status
      (such as RESPONSE_TIMEOUT) in place of its content. */
  class ResponseBscFrame {
    const frame: BscFrame
    const responseStatus: Option<int>

    /** `new ResponseBscFrame(initialData, responseStatus)`: a frame sized to
        the data; a null initial data is the empty sequence. */
    constructor (initialData: seq<byte>, responseStatus: Option<int>)
      ensures fresh(frame) && fresh(frame.buf) && frame.Valid()
      ensures frame.State() == FrameState(initialData, 0, false, true)
      ensures this.responseStatus == responseStatus
    {
      frame := new BscFrame(None, initialData);
      this.responseStatus := responseStatus;
    }

    /** getResponseStatus: a truthy status wins over the classification. */
    method GetResponseStatus() returns (r: int)
      requires frame.Valid()
      ensures responseStatus.Some? && responseStatus.value != 0 ==> r == responseStatus.value
      ensures responseStatus.None? || responseStatus.value == 0 ==> r == FrameTypeOf(frame.Bytes()).Code()
    {
      if responseStatus.Some? && responseStatus.value != 0 {
        return responseStatus.value;
      }
      var t := frame.GetFrameType();
      return t.Code();
    }
  }
}
