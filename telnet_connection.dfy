/** The inbound side of TelnetConnection: splitting the byte stream from
    the host into terminal data and embedded Telnet commands (RFC 854),
    answering the terminal-type request (RFC 1091) and handing a record to
    the terminal handler at each END-OF-RECORD (RFC 885). The effect on the
    connection is described by value-level functions over a view of its
    state, against which the methods are proved. */
module TelnetConnections {
  import opened ByteTypes
  import opened TelnetOptions
  import opened TelnetOptionSets

  const CMD_EOR: byte := 0xEF
  const CMD_GA: byte := 0xF9
  const CMD_SB: byte := 0xFA
  const CMD_SE: byte := 0xF0

  /** The terminal-type option and its IS (0) and SEND (1) codes. */
  const OPTION_TERMINAL_TYPE_CODE: byte := 0x18
  const TERMINAL_TYPE_IS: byte := 0x00
  const TERMINAL_TYPE_SEND: byte := 0x01

  const TERMINAL_DATA_BUFFER_LENGTH: nat := 8192
  const DEFAULT_TERMINAL_TYPE: string := "IBM-3279-4-E"

  // ---------------------------------------------------------------------
  // The terminal-type reply

  /** A character as stored into a Uint8Array: its code modulo 256. */
  function CharByte(c: char): byte {
    ((c as int) % 256) as byte
  }

  function CharBytes(s: string): (r: seq<byte>)
    ensures |r| == |s| && forall i :: 0 <= i < |s| ==> r[i] == CharByte(s[i])
    decreases |s|
  {
    if s == [] then [] else [CharByte(s[0])] + CharBytes(s[1..])
  }

  /** IAC SB TERMINAL-TYPE IS, the name, IAC SE. */
  function TerminalTypeBytes(terminalType: string): seq<byte> {
    [CMD_IAC, CMD_SB, OPTION_TERMINAL_TYPE_CODE, TERMINAL_TYPE_IS] + CharBytes(terminalType) + [CMD_IAC, CMD_SE]
  }

  /** The reply is six bytes longer than the name: the four-byte head,
      the name's character codes, and IAC SE. */
  lemma TerminalTypeBytesShape(terminalType: string)
    ensures var r := TerminalTypeBytes(terminalType);
      && |r| == 6 + |terminalType|
      && r[..4] == [0xFF, 0xFA, 0x18, 0x00]
      && (forall i :: 0 <= i < |terminalType| ==> r[4 + i] == CharByte(terminalType[i]))
      && r[4 + |terminalType|..] == [0xFF, 0xF0]
  {
    var r := TerminalTypeBytes(terminalType);
    assert r[4 + |terminalType|..] == [CMD_IAC, CMD_SE];
  }

  /** Conversely, a buffer laid out so is the reply: the head, the name's
      codes and IAC SE determine it. */
  lemma TerminalTypeBytesFromParts(r: seq<byte>, terminalType: string)
    requires |r| == 6 + |terminalType|
    requires r[0] == CMD_IAC && r[1] == CMD_SB && r[2] == OPTION_TERMINAL_TYPE_CODE && r[3] == TERMINAL_TYPE_IS
    requires forall j :: 0 <= j < |terminalType| ==> r[4 + j] == CharByte(terminalType[j])
    requires r[4 + |terminalType|] == CMD_IAC && r[5 + |terminalType|] == CMD_SE
    ensures r == TerminalTypeBytes(terminalType)
  {
    var t := TerminalTypeBytes(terminalType);
    var n := |terminalType|;
    assert |t| == |r|;
    forall i | 0 <= i < |r|
      ensures r[i] == t[i]
    {
      if 4 <= i < 4 + n {
        assert t[i] == CharBytes(terminalType)[i - 4];
      }
    }
  }

  /** The terminal type "A1234" goes out as ff fa 18 00 41 31 32 33 34 ff f0. */
  lemma TerminalTypeExample()
    ensures TerminalTypeBytes("A1234") == [0xFF, 0xFA, 0x18, 0x00, 0x41, 0x31, 0x32, 0x33, 0x34, 0xFF, 0xF0]
  {
    assert CharBytes("A1234") == [0x41, 0x31, 0x32, 0x33, 0x34];
  }

  // ---------------------------------------------------------------------
  // The state the inbound parser changes

  /** What the parser changes: the bytes kept in the terminal buffer and
      its usedLength, the records handed to the terminal handler, the
      option registry and the buffers written to the socket. */
  datatype ConnView = ConnView(kept: seq<byte>, usedLength: nat, delivered: seq<seq<byte>>,
                               entries: seq<OptionEntry>, written: seq<seq<byte>>)

  function Min(a: nat, b: nat): nat {
    if a < b then a else b
  }

  /** The buffer holds the first usedLength bytes, at most its capacity. */
  predicate Consistent(v: ConnView) {
    |v.kept| == Min(v.usedLength, TERMINAL_DATA_BUFFER_LENGTH)
  }

  /** One terminal byte: stored at usedLength while there is room (a
      Uint8Array ignores a write past its end), and counted in any case. */
  function AppendTerminal(v: ConnView, b: byte): ConnView {
    v.(kept := if v.usedLength < TERMINAL_DATA_BUFFER_LENGTH then v.kept + [b] else v.kept,
       usedLength := v.usedLength + 1)
  }

  /** forwardTerminalReceivedDataBuffer: the stored bytes go to the
      terminal handler and a new empty buffer replaces the old one. */
  function Forward(v: ConnView): ConnView {
    v.(delivered := v.delivered + [v.kept], kept := [], usedLength := 0)
  }

  /** Whether an IAC SE pair starts at j. */
  predicate IacSeAt(s: seq<byte>, j: int) {
    0 <= j < |s| - 1 && s[j] == CMD_IAC && s[j + 1] == CMD_SE
  }

  /** The last IAC SE pair starting in [lo, hi). */
  function LastIacSe(s: seq<byte>, lo: nat, hi: nat): (r: Option<nat>)
    ensures r.Some? ==> lo <= r.value < hi && IacSeAt(s, r.value)
    ensures r.Some? ==> forall j :: r.value < j < hi ==> !IacSeAt(s, j)
    ensures r.None? ==> forall j :: lo <= j < hi ==> !IacSeAt(s, j)
    decreases hi
  {
    if hi <= lo then None
    else if IacSeAt(s, hi - 1) then Some(hi - 1)
    else LastIacSe(s, lo, hi - 1)
  }

  /** The scan in executeReceivedCommand for the end of a
      subnegotiation: it runs to the end of the buffer and keeps the last
      IAC SE it passes. */
  method FindLastIacSe(s: seq<byte>, lo: nat, hi: nat) returns (found: Option<nat>)
    ensures found == LastIacSe(s, lo, hi)
  {
    found := None;
    var endIdx := lo;
    while endIdx < hi
      invariant lo <= endIdx && (endIdx <= hi || endIdx == lo)
      invariant found == LastIacSe(s, lo, endIdx)
    {
      if endIdx < |s| - 1 && s[endIdx] == CMD_IAC && s[endIdx + 1] == CMD_SE {
        found := Some(endIdx);
      }
      endIdx := endIdx + 1;
    }
  }

  /** What executeReceivedCommand returns: a length, undefined (a
      subnegotiation never closed), or an exception (a negotiation command
      cut off before its option byte, read with readUint8). */
  datatype CommandSize = Length(n: nat) | Undefined | Throws

  datatype CommandStep = CommandStep(view: ConnView, size: CommandSize)

  /** executeCommandSB: a terminal-type SEND is answered with the terminal type. */
  function CommandSB(v: ConnView, s: seq<byte>, idx: nat, terminalType: string): ConnView {
    if At(s, idx + 2) == OPTION_TERMINAL_TYPE_CODE as int && At(s, idx + 3) == TERMINAL_TYPE_SEND as int
    then v.(written := v.written + [TerminalTypeBytes(terminalType)])
    else v
  }

  /** executeReceivedCommand for the IAC at idx. */
  function ExecuteCommand(v: ConnView, s: seq<byte>, idx: nat, terminalType: string): (st: CommandStep)
    ensures st.size.Length? ==> st.size.n >= 2
  {
    var code := At(s, idx + 1);
    if code == CMD_SB as int then
      var end := LastIacSe(s, idx + 2, |s| - 1);
      CommandStep(CommandSB(v, s, idx, terminalType), if end.Some? then Length(end.value + 2 - idx) else Undefined)
    else if code == CMD_SE as int then
      CommandStep(v, Length(2))
    else if code == CMD_WILL as int || code == CMD_DO as int || code == CMD_WONT as int || code == CMD_DONT as int then
      if idx + 2 >= |s| then CommandStep(v, Throws)
      else
        var r := ReceiveCommandSpec(v.entries, code as byte, s[idx + 2]);
        CommandStep(v.(entries := r.entries, written := v.written + r.writes), Length(3))
    else if code == CMD_EOR as int then
      CommandStep(Forward(v), Length(2))
    else
      CommandStep(v, Length(3))
  }

  /** How receivedData ends: normally, normally after an undefined
      command length stopped the loop, or with an exception. */
  datatype Outcome = Completed | Stopped | Threw

  datatype Received = Received(view: ConnView, outcome: Outcome)

  /** receivedData from index idx on: IAC and anything but IAC is a
      command, skipped by its length; IAC IAC is one 0xFF of data; any
      other byte is data. */
  function ReceivedFrom(v: ConnView, s: seq<byte>, idx: nat, terminalType: string): Received
    decreases |s| - idx
  {
    if idx >= |s| then Received(v, Completed)
    else if s[idx] == CMD_IAC && At(s, idx + 1) != CMD_IAC as int then
      var st := ExecuteCommand(v, s, idx, terminalType);
      match st.size
      case Throws => Received(st.view, Threw)
      case Undefined => Received(st.view, Stopped)
      case Length(n) => ReceivedFrom(st.view, s, idx + n, terminalType)
    else if s[idx] == CMD_IAC then
      ReceivedFrom(AppendTerminal(v, 0xFF), s, idx + 2, terminalType)
    else
      ReceivedFrom(AppendTerminal(v, s[idx]), s, idx + 1, terminalType)
  }

  /** Where the parse stands after a turn of the loop: still to run from
      idx, or ended with the outcome. */
  function Resumed(v: ConnView, s: seq<byte>, idx: nat, terminalType: string, outcome: Outcome): Received {
    if outcome == Completed then ReceivedFrom(v, s, idx, terminalType) else Received(v, outcome)
  }

  // ---------------------------------------------------------------------
  // Properties of the parser

  /** Every step keeps the buffer consistent with usedLength. */
  lemma {:induction false} ReceivedKeepsConsistent(v: ConnView, s: seq<byte>, idx: nat, terminalType: string)
    requires Consistent(v)
    ensures Consistent(ReceivedFrom(v, s, idx, terminalType).view)
    decreases |s| - idx
  {
    if idx < |s| {
      if s[idx] == CMD_IAC && At(s, idx + 1) != CMD_IAC as int {
        var st := ExecuteCommand(v, s, idx, terminalType);
        CommandKeepsConsistent(v, s, idx, terminalType);
        if st.size.Length? {
          ReceivedKeepsConsistent(st.view, s, idx + st.size.n, terminalType);
        }
      } else if s[idx] == CMD_IAC {
        ReceivedKeepsConsistent(AppendTerminal(v, 0xFF), s, idx + 2, terminalType);
      } else {
        ReceivedKeepsConsistent(AppendTerminal(v, s[idx]), s, idx + 1, terminalType);
      }
    }
  }

  /** A command leaves the buffer consistent with usedLength. */
  lemma CommandKeepsConsistent(v: ConnView, s: seq<byte>, idx: nat, terminalType: string)
    requires Consistent(v)
    ensures Consistent(ExecuteCommand(v, s, idx, terminalType).view)
  {
  }

  /** Data without IAC is appended in order while the buffer has room,
      and nothing else changes. */
  lemma {:induction false} PlainDataAppended(v: ConnView, s: seq<byte>, idx: nat, terminalType: string)
    requires idx <= |s| && CMD_IAC !in s[idx..]
    requires |v.kept| == v.usedLength && v.usedLength + |s| - idx <= TERMINAL_DATA_BUFFER_LENGTH
    ensures ReceivedFrom(v, s, idx, terminalType)
      == Received(v.(kept := v.kept + s[idx..], usedLength := v.usedLength + |s| - idx), Completed)
    decreases |s| - idx
  {
    if idx == |s| {
      assert v.kept + s[idx..] == v.kept;
    } else {
      assert s[idx] == s[idx..][0];
      assert s[idx + 1..] == s[idx..][1..];
      PlainDataAppended(AppendTerminal(v, s[idx]), s, idx + 1, terminalType);
      assert v.kept + [s[idx]] + s[idx + 1..] == v.kept + s[idx..];
    }
  }

  /** A doubled IAC is one 0xFF of terminal data. */
  lemma EscapedIac(v: ConnView, s: seq<byte>, idx: nat, terminalType: string)
    requires idx + 1 < |s| && s[idx] == CMD_IAC && s[idx + 1] == CMD_IAC
    ensures ReceivedFrom(v, s, idx, terminalType) == ReceivedFrom(AppendTerminal(v, 0xFF), s, idx + 2, terminalType)
  {
  }

  /** IAC EOR hands over exactly the stored bytes and empties the buffer. */
  lemma EndOfRecordForwards(v: ConnView, s: seq<byte>, idx: nat, terminalType: string)
    requires idx + 1 < |s| && s[idx] == CMD_IAC && s[idx + 1] == CMD_EOR
    ensures ReceivedFrom(v, s, idx, terminalType)
      == ReceivedFrom(v.(delivered := v.delivered + [v.kept], kept := [], usedLength := 0), s, idx + 2, terminalType)
  {
  }

  /** Past the buffer's capacity terminal bytes are counted but dropped. */
  lemma OverflowDropped(v: ConnView, b: byte)
    requires Consistent(v) && v.usedLength >= TERMINAL_DATA_BUFFER_LENGTH
    ensures AppendTerminal(v, b).kept == v.kept && AppendTerminal(v, b).usedLength == v.usedLength + 1
    ensures Consistent(AppendTerminal(v, b))
  {
  }

  /** A negotiation command is three bytes and is passed to the option
      registry with its option byte; one cut off before its option byte throws. */
  lemma NegotiationCommand(v: ConnView, s: seq<byte>, idx: nat, terminalType: string)
    requires idx + 1 < |s| && s[idx] == CMD_IAC && CMD_WILL <= s[idx + 1] <= CMD_DONT
    ensures idx + 2 < |s| ==>
      (ExecuteCommand(v, s, idx, terminalType)
       == CommandStep(v.(entries := ReceiveCommandSpec(v.entries, s[idx + 1], s[idx + 2]).entries,
                         written := v.written + ReceiveCommandSpec(v.entries, s[idx + 1], s[idx + 2]).writes), Length(3)))
    ensures idx + 2 == |s| ==> ExecuteCommand(v, s, idx, terminalType).size == Throws
  {
  }

  /** The subnegotiation length runs to the last IAC SE of the buffer:
      6 for ff fa 18 00 ff f0 at index 2 and 8 for ff fa 18 00 41 42 ff f0 at index 0. */
  lemma SubnegotiationExamples(v: ConnView, terminalType: string)
    ensures ExecuteCommand(v, [0x41, 0x42, 0xFF, 0xFA, 0x18, 0x00, 0xFF, 0xF0, 0x42], 2, terminalType)
      == CommandStep(v, Length(6))
    ensures ExecuteCommand(v, [0xFF, 0xFA, 0x18, 0x00, 0x41, 0x42, 0xFF, 0xF0, 0x42], 0, terminalType)
      == CommandStep(v, Length(8))
  {
    var a: seq<byte> := [0x41, 0x42, 0xFF, 0xFA, 0x18, 0x00, 0xFF, 0xF0, 0x42];
    assert !IacSeAt(a, 7) && IacSeAt(a, 6);
    assert LastIacSe(a, 4, 8) == Some(6);
    var b: seq<byte> := [0xFF, 0xFA, 0x18, 0x00, 0x41, 0x42, 0xFF, 0xF0, 0x42];
    assert !IacSeAt(b, 7) && IacSeAt(b, 6);
    assert LastIacSe(b, 2, 8) == Some(6);
  }

  /** Because the search for IAC SE does not stop at the first one, two
      terminal-type requests in one buffer are read as one command: it
      covers all twelve bytes and the terminal type is sent once. */
  lemma SubnegotiationRunsToLastEnd(v: ConnView, terminalType: string)
    ensures ExecuteCommand(v, [0xFF, 0xFA, 0x18, 0x01, 0xFF, 0xF0, 0xFF, 0xFA, 0x18, 0x01, 0xFF, 0xF0], 0, terminalType)
      == CommandStep(v.(written := v.written + [TerminalTypeBytes(terminalType)]), Length(12))
  {
    var a: seq<byte> := [0xFF, 0xFA, 0x18, 0x01, 0xFF, 0xF0, 0xFF, 0xFA, 0x18, 0x01, 0xFF, 0xF0];
    assert IacSeAt(a, 10);
    assert LastIacSe(a, 2, 11) == Some(10);
  }

  /** A subnegotiation without IAC SE has no length: receivedData stops there. */
  lemma UnterminatedSubnegotiationStops(v: ConnView, terminalType: string)
    ensures ReceivedFrom(v, [0x41, 0xFF, 0xFA, 0x18, 0x01, 0x42], 0, terminalType)
      == Received(CommandSB(AppendTerminal(v, 0x41), [0x41, 0xFF, 0xFA, 0x18, 0x01, 0x42], 1, terminalType), Stopped)
  {
    var a: seq<byte> := [0x41, 0xFF, 0xFA, 0x18, 0x01, 0x42];
    assert LastIacSe(a, 3, 5) == None;
  }

  /** The inbound test stream A B, IAC SB TERMINAL-TYPE SEND IAC SE, C D E, IAC EOR. */
  const RecordTestStream: seq<byte> := [0x41, 0x42, 0xFF, 0xFA, 0x18, 0x01, 0xFF, 0xF0, 0x43, 0x44, 0x45, 0xFF, 0xEF]

  /** On the test stream the terminal type is sent and A B C D E is handed
      on as one record after the bytes already stored. */
  lemma RecordExample(v: ConnView, terminalType: string)
    requires |v.kept| == v.usedLength && v.usedLength <= 100
    ensures ReceivedFrom(v, RecordTestStream, 0, terminalType)
      == Received(v.(kept := [], usedLength := 0,
                     delivered := v.delivered + [v.kept + [0x41, 0x42, 0x43, 0x44, 0x45]],
                     written := v.written + [TerminalTypeBytes(terminalType)]), Completed)
  {
    var v2 := AppendTerminal(AppendTerminal(v, 0x41), 0x42);
    var v3 := v2.(written := v2.written + [TerminalTypeBytes(terminalType)]);
    RecordHead(v, terminalType);
    RecordTail(v3, terminalType);
    assert v3.kept + [0x43, 0x44, 0x45] == v.kept + [0x41, 0x42, 0x43, 0x44, 0x45];
  }

  /** A B and the terminal-type request of the test stream. */
  lemma RecordHead(v: ConnView, terminalType: string)
    requires |v.kept| == v.usedLength && v.usedLength <= 100
    ensures var v2 := AppendTerminal(AppendTerminal(v, 0x41), 0x42);
      ReceivedFrom(v, RecordTestStream, 0, terminalType)
      == ReceivedFrom(v2.(written := v2.written + [TerminalTypeBytes(terminalType)]), RecordTestStream, 8, terminalType)
  {
    var v2 := AppendTerminal(AppendTerminal(v, 0x41), 0x42);
    assert ReceivedFrom(v, RecordTestStream, 0, terminalType) == ReceivedFrom(v2, RecordTestStream, 2, terminalType);
    RecordRequest(v2, terminalType);
  }

  /** The terminal-type request of the test stream runs to its only IAC SE. */
  lemma RecordRequest(v: ConnView, terminalType: string)
    ensures ReceivedFrom(v, RecordTestStream, 2, terminalType)
      == ReceivedFrom(v.(written := v.written + [TerminalTypeBytes(terminalType)]), RecordTestStream, 8, terminalType)
  {
    var s := RecordTestStream;
    assert IacSeAt(s, 6) && !IacSeAt(s, 7) && !IacSeAt(s, 8) && !IacSeAt(s, 9) && !IacSeAt(s, 10) && !IacSeAt(s, 11);
    assert LastIacSe(s, 4, 12) == Some(6);
    TerminalTypeRequest(v, s, 2, 6, terminalType);
  }

  /** C D E and IAC EOR of the test stream. */
  lemma RecordTail(w: ConnView, terminalType: string)
    requires |w.kept| == w.usedLength && w.usedLength <= 102
    ensures ReceivedFrom(w, RecordTestStream, 8, terminalType)
      == Received(w.(kept := [], usedLength := 0, delivered := w.delivered + [w.kept + [0x43, 0x44, 0x45]]), Completed)
  {
    var s := RecordTestStream;
    var w3 := AppendTerminal(AppendTerminal(AppendTerminal(w, 0x43), 0x44), 0x45);
    assert ReceivedFrom(w, s, 8, terminalType) == ReceivedFrom(w3, s, 11, terminalType);
    assert ReceivedFrom(w3, s, 11, terminalType) == Received(Forward(w3), Completed);
    assert w3.kept == w.kept + [0x43, 0x44, 0x45];
  }

  /** IAC SB TERMINAL-TYPE SEND is answered with the terminal type, and
      the parse goes on after the last IAC SE of the buffer. */
  lemma TerminalTypeRequest(v: ConnView, s: seq<byte>, idx: nat, end: nat, terminalType: string)
    requires idx + 3 < |s| && s[idx] == CMD_IAC && s[idx + 1] == CMD_SB
    requires s[idx + 2] == OPTION_TERMINAL_TYPE_CODE && s[idx + 3] == TERMINAL_TYPE_SEND
    requires LastIacSe(s, idx + 2, |s| - 1) == Some(end)
    ensures ReceivedFrom(v, s, idx, terminalType)
      == ReceivedFrom(v.(written := v.written + [TerminalTypeBytes(terminalType)]), s, end + 2, terminalType)
  {
  }

  // ---------------------------------------------------------------------
  // The connection object

  /** The registry a connection starts with: the TN3270 options only. */
  method NewTn3270OptionSet() returns (optionSet: TelnetOptionSet)
    ensures fresh(optionSet) && optionSet.Valid()
    ensures optionSet.Entries() == Tn3270Entries
  {
    optionSet := new TelnetOptionSet();
    optionSet.SetTn3270Options();
  }

  class TelnetConnection {
    const socket: Socket
    const telnetOptionSet: TelnetOptionSet
    const terminalType: string
    var terminalReceivedDataBuffer: array<byte>
    var usedLength: nat
    /** The records handed to the registered data receiver, in order. */
    var delivered: seq<seq<byte>>

    ghost predicate Valid()
      reads this, telnetOptionSet
    {
      terminalReceivedDataBuffer.Length == TERMINAL_DATA_BUFFER_LENGTH && telnetOptionSet.Valid()
    }

    /** The bytes stored in the terminal buffer. */
    function Kept(): seq<byte>
      reads this, terminalReceivedDataBuffer
    {
      terminalReceivedDataBuffer[..Min(usedLength, terminalReceivedDataBuffer.Length)]
    }

    function View(): ConnView
      reads this, terminalReceivedDataBuffer, telnetOptionSet, telnetOptionSet.options, socket
    {
      ConnView(Kept(), usedLength, delivered, telnetOptionSet.Entries(), socket.written)
    }

    /** A connection with the TN3270 options registered and an empty terminal buffer. */
    constructor ()
      ensures Valid() && fresh(telnetOptionSet) && fresh(socket)
      ensures terminalType == DEFAULT_TERMINAL_TYPE
      ensures View() == ConnView([], 0, [], Tn3270Entries, [])
    {
      socket := new Socket();
      terminalType := DEFAULT_TERMINAL_TYPE;
      delivered := [];
      var optionSet := NewTn3270OptionSet();
      telnetOptionSet := optionSet;
      new;
      SetupTerminalReceivedDatabuffer();
    }

    /** setupTerminalReceivedDatabuffer: a new zeroed buffer, nothing used. */
    method SetupTerminalReceivedDatabuffer()
      modifies this`terminalReceivedDataBuffer, this`usedLength
      ensures fresh(terminalReceivedDataBuffer) && terminalReceivedDataBuffer.Length == TERMINAL_DATA_BUFFER_LENGTH
      ensures forall i :: 0 <= i < TERMINAL_DATA_BUFFER_LENGTH ==> terminalReceivedDataBuffer[i] == 0
      ensures usedLength == 0 && Kept() == [] && delivered == old(delivered)
    {
      terminalReceivedDataBuffer := new byte[TERMINAL_DATA_BUFFER_LENGTH](_ => 0);
      usedLength := 0;
    }

    /** forwardTerminalReceivedDataBuffer: hand over the stored bytes, start a new buffer. */
    method ForwardTerminalReceivedDataBuffer()
      requires Valid()
      modifies this`terminalReceivedDataBuffer, this`usedLength, this`delivered
      ensures Valid() && fresh(terminalReceivedDataBuffer)
      ensures View() == Forward(old(View()))
    {
      delivered := delivered + [Kept()];
      SetupTerminalReceivedDatabuffer();
    }

    /** Store one terminal byte at usedLength; count it even when the buffer is full. */
    method AppendTerminalByte(b: byte)
      requires Valid()
      modifies this`usedLength, terminalReceivedDataBuffer
      ensures Valid() && terminalReceivedDataBuffer == old(terminalReceivedDataBuffer)
      ensures View() == AppendTerminal(old(View()), b)
    {
      if usedLength < terminalReceivedDataBuffer.Length {
        terminalReceivedDataBuffer[usedLength] := b;
        assert terminalReceivedDataBuffer[..usedLength + 1] == old(Kept()) + [b];
      }
      usedLength := usedLength + 1;
    }

    /** sendTerminalType: IAC SB 0x18 0x00, the terminal type's character codes, IAC SE. */
    method SendTerminalType()
      modifies socket
      ensures socket.written == old(socket.written) + [TerminalTypeBytes(terminalType)]
    {
      var sendBuff := new byte[6 + |terminalType|];
      sendBuff[0] := CMD_IAC;
      sendBuff[1] := CMD_SB;
      sendBuff[2] := OPTION_TERMINAL_TYPE_CODE;
      sendBuff[3] := TERMINAL_TYPE_IS;
      var i := 0;
      while i < |terminalType|
        invariant 0 <= i <= |terminalType|
        invariant sendBuff[0] == CMD_IAC && sendBuff[1] == CMD_SB
        invariant sendBuff[2] == OPTION_TERMINAL_TYPE_CODE && sendBuff[3] == TERMINAL_TYPE_IS
        invariant forall j :: 0 <= j < i ==> sendBuff[4 + j] == CharByte(terminalType[j])
        invariant socket.written == old(socket.written)
      {
        sendBuff[4 + i] := CharByte(terminalType[i]);
        i := i + 1;
      }
      i := i + 4;
      sendBuff[i] := CMD_IAC;
      i := i + 1;
      sendBuff[i] := CMD_SE;
      TerminalTypeBytesFromParts(sendBuff[..], terminalType);
      socket.Write(sendBuff[..]);
    }

    /** executeCommandSB: answer a terminal-type SEND. */
    method ExecuteCommandSB(commandBuffer: seq<byte>, idx: nat)
      requires Valid()
      modifies socket
      ensures View() == CommandSB(old(View()), commandBuffer, idx, terminalType)
    {
      if At(commandBuffer, idx + 2) == OPTION_TERMINAL_TYPE_CODE as int && At(commandBuffer, idx + 3) == TERMINAL_TYPE_SEND as int {
        SendTerminalType();
      }
    }

    /** A WILL, WONT, DO or DONT passed to the option registry. */
    method ReceiveNegotiation(code: byte, option: byte)
      requires Valid() && CMD_WILL <= code <= CMD_DONT
      modifies telnetOptionSet, telnetOptionSet.options, socket
      ensures Valid()
      ensures View() == old(View()).(entries := ReceiveCommandSpec(old(View()).entries, code, option).entries,
                                     written := old(View()).written + ReceiveCommandSpec(old(View()).entries, code, option).writes)
      ensures |telnetOptionSet.options| >= |old(telnetOptionSet.options)|
      ensures telnetOptionSet.options[..|old(telnetOptionSet.options)|] == old(telnetOptionSet.options)
      ensures forall i :: |old(telnetOptionSet.options)| <= i < |telnetOptionSet.options| ==> fresh(telnetOptionSet.options[i])
    {
      ghost var v := View();
      var handled := telnetOptionSet.ReceiveCommand(code, option, socket);
      assert Kept() == v.kept;
    }

    /** executeReceivedCommand: act on the command whose IAC is at idx and return its length. */
    method ExecuteReceivedCommand(commandBuffer: seq<byte>, idx: nat) returns (size: CommandSize)
      requires Valid()
      modifies this`terminalReceivedDataBuffer, this`usedLength, this`delivered, telnetOptionSet, telnetOptionSet.options, socket
      ensures Valid()
      ensures CommandStep(View(), size) == ExecuteCommand(old(View()), commandBuffer, idx, terminalType)
      ensures terminalReceivedDataBuffer == old(terminalReceivedDataBuffer) || fresh(terminalReceivedDataBuffer)
      ensures |telnetOptionSet.options| >= |old(telnetOptionSet.options)|
      ensures telnetOptionSet.options[..|old(telnetOptionSet.options)|] == old(telnetOptionSet.options)
      ensures forall i :: |old(telnetOptionSet.options)| <= i < |telnetOptionSet.options| ==> fresh(telnetOptionSet.options[i])
    {
      var commandCode := At(commandBuffer, idx + 1);
      if commandCode == CMD_SB as int {
        var found := FindLastIacSe(commandBuffer, idx + 2, |commandBuffer| - 1);
        ExecuteCommandSB(commandBuffer, idx);
        size := if found.Some? then Length(found.value + 2 - idx) else Undefined;
      } else if commandCode == CMD_SE as int {
        size := Length(2);
      } else if commandCode == CMD_WILL as int || commandCode == CMD_DO as int
             || commandCode == CMD_WONT as int || commandCode == CMD_DONT as int {
        if idx + 2 >= |commandBuffer| {
          size := Throws;
        } else {
          ReceiveNegotiation(commandCode as byte, commandBuffer[idx + 2]);
          size := Length(3);
        }
      } else if commandCode == CMD_EOR as int {
        ForwardTerminalReceivedDataBuffer();
        size := Length(2);
      } else {
        size := Length(3);
      }
    }

    /** One turn of receivedData's loop, at the byte at idx. */
    method ReceiveStep(data: seq<byte>, idx: nat) returns (next: nat, outcome: Outcome)
      requires Valid() && idx < |data|
      modifies this`terminalReceivedDataBuffer, this`usedLength, this`delivered, terminalReceivedDataBuffer, telnetOptionSet, telnetOptionSet.options, socket
      ensures Valid()
      ensures terminalReceivedDataBuffer == old(terminalReceivedDataBuffer) || fresh(terminalReceivedDataBuffer)
      ensures |telnetOptionSet.options| >= |old(telnetOptionSet.options)|
      ensures telnetOptionSet.options[..|old(telnetOptionSet.options)|] == old(telnetOptionSet.options)
      ensures forall i :: |old(telnetOptionSet.options)| <= i < |telnetOptionSet.options| ==> fresh(telnetOptionSet.options[i])
      ensures next > idx
      ensures Resumed(View(), data, next, terminalType, outcome) == ReceivedFrom(old(View()), data, idx, terminalType)
    {
      outcome := Completed;
      next := idx + 1;
      if data[idx] == CMD_IAC && At(data, idx + 1) != CMD_IAC as int {
        var size := ExecuteReceivedCommand(data, idx);
        match size {
          case Length(n) => next := idx + n;
          case Undefined => outcome := Stopped;
          case Throws => outcome := Threw;
        }
      } else if data[idx] == CMD_IAC {
        AppendTerminalByte(0xFF);
        next := idx + 2;
      } else {
        AppendTerminalByte(data[idx]);
      }
    }

    /** receivedData: feed one buffer from the socket through the parser. */
    method ReceivedData(data: seq<byte>) returns (outcome: Outcome)
      requires Valid()
      modifies this`terminalReceivedDataBuffer, this`usedLength, this`delivered, terminalReceivedDataBuffer, telnetOptionSet, telnetOptionSet.options, socket
      ensures Valid()
      ensures Received(View(), outcome) == ReceivedFrom(old(View()), data, 0, terminalType)
    {
      var idx := 0;
      outcome := Completed;
      while idx < |data| && outcome == Completed
        invariant Valid()
        invariant terminalReceivedDataBuffer == old(terminalReceivedDataBuffer) || fresh(terminalReceivedDataBuffer)
        invariant |telnetOptionSet.options| >= |old(telnetOptionSet.options)|
        invariant telnetOptionSet.options[..|old(telnetOptionSet.options)|] == old(telnetOptionSet.options)
        invariant forall i :: |old(telnetOptionSet.options)| <= i < |telnetOptionSet.options| ==> fresh(telnetOptionSet.options[i])
        invariant Resumed(View(), data, idx, terminalType, outcome) == ReceivedFrom(old(View()), data, 0, terminalType)
        decreases |data| - idx
      {
        idx, outcome := ReceiveStep(data, idx);
      }
      assert outcome == Completed ==> ReceivedFrom(View(), data, idx, terminalType) == Received(View(), Completed);
    }
  }
}
