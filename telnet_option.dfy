/** Telnet option negotiation for one option (RFC 854, "TELNET COMMAND
    STRUCTURE"): the reply rules as value-level functions checked against
    the documented reply table, and the TelnetOption object that applies
    them and writes its three-byte commands to a socket. */
module TelnetOptions {
  import opened ByteTypes

  const CMD_IAC: byte := 0xFF
  const CMD_WILL: byte := 0xFB
  const CMD_WONT: byte := 0xFC
  const CMD_DO: byte := 0xFD
  const CMD_DONT: byte := 0xFE

  const OPTION_BINARY: byte := 0
  const OPTION_TERMINAL_TYPE: byte := 24
  const OPTION_EOR: byte := 25

  /** STATE_UNKNOWN (-1), STATE_DISABLED (0) and STATE_ENABLED (1). */
  datatype OptionState = Unknown | Disabled | Enabled

  /** The four negotiation commands. */
  datatype Command = Will | Wont | Do | Dont {
    function Code(): (b: byte)
      ensures CMD_WILL <= b <= CMD_DONT
    {
      match this
      case Will => CMD_WILL
      case Wont => CMD_WONT
      case Do => CMD_DO
      case Dont => CMD_DONT
    }
  }

  /** The command whose code is b, if b is one of the four. */
  function CommandOf(b: byte): (c: Option<Command>)
    ensures c.Some? <==> CMD_WILL <= b <= CMD_DONT
    ensures c.Some? ==> c.value.Code() == b
  {
    if b == CMD_WILL then Some(Will)
    else if b == CMD_WONT then Some(Wont)
    else if b == CMD_DO then Some(Do)
    else if b == CMD_DONT then Some(Dont)
    else None
  }

  /** The bytes send{Will,Wont,Do,Dont} write: IAC, the command, the option code. */
  function CommandBytes(c: Command, optionCode: byte): seq<byte> {
    [CMD_IAC, c.Code(), optionCode]
  }

  /** The socket writes of a reply: one command, or none. */
  function ReplyWrites(reply: Option<Command>, optionCode: byte): (w: seq<seq<byte>>)
    ensures |w| == (if reply.Some? then 1 else 0)
  {
    match reply
    case None => []
    case Some(c) => [CommandBytes(c, optionCode)]
  }

  /** The negotiated state of one option: where it is and where this side wants it. */
  datatype Negotiation = Negotiation(optionState: OptionState, desiredState: OptionState)

  /** The outcome of a negotiation event: the new state and the reply, if any. */
  datatype Reaction = Reaction(next: Negotiation, reply: Option<Command>)

  /** receivedWill: refuse with DONT unless enabling is desired, else accept with DO. */
  function OnWill(n: Negotiation): Reaction {
    if n.desiredState == Disabled then
      match n.optionState
      case Unknown => Reaction(Negotiation(Disabled, n.desiredState), Some(Dont))
      case Disabled => Reaction(n, Some(Dont))
      case Enabled => Reaction(Negotiation(Disabled, n.desiredState), Some(Dont))
    else
      match n.optionState
      case Unknown => Reaction(Negotiation(Enabled, n.desiredState), Some(Do))
      case Disabled => Reaction(Negotiation(Enabled, n.desiredState), Some(Do))
      case Enabled => Reaction(n, Some(Do))
  }

  /** receivedWont: always honoured; the option and the wish become disabled. */
  function OnWont(n: Negotiation): Reaction {
    if n.desiredState == Disabled then
      match n.optionState
      case Unknown => Reaction(Negotiation(Disabled, n.desiredState), Some(Dont))
      case Disabled => Reaction(n, None)
      case Enabled => Reaction(Negotiation(Disabled, n.desiredState), Some(Dont))
    else
      match n.optionState
      case Unknown => Reaction(Negotiation(Disabled, Disabled), Some(Dont))
      case Disabled => Reaction(Negotiation(Disabled, Disabled), Some(Dont))
      case Enabled => Reaction(Negotiation(Disabled, Disabled), Some(Dont))
  }

  /** receivedDo: refuse with WONT unless enabling is desired, else agree with WILL once. */
  function OnDo(n: Negotiation): Reaction {
    if n.desiredState == Disabled then
      match n.optionState
      case Unknown => Reaction(Negotiation(Disabled, n.desiredState), Some(Wont))
      case Disabled => Reaction(n, Some(Wont))
      case Enabled => Reaction(Negotiation(Disabled, n.desiredState), Some(Wont))
    else
      match n.optionState
      case Unknown => Reaction(Negotiation(Enabled, n.desiredState), Some(Will))
      case Disabled => Reaction(Negotiation(Enabled, n.desiredState), Some(Will))
      case Enabled => Reaction(n, None)
  }

  /** receivedDont: always honoured; the option and the wish become disabled. */
  function OnDont(n: Negotiation): Reaction {
    if n.desiredState == Disabled then
      match n.optionState
      case Unknown => Reaction(Negotiation(Disabled, n.desiredState), Some(Wont))
      case Disabled => Reaction(n, None)
      case Enabled => Reaction(Negotiation(Disabled, n.desiredState), Some(Wont))
    else
      match n.optionState
      case Unknown => Reaction(Negotiation(Disabled, Disabled), Some(Wont))
      case Disabled => Reaction(Negotiation(Disabled, Disabled), Some(Wont))
      case Enabled => Reaction(Negotiation(Disabled, Disabled), Some(Wont))
  }

  /** The reaction to a received command. */
  function OnCommand(c: Command, n: Negotiation): Reaction {
    match c
    case Will => OnWill(n)
    case Wont => OnWont(n)
    case Do => OnDo(n)
    case Dont => OnDont(n)
  }

  /** setDesiredState: a changed wish is announced with WILL (enabled) or WONT (anything else). */
  function SetDesired(n: Negotiation, d: OptionState): Reaction {
    if d == n.desiredState then Reaction(n, None)
    else Reaction(Negotiation(n.optionState, d), Some(if d == Enabled then Will else Wont))
  }

  // ---------------------------------------------------------------------
  // Properties of the reply rules

  /** WILL never changes the wish and is always answered exactly once:
      DONT and disabled when disabling is desired, DO and enabled otherwise. */
  lemma WillFacts(n: Negotiation)
    ensures OnWill(n).next.desiredState == n.desiredState
    ensures OnWill(n).reply.Some?
    ensures n.desiredState == Disabled ==> OnWill(n) == Reaction(Negotiation(Disabled, Disabled), Some(Dont))
    ensures n.desiredState != Disabled ==> OnWill(n) == Reaction(Negotiation(Enabled, n.desiredState), Some(Do))
  {
  }

  /** DO with disabling desired is refused with WONT; otherwise it is
      agreed with WILL, unless the option is already enabled, when nothing is sent. */
  lemma DoFacts(n: Negotiation)
    ensures OnDo(n).next.desiredState == n.desiredState
    ensures n.desiredState == Disabled ==> OnDo(n) == Reaction(Negotiation(Disabled, Disabled), Some(Wont))
    ensures n.desiredState != Disabled ==> OnDo(n).next.optionState == Enabled
    ensures n.desiredState != Disabled ==> (OnDo(n).reply == None <==> n.optionState == Enabled)
    ensures OnDo(n).reply.Some? ==> OnDo(n).reply == Some(if n.desiredState == Disabled then Wont else Will)
  {
  }

  /** After WONT both states are disabled; exactly one DONT is sent unless
      both were disabled already. */
  lemma WontFacts(n: Negotiation)
    ensures OnWont(n).next == Negotiation(Disabled, Disabled)
    ensures OnWont(n).reply == None <==> n == Negotiation(Disabled, Disabled)
    ensures OnWont(n).reply.Some? ==> OnWont(n).reply == Some(Dont)
  {
  }

  /** After DONT both states are disabled; exactly one WONT is sent unless
      both were disabled already. */
  lemma DontFacts(n: Negotiation)
    ensures OnDont(n).next == Negotiation(Disabled, Disabled)
    ensures OnDont(n).reply == None <==> n == Negotiation(Disabled, Disabled)
    ensures OnDont(n).reply.Some? ==> OnDont(n).reply == Some(Wont)
  {
  }

  /** An unchanged wish sends nothing; a changed one is stored and
      announced, WILL for enabled and WONT otherwise; the option state is kept. */
  lemma SetDesiredFacts(n: Negotiation, d: OptionState)
    ensures SetDesired(n, d).next == Negotiation(n.optionState, d)
    ensures SetDesired(n, d).reply == None <==> d == n.desiredState
    ensures d != n.desiredState ==> SetDesired(n, d).reply == Some(if d == Enabled then Will else Wont)
  {
  }

  /** No received command ever enables an option this side does not want
      enabled, and none ever changes a wish for disabled. */
  lemma NeverEnablesUnwanted(c: Command, n: Negotiation)
    requires n.desiredState == Disabled
    ensures OnCommand(c, n).next == Negotiation(Disabled, Disabled)
  {
  }

  // ---------------------------------------------------------------------
  // The documented reply table

  /** One row of the table in the comment above the TelnetOption
      constructor: the command received, the current and desired states
      before and after, and the command sent. */
  datatype TableRow = TableRow(received: Command, current: OptionState, desired: OptionState,
                               nextCurrent: OptionState, nextDesired: OptionState, send: Option<Command>)

  const ReplyTable: seq<TableRow> := [
    TableRow(Will, Unknown, Disabled, Disabled, Disabled, Some(Dont)),
    TableRow(Will, Disabled, Disabled, Disabled, Disabled, Some(Dont)),
    TableRow(Will, Enabled, Disabled, Disabled, Disabled, Some(Dont)),
    TableRow(Will, Unknown, Enabled, Enabled, Enabled, Some(Do)),
    TableRow(Will, Disabled, Enabled, Enabled, Enabled, Some(Do)),
    TableRow(Will, Enabled, Enabled, Enabled, Enabled, Some(Do)),
    TableRow(Wont, Unknown, Disabled, Disabled, Disabled, Some(Dont)),
    TableRow(Wont, Disabled, Disabled, Disabled, Disabled, None),
    TableRow(Wont, Enabled, Disabled, Disabled, Disabled, Some(Dont)),
    TableRow(Wont, Unknown, Enabled, Disabled, Disabled, Some(Dont)),
    TableRow(Wont, Disabled, Enabled, Disabled, Disabled, Some(Dont)),
    TableRow(Wont, Enabled, Enabled, Disabled, Disabled, Some(Dont)),
    TableRow(Do, Unknown, Disabled, Disabled, Disabled, Some(Wont)),
    TableRow(Do, Disabled, Disabled, Disabled, Disabled, Some(Wont)),
    TableRow(Do, Enabled, Disabled, Disabled, Disabled, Some(Wont)),
    TableRow(Do, Unknown, Enabled, Enabled, Enabled, Some(Will)),
    TableRow(Do, Disabled, Enabled, Enabled, Enabled, Some(Will)),
    TableRow(Do, Enabled, Enabled, Enabled, Enabled, None),
    TableRow(Dont, Unknown, Disabled, Disabled, Disabled, Some(Wont)),
    TableRow(Dont, Disabled, Disabled, Disabled, Disabled, None),
    TableRow(Dont, Enabled, Disabled, Disabled, Disabled, Some(Wont)),
    TableRow(Dont, Unknown, Enabled, Disabled, Disabled, Some(Wont)),
    TableRow(Dont, Disabled, Enabled, Disabled, Disabled, Some(Wont)),
    TableRow(Dont, Enabled, Enabled, Disabled, Disabled, Some(Wont))
  ]

  /** The reaction a table row documents. */
  function RowReaction(r: TableRow): Reaction {
    Reaction(Negotiation(r.nextCurrent, r.nextDesired), r.send)
  }

  /** The table has a row for every command, every current state and
      both desired states. */
  lemma ReplyTableComplete(c: Command, cur: OptionState, d: OptionState)
    requires d != Unknown
    ensures exists i :: (0 <= i < |ReplyTable| && ReplyTable[i].received == c
      && ReplyTable[i].current == cur && ReplyTable[i].desired == d)
  {
    var k := (match c case Will => 0 case Wont => 6 case Do => 12 case Dont => 18)
      + (if d == Disabled then 0 else 3)
      + (match cur case Unknown => 0 case Disabled => 1 case Enabled => 2);
    assert ReplyTable[k].received == c && ReplyTable[k].current == cur && ReplyTable[k].desired == d;
  }

  /** The code does what every row of the table says. */
  lemma ReplyTableAgrees(i: nat)
    requires i < |ReplyTable|
    ensures OnCommand(ReplyTable[i].received, Negotiation(ReplyTable[i].current, ReplyTable[i].desired))
      == RowReaction(ReplyTable[i])
  {
  }

  // ---------------------------------------------------------------------
  // The socket and the option object

  /** The connection's socket, reduced to the log of buffers written to it. */
  class Socket {
    var written: seq<seq<byte>>

    constructor ()
      ensures written == []
    {
      written := [];
    }

    method Write(data: seq<byte>)
      modifies this
      ensures written == old(written) + [data]
    {
      written := written + [data];
    }
  }

  /** TelnetOption: one option's code, name, current and desired state. */
  class TelnetOption {
    const optionCode: byte
    const optionName: string
    var optionState: OptionState
    var desiredState: OptionState

    function State(): Negotiation
      reads this
    {
      Negotiation(optionState, desiredState)
    }

    constructor (optionCode: byte, optionName: string, desiredState: OptionState)
      ensures this.optionCode == optionCode && this.optionName == optionName
      ensures State() == Negotiation(Unknown, desiredState)
    {
      this.optionCode := optionCode;
      this.optionName := optionName;
      this.optionState := Unknown;
      this.desiredState := desiredState;
    }

    method SendWill(socket: Socket)
      modifies socket
      ensures socket.written == old(socket.written) + [CommandBytes(Will, optionCode)]
    {
      socket.Write([CMD_IAC, CMD_WILL, optionCode]);
    }

    method SendWont(socket: Socket)
      modifies socket
      ensures socket.written == old(socket.written) + [CommandBytes(Wont, optionCode)]
    {
      socket.Write([CMD_IAC, CMD_WONT, optionCode]);
    }

    method SendDo(socket: Socket)
      modifies socket
      ensures socket.written == old(socket.written) + [CommandBytes(Do, optionCode)]
    {
      socket.Write([CMD_IAC, CMD_DO, optionCode]);
    }

    method SendDont(socket: Socket)
      modifies socket
      ensures socket.written == old(socket.written) + [CommandBytes(Dont, optionCode)]
    {
      socket.Write([CMD_IAC, CMD_DONT, optionCode]);
    }

    method SetDesiredState(d: OptionState, socket: Socket)
      modifies this, socket
      ensures State() == SetDesired(old(State()), d).next
      ensures socket.written == old(socket.written) + ReplyWrites(SetDesired(old(State()), d).reply, optionCode)
    {
      if d == desiredState {
        return;
      }
      if d == Enabled {
        SendWill(socket);
      } else {
        SendWont(socket);
      }
      desiredState := d;
    }

    method ReceivedWill(socket: Socket)
      modifies this, socket
      ensures State() == OnWill(old(State())).next
      ensures socket.written == old(socket.written) + ReplyWrites(OnWill(old(State())).reply, optionCode)
    {
      if desiredState == Disabled {
        match optionState
        case Unknown =>
          optionState := Disabled;
          SendDont(socket);
        case Disabled =>
          SendDont(socket);
        case Enabled =>
          optionState := Disabled;
          SendDont(socket);
      } else {
        match optionState
        case Unknown =>
          optionState := Enabled;
          SendDo(socket);
        case Disabled =>
          optionState := Enabled;
          SendDo(socket);
        case Enabled =>
          SendDo(socket);
      }
    }

    method ReceivedWont(socket: Socket)
      modifies this, socket
      ensures State() == OnWont(old(State())).next
      ensures socket.written == old(socket.written) + ReplyWrites(OnWont(old(State())).reply, optionCode)
    {
      if desiredState == Disabled {
        match optionState
        case Unknown =>
          optionState := Disabled;
          SendDont(socket);
        case Disabled =>
        case Enabled =>
          optionState := Disabled;
          SendDont(socket);
      } else {
        match optionState {
          case Unknown =>
            optionState := Disabled;
            SendDont(socket);
          case Disabled =>
            SendDont(socket);
          case Enabled =>
            optionState := Disabled;
            SendDont(socket);
        }
        desiredState := Disabled;
      }
    }

    method ReceivedDo(socket: Socket)
      modifies this, socket
      ensures State() == OnDo(old(State())).next
      ensures socket.written == old(socket.written) + ReplyWrites(OnDo(old(State())).reply, optionCode)
    {
      if desiredState == Disabled {
        match optionState
        case Unknown =>
          optionState := Disabled;
          SendWont(socket);
        case Disabled =>
          SendWont(socket);
        case Enabled =>
          optionState := Disabled;
          SendWont(socket);
      } else {
        match optionState
        case Unknown =>
          optionState := Enabled;
          SendWill(socket);
        case Disabled =>
          optionState := Enabled;
          SendWill(socket);
        case Enabled =>
      }
    }

    method ReceivedDont(socket: Socket)
      modifies this, socket
      ensures State() == OnDont(old(State())).next
      ensures socket.written == old(socket.written) + ReplyWrites(OnDont(old(State())).reply, optionCode)
    {
      if desiredState == Disabled {
        match optionState
        case Unknown =>
          optionState := Disabled;
          SendWont(socket);
        case Disabled =>
        case Enabled =>
          optionState := Disabled;
          SendWont(socket);
      } else {
        match optionState {
          case Unknown =>
            optionState := Disabled;
            SendWont(socket);
          case Disabled =>
            SendWont(socket);
          case Enabled =>
            optionState := Disabled;
            SendWont(socket);
        }
        desiredState := Disabled;
      }
    }
  }
}
