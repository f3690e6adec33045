/** TelnetOptionSet: the registry of options a connection negotiates. An
    option is looked up by code and, when it is missing, created on the
    spot as an unsupported option this side wants disabled. */
module TelnetOptionSets {
  import opened ByteTypes
  import opened Numerals
  import opened TelnetOptions

  const DESC_OPTION_BINARY: string := "BINARY"
  const DESC_OPTION_EOR: string := "EOR"
  const DESC_OPTION_TERMINAL_TYPE: string := "TERMINAL_TYPE"
  const DESC_OPTION_OTHER: string := "UNSUPPORTED_"

  /** What the registry knows of one option. */
  datatype OptionEntry = OptionEntry(code: byte, name: string, state: Negotiation)

  /** The position of the first entry with the code, or the number of entries when there is none. */
  function IndexOf(entries: seq<OptionEntry>, code: byte): (k: nat)
    ensures k <= |entries|
    ensures k < |entries| ==> entries[k].code == code
    ensures forall i :: 0 <= i < k ==> entries[i].code != code
    decreases |entries|
  {
    if entries == [] then 0
    else if entries[0].code == code then 0
    else 1 + IndexOf(entries[1..], code)
  }

  /** Whether some entry has the code. */
  predicate HasCode(entries: seq<OptionEntry>, code: byte) {
    exists i :: 0 <= i < |entries| && entries[i].code == code
  }

  /** The entry created for a code nobody registered: "UNSUPPORTED_" and the code in decimal, disabled wanted. */
  function UnsupportedEntry(code: byte): OptionEntry {
    OptionEntry(code, DESC_OPTION_OTHER + DecimalString(code as nat), Negotiation(Unknown, Disabled))
  }

  /** getOptionInstance on the entries: unchanged when the code is
      registered, one unsupported entry longer when it is not. */
  function WithOption(entries: seq<OptionEntry>, code: byte): (r: seq<OptionEntry>)
    ensures HasCode(entries, code) ==> r == entries
    ensures !HasCode(entries, code) ==> r == entries + [UnsupportedEntry(code)]
    ensures IndexOf(r, code) < |r|
  {
    if IndexOf(entries, code) < |entries| then entries
    else
      var r := entries + [UnsupportedEntry(code)];
      assert r[|entries|].code == code;
      r
  }

  /** The three TN3270 options, BINARY, EOR and TERMINAL_TYPE, all wanted enabled. */
  const Tn3270Entries: seq<OptionEntry> := [
    OptionEntry(OPTION_BINARY, DESC_OPTION_BINARY, Negotiation(Unknown, Enabled)),
    OptionEntry(OPTION_EOR, DESC_OPTION_EOR, Negotiation(Unknown, Enabled)),
    OptionEntry(OPTION_TERMINAL_TYPE, DESC_OPTION_TERMINAL_TYPE, Negotiation(Unknown, Enabled))
  ]

  /** The effect of a negotiation event on the registry: the new entries,
      whether the command was handled, and the buffers written. */
  datatype SetReaction = SetReaction(entries: seq<OptionEntry>, handled: bool, writes: seq<seq<byte>>)

  /** receiveCommand: the option is looked up (and created) first; then a
      WILL, WONT, DO or DONT is applied to it and anything else is not handled. */
  function ReceiveCommandSpec(entries: seq<OptionEntry>, commandCode: byte, optionCode: byte): SetReaction {
    var es := WithOption(entries, optionCode);
    var k := IndexOf(es, optionCode);
    match CommandOf(commandCode)
    case None => SetReaction(es, false, [])
    case Some(c) =>
      var r := OnCommand(c, es[k].state);
      SetReaction(es[k := es[k].(state := r.next)], true, ReplyWrites(r.reply, optionCode))
  }

  /** setDesiredState on the registry: look up (and create), then apply. */
  function SetDesiredStateSpec(entries: seq<OptionEntry>, optionCode: byte, d: OptionState): SetReaction {
    var es := WithOption(entries, optionCode);
    var k := IndexOf(es, optionCode);
    var r := SetDesired(es[k].state, d);
    SetReaction(es[k := es[k].(state := r.next)], true, ReplyWrites(r.reply, optionCode))
  }

  // ---------------------------------------------------------------------
  // Properties of the registry

  /** Looking an option up twice is looking it up once, and the lookup finds the code. */
  lemma WithOptionIdempotent(entries: seq<OptionEntry>, code: byte)
    ensures WithOption(WithOption(entries, code), code) == WithOption(entries, code)
    ensures HasCode(WithOption(entries, code), code)
    ensures |WithOption(entries, code)| == |entries| + (if HasCode(entries, code) then 0 else 1)
  {
    var r := WithOption(entries, code);
    var k := IndexOf(r, code);
    assert r[k].code == code;
  }

  /** receiveCommand handles exactly the four negotiation commands, but
      registers the option in every case; it changes only the entry of
      that option and writes at most one reply. */
  lemma ReceiveCommandFacts(entries: seq<OptionEntry>, commandCode: byte, optionCode: byte)
    ensures var r := ReceiveCommandSpec(entries, commandCode, optionCode);
      && (r.handled <==> commandCode in {CMD_WILL, CMD_WONT, CMD_DO, CMD_DONT})
      && |r.entries| == |WithOption(entries, optionCode)|
      && HasCode(r.entries, optionCode)
      && (forall i :: 0 <= i < |r.entries| && r.entries[i].code != optionCode ==>
            r.entries[i] == WithOption(entries, optionCode)[i])
      && |r.writes| <= 1
      && (!r.handled ==> r.writes == [] && r.entries == WithOption(entries, optionCode))
  {
    var es := WithOption(entries, optionCode);
    var k := IndexOf(es, optionCode);
    assert es[k].code == optionCode;
    var r := ReceiveCommandSpec(entries, commandCode, optionCode);
    assert r.entries[k].code == optionCode;
  }

  /** A WILL or DO for an option nobody registered is refused (DONT or
      WONT) and leaves it registered as unsupported and disabled. */
  lemma UnknownOptionRefused(entries: seq<OptionEntry>, optionCode: byte)
    requires !HasCode(entries, optionCode)
    ensures ReceiveCommandSpec(entries, CMD_WILL, optionCode)
      == SetReaction(entries + [UnsupportedEntry(optionCode).(state := Negotiation(Disabled, Disabled))],
                     true, [[CMD_IAC, CMD_DONT, optionCode]])
    ensures ReceiveCommandSpec(entries, CMD_DO, optionCode)
      == SetReaction(entries + [UnsupportedEntry(optionCode).(state := Negotiation(Disabled, Disabled))],
                     true, [[CMD_IAC, CMD_WONT, optionCode]])
  {
    var es := WithOption(entries, optionCode);
    assert es == entries + [UnsupportedEntry(optionCode)];
    assert IndexOf(es, optionCode) == |entries|;
  }

  /** With the TN3270 options registered, a WILL for each is accepted with DO. */
  lemma Tn3270OptionsAccepted(code: byte)
    requires code in {OPTION_BINARY, OPTION_EOR, OPTION_TERMINAL_TYPE}
    ensures ReceiveCommandSpec(Tn3270Entries, CMD_WILL, code).writes == [[CMD_IAC, CMD_DO, code]]
    ensures ReceiveCommandSpec(Tn3270Entries, CMD_WILL, code).entries
      == Tn3270Entries[IndexOf(Tn3270Entries, code) := Tn3270Entries[IndexOf(Tn3270Entries, code)].(state := Negotiation(Enabled, Enabled))]
  {
    assert HasCode(Tn3270Entries, code) by {
      if code == OPTION_BINARY { assert Tn3270Entries[0].code == code; }
      else if code == OPTION_EOR { assert Tn3270Entries[1].code == code; }
      else { assert Tn3270Entries[2].code == code; }
    }
  }

  /** The registry name of an unsupported option is "UNSUPPORTED_"
      followed by its code in decimal: 17 is "UNSUPPORTED_17". */
  lemma UnsupportedNameExample()
    ensures UnsupportedEntry(17).name == "UNSUPPORTED_17"
    ensures DigitsValue(UnsupportedEntry(17).name[|DESC_OPTION_OTHER|..], 10) == 17
  {
    assert DecimalString(17) == "17";
    RenderRoundTrip(17, 10);
  }

  // ---------------------------------------------------------------------
  // The registry object

  /** A registry entry read from an option object. */
  function EntryOf(o: TelnetOption): OptionEntry
    reads o
  {
    OptionEntry(o.optionCode, o.optionName, o.State())
  }

  /** The entries of a sequence of option objects, in order. */
  function EntriesOf(os: seq<TelnetOption>): (r: seq<OptionEntry>)
    reads os
    ensures |r| == |os|
    ensures forall i :: 0 <= i < |os| ==> r[i] == EntryOf(os[i])
    decreases |os|
  {
    if os == [] then [] else [EntryOf(os[0])] + EntriesOf(os[1..])
  }

  class TelnetOptionSet {
    var options: seq<TelnetOption>

    /** Every option object is registered once. */
    ghost predicate Valid()
      reads this
    {
      forall i, j :: 0 <= i < j < |options| ==> options[i] != options[j]
    }

    function Entries(): seq<OptionEntry>
      reads this, options
    {
      EntriesOf(options)
    }

    constructor ()
      ensures Valid() && options == []
    {
      options := [];
    }

    /** addOption: a new option, unknown state, appended. */
    method AddOption(optionCode: byte, optionDescription: string, desiredState: OptionState)
      returns (telnetOption: TelnetOption)
      requires Valid()
      modifies this
      ensures Valid()
      ensures fresh(telnetOption) && options == old(options) + [telnetOption]
      ensures Entries() == old(Entries()) + [OptionEntry(optionCode, optionDescription, Negotiation(Unknown, desiredState))]
    {
      telnetOption := new TelnetOption(optionCode, optionDescription, desiredState);
      options := options + [telnetOption];
      assert Entries() == old(Entries()) + [EntryOf(telnetOption)];
    }

    /** setTn3270Options: BINARY, EOR and TERMINAL_TYPE, in that order. */
    method SetTn3270Options()
      requires Valid()
      modifies this
      ensures Valid()
      ensures Entries() == old(Entries()) + Tn3270Entries
      ensures |options| == |old(options)| + 3 && options[..|old(options)|] == old(options)
    {
      var o := AddOption(OPTION_BINARY, DESC_OPTION_BINARY, Enabled);
      o := AddOption(OPTION_EOR, DESC_OPTION_EOR, Enabled);
      o := AddOption(OPTION_TERMINAL_TYPE, DESC_OPTION_TERMINAL_TYPE, Enabled);
    }

    /** getOptionInstance: the first option with the code, or a new unsupported one. */
    method GetOptionInstance(optionCode: byte) returns (instance: TelnetOption)
      requires Valid()
      modifies this
      ensures Valid()
      ensures Entries() == WithOption(old(Entries()), optionCode)
      ensures |options| <= |old(options)| + 1 && options[..|old(options)|] == old(options)
      ensures IndexOf(Entries(), optionCode) < |options| && instance == options[IndexOf(Entries(), optionCode)]
      ensures |options| > |old(options)| ==> fresh(instance)
      ensures forall i :: |old(options)| <= i < |options| ==> fresh(options[i])
    {
      var i := 0;
      while i < |options| && options[i].optionCode != optionCode
        invariant i <= |options|
        invariant forall j :: 0 <= j < i ==> options[j].optionCode != optionCode
      {
        i := i + 1;
      }
      if i < |options| {
        instance := options[i];
        assert Entries()[i].code == optionCode;
        assert forall j :: 0 <= j < i ==> Entries()[j].code != optionCode;
        assert IndexOf(Entries(), optionCode) == i;
      } else {
        ghost var before := Entries();
        assert forall j :: 0 <= j < i ==> before[j].code != optionCode;
        instance := AddOption(optionCode, DESC_OPTION_OTHER + DecimalString(optionCode as nat), Disabled);
        assert Entries() == before + [UnsupportedEntry(optionCode)];
        assert forall j :: 0 <= j < i ==> Entries()[j].code != optionCode;
        assert Entries()[i].code == optionCode;
        assert IndexOf(Entries(), optionCode) == i;
      }
    }

    /** receiveCommand: look the option up, then dispatch WILL, WONT, DO or DONT to it. */
    method ReceiveCommand(commandCode: byte, optionCode: byte, socket: Socket) returns (handled: bool)
      requires Valid()
      modifies this, options, socket
      ensures Valid()
      ensures Entries() == ReceiveCommandSpec(old(Entries()), commandCode, optionCode).entries
      ensures handled == ReceiveCommandSpec(old(Entries()), commandCode, optionCode).handled
      ensures socket.written == old(socket.written) + ReceiveCommandSpec(old(Entries()), commandCode, optionCode).writes
      ensures |options| <= |old(options)| + 1 && options[..|old(options)|] == old(options)
      ensures forall i :: |old(options)| <= i < |options| ==> fresh(options[i])
    {
      var instance := GetOptionInstance(optionCode);
      ghost var es := Entries();
      ghost var k := IndexOf(es, optionCode);
      assert es[k] == EntryOf(instance);
      ghost var spec := ReceiveCommandSpec(old(Entries()), commandCode, optionCode);
      handled := Dispatch(instance, commandCode, socket);
      if handled {
        ghost var reaction := OnCommand(CommandOf(commandCode).value, es[k].state);
        assert spec == SetReaction(es[k := es[k].(state := reaction.next)], true, ReplyWrites(reaction.reply, optionCode));
        OthersUnchanged(es, k, instance);
      } else {
        assert spec == SetReaction(es, false, []);
        OthersUnchanged(es, k, instance);
      }
    }

    /** The dispatch of receiveCommand to the option: WILL, WONT, DO and
        DONT go to their handlers, anything else is not handled. */
    static method Dispatch(instance: TelnetOption, commandCode: byte, socket: Socket) returns (handled: bool)
      modifies instance, socket
      ensures handled == CommandOf(commandCode).Some?
      ensures handled ==> instance.State() == OnCommand(CommandOf(commandCode).value, old(instance.State())).next
      ensures handled ==>
        socket.written == old(socket.written)
          + ReplyWrites(OnCommand(CommandOf(commandCode).value, old(instance.State())).reply, instance.optionCode)
      ensures !handled ==> instance.State() == old(instance.State()) && socket.written == old(socket.written)
    {
      handled := true;
      if commandCode == CMD_WILL {
        instance.ReceivedWill(socket);
      } else if commandCode == CMD_WONT {
        instance.ReceivedWont(socket);
      } else if commandCode == CMD_DO {
        instance.ReceivedDo(socket);
      } else if commandCode == CMD_DONT {
        instance.ReceivedDont(socket);
      } else {
        handled := false;
      }
    }

    /** setDesiredState on the registry: look the option up, then set its wish. */
    method SetDesiredState(optionCode: byte, desiredState: OptionState, socket: Socket)
      requires Valid()
      modifies this, options, socket
      ensures Valid()
      ensures Entries() == SetDesiredStateSpec(old(Entries()), optionCode, desiredState).entries
      ensures socket.written == old(socket.written) + SetDesiredStateSpec(old(Entries()), optionCode, desiredState).writes
      ensures |options| <= |old(options)| + 1 && options[..|old(options)|] == old(options)
      ensures forall i :: |old(options)| <= i < |options| ==> fresh(options[i])
    {
      var instance := GetOptionInstance(optionCode);
      ghost var es := Entries();
      ghost var k := IndexOf(es, optionCode);
      assert es[k] == EntryOf(instance);
      instance.SetDesiredState(desiredState, socket);
      OthersUnchanged(es, k, instance);
    }

    /** The entries once only the option at k has changed. */
    lemma OthersUnchanged(es: seq<OptionEntry>, k: nat, instance: TelnetOption)
      requires Valid() && k < |options| && instance == options[k] && |es| == |options|
      requires forall i :: 0 <= i < |options| && i != k ==> es[i] == EntryOf(options[i])
      ensures Entries() == es[k := EntryOf(instance)]
    {
    }
  }
}
