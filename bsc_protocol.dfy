/** EBCDIC BSC control characters, the control-character table and the
    poll/select address tables of bsc-protocol.js. Everything here is a
    constant or a lookup. */
module BscProtocol {
  import opened ByteTypes

  const SYN: byte := 0x32
  const IDLE: byte := SYN

  const SOH: byte := 0x01
  const STX: byte := 0x02
  const ETB: byte := 0x26
  const ENQ: byte := 0x2D
  const ETX: byte := 0x03
  const DLE: byte := 0x10
  const NAK: byte := 0x3D
  const ITB: byte := 0x1F
  const EOT: byte := 0x37

  // Second characters of the DLE-prefixed replies
  const ACK0: byte := 0x70
  const ACK1: byte := 0x61
  const WACK: byte := 0x6B
  const RVI: byte := 0x7C

  const TTD: byte := ENQ

  const LEADING_PAD: byte := 0x55
  const TRAILING_PAD: byte := 0xFF

  const ESC: byte := 0x27

  /** The block terminators after which two BCC bytes follow. */
  predicate IsTerminator(b: int) {
    b == ETX as int || b == ETB as int || b == ITB as int
  }

  /** BSC_CONTROL_CHECK: entry b is 1 when b is a BSC control character
      (one row of sixteen entries per line, as in the source). */
  const BscControlCheck: seq<byte> :=
    /* 0 */ [0, 1, 1, 1, 0, 0, 0, 0, 0, 0, 0, 0, 0, 0, 0, 0] +
    /* 1 */ [1, 0, 0, 0, 0, 0, 0, 0, 0, 0, 0, 0, 0, 0, 0, 1] +
    /* 2 */ [0, 0, 0, 0, 0, 0, 1, 0, 0, 0, 0, 0, 0, 1, 1, 0] +
    /* 3 */ [0, 0, 1, 0, 0, 0, 0, 1, 0, 0, 0, 0, 0, 1, 0, 0] +
    /* 4 */ [0, 0, 0, 0, 0, 0, 0, 0, 0, 0, 0, 0, 0, 0, 0, 0] +
    /* 5 */ [0, 0, 0, 0, 0, 0, 0, 0, 0, 0, 0, 0, 0, 0, 0, 0] +
    /* 6 */ [0, 0, 0, 0, 0, 0, 0, 0, 0, 0, 0, 0, 0, 0, 0, 0] +
    /* 7 */ [0, 0, 0, 0, 0, 0, 0, 0, 0, 0, 0, 0, 0, 0, 0, 0] +
    /* 8 */ [0, 0, 0, 0, 0, 0, 0, 0, 0, 0, 0, 0, 0, 0, 0, 0] +
    /* 9 */ [0, 0, 0, 0, 0, 0, 0, 0, 0, 0, 0, 0, 0, 0, 0, 0] +
    /* A */ [0, 0, 0, 0, 0, 0, 0, 0, 0, 0, 0, 0, 0, 0, 0, 0] +
    /* B */ [0, 0, 0, 0, 0, 0, 0, 0, 0, 0, 0, 0, 0, 0, 0, 0] +
    /* C */ [0, 0, 0, 0, 0, 0, 0, 0, 0, 0, 0, 0, 0, 0, 0, 0] +
    /* D */ [0, 0, 0, 0, 0, 0, 0, 0, 0, 0, 0, 0, 0, 0, 0, 0] +
    /* E */ [0, 0, 0, 0, 0, 0, 0, 0, 0, 0, 0, 0, 0, 0, 0, 0] +
    /* F */ [0, 0, 0, 0, 0, 0, 0, 0, 0, 0, 0, 0, 0, 0, 0, 0]

  /** ADDRESS_CHARS_POLL: device number 0..31 to its poll address character. */
  const AddressCharsPoll: seq<byte> := [
    0x40, 0xC1, 0xC2, 0xC3, 0xC4, 0xC5, 0xC6, 0xC7,
    0xC8, 0xC9, 0x4A, 0x4B, 0x4C, 0x4D, 0x4E, 0x4F,
    0x50, 0xD1, 0xD2, 0xD3, 0xD4, 0xD5, 0xD6, 0xD7,
    0xD8, 0xD9, 0x5A, 0x5B, 0x5C, 0x5D, 0x5E, 0x5F
  ]

  /** ADDRESS_CHARS_SELECT: device number 0..31 to its select address character. */
  const AddressCharsSelect: seq<byte> := [
    0x60, 0x61, 0xE2, 0xE3, 0xE4, 0xE5, 0xE6, 0xE7,
    0xE8, 0xE9, 0x6A, 0x6B, 0x6C, 0x6D, 0x6E, 0x6F,
    0xF0, 0xF1, 0xF2, 0xF3, 0xF4, 0xF5, 0xF6, 0xF7,
    0xF8, 0xF9, 0x7A, 0x7B, 0x7C, 0x7D, 0x7E, 0x7F
  ]

  /** The control characters the table marks, listed by name. */
  const ControlChars: set<byte> := {SOH, STX, ETX, DLE, ITB, ETB, ENQ, 0x2E, SYN, EOT, NAK}

  predicate IsControlChar(b: byte) {
    BscControlCheck[b] != 0
  }

  /** The poll character of a device; the source's array lookup yields
      undefined outside 0..31, so the range is a precondition. */
  function GetDevicePollChar(devAddress: int): (c: byte)
    requires 0 <= devAddress < 32
    ensures c as int == PollFormula(devAddress)
    ensures c !in ControlChars
  {
    PollTableFormula(devAddress);
    AddressCharsPoll[devAddress]
  }

  /** The select character of a device, defined for 0..31 only. */
  function GetDeviceSelectChar(devAddress: int): (c: byte)
    requires 0 <= devAddress < 32
    ensures c as int == SelectFormula(devAddress)
    ensures c !in ControlChars
  {
    SelectTableFormula(devAddress);
    AddressCharsSelect[devAddress]
  }

  /** hasBscControlChar: true iff some byte of the input is marked in the
      control table; `null` (None) and the empty input give false. */
  function HasBscControlChar(data: Option<seq<byte>>): (r: bool)
    ensures r <==> data.Some? && exists i :: 0 <= i < |data.value| && IsControlChar(data.value[i])
  {
    match data
    case None => false
    case Some(s) => HasControlFrom(s, 0)
  }

  /** The loop of hasBscControlChar from index x on, returning at the first marked byte. */
  function HasControlFrom(s: seq<byte>, x: nat): (r: bool)
    requires x <= |s|
    ensures r <==> exists i :: x <= i < |s| && IsControlChar(s[i])
    decreases |s| - x
  {
    if x == |s| then false
    else if IsControlChar(s[x]) then true
    else HasControlFrom(s, x + 1)
  }

  /** The poll table as a formula of the device number. */
  function PollFormula(i: int): int {
    if i == 0 then 0x40
    else if i < 10 then 0xC0 + i
    else if i < 17 then 0x40 + i
    else if i < 26 then 0xD0 + (i - 16)
    else 0x40 + i
  }

  /** The select table as a formula of the device number. */
  function SelectFormula(i: int): int {
    if i < 2 then 0x60 + i
    else if i < 10 then 0xE0 + i
    else if i < 16 then 0x60 + i
    else if i < 26 then 0xF0 + (i - 16)
    else 0x60 + i
  }

  lemma PollTableFormula(i: int)
    requires 0 <= i < 32
    ensures AddressCharsPoll[i] as int == PollFormula(i)
  {
    if i < 8 {
    } else if i < 16 {
    } else if i < 24 {
    } else {
    }
  }

  lemma SelectTableFormula(i: int)
    requires 0 <= i < 32
    ensures AddressCharsSelect[i] as int == SelectFormula(i)
  {
    if i < 8 {
    } else if i < 16 {
    } else if i < 24 {
    } else {
    }
  }

  /** Row 0 of the control table, eight entries at a time. */
  lemma ControlRow0(b: byte)
    requires b < 0x10
    ensures IsControlChar(b) <==> b in ControlChars
  {
    if b < 0x08 {
    } else {
    }
  }

  /** Row 1 of the control table, eight entries at a time. */
  lemma ControlRow1(b: byte)
    requires 0x10 <= b < 0x20
    ensures IsControlChar(b) <==> b in ControlChars
  {
    if b < 0x18 {
    } else {
    }
  }

  /** Row 2 of the control table, eight entries at a time. */
  lemma ControlRow2(b: byte)
    requires 0x20 <= b < 0x30
    ensures IsControlChar(b) <==> b in ControlChars
  {
    if b < 0x28 {
    } else {
    }
  }

  /** Row 3 of the control table, eight entries at a time. */
  lemma ControlRow3(b: byte)
    requires 0x30 <= b < 0x40
    ensures IsControlChar(b) <==> b in ControlChars
  {
    if b < 0x38 {
    } else {
    }
  }

  /** Every entry of the first four rows of the control table. */
  lemma ControlEntryLow(b: byte)
    requires b < 0x40
    ensures IsControlChar(b) <==> b in ControlChars
  {
    if b < 0x10 {
      ControlRow0(b);
    } else if b < 0x20 {
      ControlRow1(b);
    } else if b < 0x30 {
      ControlRow2(b);
    } else {
      ControlRow3(b);
    }
  }

  /** Rows 4 to 7 of the control table hold no marks. */
  lemma ControlRows4To7(b: byte)
    requires 0x40 <= b < 0x80
    ensures !IsControlChar(b)
  {
    if b < 0x50 {
    } else if b < 0x60 {
    } else if b < 0x70 {
    } else {
    }
  }

  /** Rows 8 to B of the control table hold no marks. */
  lemma ControlRows8ToB(b: byte)
    requires 0x80 <= b < 0xC0
    ensures !IsControlChar(b)
  {
    if b < 0x90 {
    } else if b < 0xA0 {
    } else if b < 0xB0 {
    } else {
    }
  }

  /** Rows C to F of the control table hold no marks. */
  lemma ControlRowsCToF(b: byte)
    requires 0xC0 <= b
    ensures !IsControlChar(b)
  {
    if b < 0xD0 {
    } else if b < 0xE0 {
    } else if b < 0xF0 {
    } else {
    }
  }

  lemma ControlEntryHigh(b: byte)
    requires 0x40 <= b
    ensures !IsControlChar(b)
  {
    if b < 0x80 {
      ControlRows4To7(b);
    } else if b < 0xC0 {
      ControlRows8ToB(b);
    } else {
      ControlRowsCToF(b);
    }
  }

  lemma ControlEntry(b: byte)
    ensures IsControlChar(b) <==> b in ControlChars
    ensures 0x40 <= b ==> !IsControlChar(b)
  {
    if b < 0x40 {
      ControlEntryLow(b);
    } else {
      ControlEntryHigh(b);
    }
  }

  /** Both tables have 32 distinct entries, no character is in both, and
      none is a BSC control character. */
  lemma AddressTablesFacts()
    ensures |AddressCharsPoll| == 32 && |AddressCharsSelect| == 32
    ensures forall i, j :: 0 <= i < j < 32 ==> AddressCharsPoll[i] != AddressCharsPoll[j]
    ensures forall i, j :: 0 <= i < j < 32 ==> AddressCharsSelect[i] != AddressCharsSelect[j]
    ensures forall i, j :: 0 <= i < 32 && 0 <= j < 32 ==> AddressCharsPoll[i] != AddressCharsSelect[j]
    ensures forall i :: 0 <= i < 32 ==> !IsControlChar(AddressCharsPoll[i]) && !IsControlChar(AddressCharsSelect[i])
  {
    forall i | 0 <= i < 32
      ensures AddressCharsPoll[i] as int == PollFormula(i) && AddressCharsSelect[i] as int == SelectFormula(i)
    {
      PollTableFormula(i);
      SelectTableFormula(i);
    }
    forall i | 0 <= i < 32
      ensures !IsControlChar(AddressCharsPoll[i]) && !IsControlChar(AddressCharsSelect[i])
    {
      ControlEntry(AddressCharsPoll[i]);
      ControlEntry(AddressCharsSelect[i]);
    }
  }

  /** The table has 256 entries and marks exactly the eleven control characters;
      the DLE-suffix characters ACK0, ACK1, WACK and RVI are not marked. */
  lemma ControlTableExact()
    ensures |BscControlCheck| == 256
    ensures forall b: byte :: IsControlChar(b) <==> b in ControlChars
    ensures !IsControlChar(ACK0) && !IsControlChar(ACK1) && !IsControlChar(WACK) && !IsControlChar(RVI)
  {
    forall b: byte
      ensures IsControlChar(b) <==> b in ControlChars
    {
      ControlEntry(b);
    }
  }

  /** Distinct device numbers have distinct poll and distinct select characters. */
  lemma AddressTranslationInjective(a: int, b: int)
    requires 0 <= a < 32 && 0 <= b < 32 && a != b
    ensures GetDevicePollChar(a) != GetDevicePollChar(b)
    ensures GetDeviceSelectChar(a) != GetDeviceSelectChar(b)
  {
    PollTableFormula(a);
    PollTableFormula(b);
    SelectTableFormula(a);
    SelectTableFormula(b);
  }
}
