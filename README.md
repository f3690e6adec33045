# tn3270-bsc-bridge: a verified Dafny model of the BSC frame codec and the Telnet client core

The bridge connects IBM 3270-class terminals on a Binary Synchronous
Communications (BSC, EBCDIC variant) multidrop line to a TN3270 host.
This project models five parts of it in Dafny and proves their
properties:

- **The BSC frame codec** (`BscFrames`, `BscFrameSpec`, `BscTextBlocks`,
  `BscFrameCreator`, `Crc16`).
  - `BscFrame` is a class over a fixed-capacity `array<byte>` with a
    `frameSize` counter, a running `crcValue` and a `transparentMode`
    flag.
  - There are three kinds of append: raw, DLE-escaped, and CRC-tracking
    data appends. The last two insert the two block-check (BCC) bytes
    automatically.
  - Received frames are canonicalised by stripping pads and extra SYNs.
  - Frames are classified by their position-sensitive shape.
  - The text payload is extracted.
  - The BCC window is located, and the BCC, which is CRC-16/ARC, is
    appended.
  - `BscFrameCreator` builds EOT, ACK, poll/select and text-command
    frames. `ResponseBscFrame` lets an explicit status override the
    classification.
  - Every loop of the source is a `while` loop proved against a
    value-level function or expression, and the properties are lemmas
    about those functions.
- **The BSC tables** (`BscProtocol`): the control constants, the
  256-entry control-character table, the 32-entry poll and select
  address tables, the address lookups and `hasBscControlChar`.
- **Telnet option negotiation** (`TelnetOptions`, `TelnetOptionSets`).
  - `TelnetOption` is a class whose `optionState` and `desiredState`
    fields change on each WILL/WONT/DO/DONT received. Its replies are
    appended to a `Socket` log of written buffers.
  - `TelnetOptionSet` is the find-or-append registry over a `seq` of
    option objects.
  - The command codes and IAC doubling follow the "TELNET COMMAND
    STRUCTURE" section of RFC 854. The terminal-type exchange
    (IS = 0, SEND = 1) follows RFC 1091, and END-OF-RECORD (command 239,
    option 25) follows RFC 885.
- **The inbound Telnet parser** (`TelnetConnections`).
  - `TelnetConnection.ReceivedData` is the loop of `receivedData`. It
    stores terminal bytes in an 8192-byte `array` with `usedLength`, and
    it executes the embedded commands.
  - On IAC EOR it forwards the record to the terminal handler (a
    `delivered` log) and installs a fresh buffer.
  - The whole loop is proved equal to the recursive function
    `ReceivedFrom` over a `ConnView` of the connection state.
- **The helpers** `hexDump` (`HexDump`, with `Numerals` for
  `toString(16)`) and `parseIntDecOrHex` (`ParseIntDecOrHex`).

The CRC comes from the `crc` package in the source. The model defines it
itself as the bitwise CRC-16/ARC:

- reflected polynomial 0xA001;
- starts from the carried value;
- no final XOR;
- `Crc16.CheckVector` proves the vector `41 42 43 03` → 0x19C5.

Reads past `frameSize` are modelled as `ByteTypes.At`, which gives -1 for
an index outside the content. In JavaScript such a read gives 0 or
`undefined`, and neither is equal to a BSC constant.

## Behaviour of the code worth knowing

In these places the code does something a reader of its names and
comments might not expect. The model follows the code:

- **pushEscapedDataByte.** The BCC is inserted after ETX/ETB/ITB only,
  not after ENQ, although ENQ also ends transparent mode
  (bsc-frame.js:69-79).
- **Normal-mode BCC window.** The window includes the terminator,
  because addBcc computes the CRC over `[startOfCalc, endOfCalc]`
  (bsc-frame.js:365). When an SOH header is present, the window also
  includes the header and the STX.
- **Transparent-mode BCC window.** The window ends at the first byte
  preceded by a DLE. A transparent command whose data contains an
  escaped DLE DLE therefore gets a BCC over the data up to that DLE
  (`BscFrameCreator.CommandBccTransparentStopsAtDle`).
- **makeFrameCommand** pushes the data raw and then calls addBcc. It uses
  neither pushDataByte nor pushEscapedDataByte (bsc-frame.js:570-584).
- **The EOT frame** is `[SYN, EOT]` (bsc-frame.js:452).
- **The doubling round trip does not hold for forEachTextByte as written**
  (see "## Findings"). It holds for the corrected decoder.
- **The transparent-mode field.** The constructor initialises `inTransparentText`
  (bsc-frame.js:28), but the methods use `transparentMode`. The model
  starts `transparentMode` as false, which is what the undefined field
  reads as.
- **The link state machine.** bridge.js holds only stubs for a
  poll/select link state machine; it is not modelled.
- **getFrameType on command frames** (bsc-frame.js:205-246). A command
  frame classifies as text, or as transparent text in transparent mode,
  except in two cases where its block check looks like another frame. A
  seven-byte frame whose low check byte is ENQ classifies as poll/select.
  A normal-mode frame whose check bytes are DLE STX classifies as
  transparent text (`BscFrameCreator.CommandFrameClassifies`).

## Model

| member | source | states |
|---|---|---|
| `ByteTypes.At` | bsc-frame.js:207-228 | An indexed read: the byte at `i` inside the content, and -1 (no BSC constant) exactly when `i` is outside it. |
| `Crc16.BccBytes` | bsc-frame.js:80-83 | The BCC field is exactly two bytes. |
| `Crc16.BccBytesValue` | bsc-frame.js:80-83 | The two BCC bytes are `crc & 0xFF` then `crc >> 8`: low + 256·high equals the CRC. |
| `Crc16.CrcAppend` | bsc-frame.js:68 | Folding the CRC byte by byte, starting from the carried value, composes: the CRC of `a + b` is the CRC of `b` started from the CRC of `a`. |
| `Crc16.CrcSnoc` | bsc-frame.js:103 | One more byte updates the CRC of the prefix by one step. |
| `Crc16.CheckVector` | bsc-frame.js:363-365 | CRC-16/ARC of `41 42 43 03` from 0 is 0x19C5, sent as `C5 19`. |
| `Crc16.CrcSteps` | bsc-frame.js:68 | A four-byte CRC is the four single-byte updates in order. |
| `BscProtocol.GetDevicePollChar` | bsc-protocol.js:69-71 | For an address 0..31, the result is the poll-table entry, given by the closed formula of the table, and it is never a control character. |
| `BscProtocol.GetDeviceSelectChar` | bsc-protocol.js:73-75 | The same for the select table. |
| `BscProtocol.HasBscControlChar` | bsc-protocol.js:77-86 | True iff the data is present and some byte of it is marked in the control table. Null gives false. |
| `BscProtocol.HasControlFrom` | bsc-protocol.js:81-85 | The loop with early return: true iff a marked byte occurs at or after `x`. |
| `BscProtocol.PollTableFormula` | bsc-protocol.js:55-60 | Each of the 32 poll entries equals its closed formula. |
| `BscProtocol.SelectTableFormula` | bsc-protocol.js:62-67 | Each of the 32 select entries equals its closed formula. |
| `BscProtocol.ControlRow0` | bsc-protocol.js:37 | Row 0 of the table marks exactly the control characters in that row. |
| `BscProtocol.ControlRow1` | bsc-protocol.js:38 | Row 1 of the table marks exactly the control characters in that row. |
| `BscProtocol.ControlRow2` | bsc-protocol.js:39 | Row 2 of the table marks exactly the control characters in that row. |
| `BscProtocol.ControlRow3` | bsc-protocol.js:40 | Row 3 of the table marks exactly the control characters in that row. |
| `BscProtocol.ControlEntryLow` | bsc-protocol.js:37-40 | Below 0x40, a byte is marked iff it is one of the eleven control characters. |
| `BscProtocol.ControlRows4To7` | bsc-protocol.js:41-44 | No byte in 0x40..0x7F is marked. |
| `BscProtocol.ControlRows8ToB` | bsc-protocol.js:45-48 | No byte in 0x80..0xBF is marked. |
| `BscProtocol.ControlRowsCToF` | bsc-protocol.js:49-52 | No byte in 0xC0..0xFF is marked. |
| `BscProtocol.ControlEntryHigh` | bsc-protocol.js:41-52 | No byte at or above 0x40 is marked. |
| `BscProtocol.ControlEntry` | bsc-protocol.js:35-53 | For every byte: it is marked iff it is in {SOH, STX, ETX, DLE, ITB, ETB, ENQ, 0x2E, SYN, EOT, NAK}. |
| `BscProtocol.ControlTableExact` | bsc-protocol.js:35-53 | The table has 256 entries, marks exactly the control set, and does not mark ACK0, ACK1, WACK or RVI. |
| `BscProtocol.AddressTablesFacts` | bsc-protocol.js:55-67 | Both tables have 32 entries. Entries within each table are distinct, no byte is in both tables, and no entry is a control character. |
| `BscProtocol.AddressTranslationInjective` | bsc-protocol.js:69-75 | Distinct addresses translate to distinct poll characters and to distinct select characters. |
| `BscFrameSpec.StartFrom` | bsc-frame.js:128-135 | The scan from `i` stops at the first position that is not leading fill, or at the last byte. Every position it passes is fill. |
| `BscFrameSpec.StartOfFrame` | bsc-frame.js:124-138 | findStartOfFrame skips exactly the leading run of pads and of SYNs followed by SYN, and never passes the final byte. |
| `BscFrameSpec.EndFrom` | bsc-frame.js:149-155 | The backward scan passes exactly the positions holding a trailing pad preceded by a trailing pad. |
| `BscFrameSpec.EndOfFrame` | bsc-frame.js:145-158 | findEndOfFrame is -1 for empty data. Otherwise it is the first index of the final pad run, so exactly one trailing pad is kept. |
| `BscFrameSpec.Canonical` | bsc-frame.js:167-187 | The canonical frame is the contiguous slice `[start, end]` of the input, or empty when that range is empty. |
| `BscFrameSpec.CanonicalIdempotent` | bsc-frame.js:167-187 | Canonicalising a canonical frame changes nothing. |
| `BscFrameSpec.CanonicalExamples` | bsc-frame.js:167-187 | `[SYN,SYN,EOT,PAD,PAD]` becomes `[SYN,EOT,PAD]`, a leading pad is dropped, `[EOT]` and `[SYN,EOT]` are kept, and empty stays empty. |
| `BscFrameSpec.EscapedAdded` | bsc-frame.js:60-85 | An escaped append writes DLE and then the byte, plus two BCC bytes exactly when auto-BCC is on and the byte is ETX/ETB/ITB. |
| `BscFrameSpec.DataAdded` | bsc-frame.js:97-117 | A data append always writes the byte first. |
| `BscFrameSpec.EscapedStepFromParts` | bsc-frame.js:60-85 | The state after writing DLE, the byte and the conditional BCC, with the updated CRC and mode, is the escaped step. |
| `BscFrameSpec.DataStepFromParts` | bsc-frame.js:97-117 | The state after the CRC update, the (doubled) byte and the conditional BCC is the data step. |
| `BscFrameSpec.EscapedStepFacts` | bsc-frame.js:60-85 | The escaped step keeps the earlier bytes, writes DLE and the byte (the DLE is never folded), resets the CRC on STX and otherwise folds the byte, and sets transparent mode on STX. ETX/ETB/ITB/ENQ clear transparent mode. With auto-BCC, a terminator is followed by exactly `crc % 256`, `crc / 256`. |
| `BscFrameSpec.DataStepFacts` | bsc-frame.js:97-117 | The data step keeps the earlier bytes and the mode. Outside transparent mode SOH/STX reset the CRC without folding. In transparent mode a DLE is written twice and folded once. A non-transparent terminator with auto-BCC is followed by the BCC of the folded CRC, and any other byte is written once. |
| `BscFrameSpec.FrameTypeOf` | bsc-frame.js:205-246 | The classification in source order. TEXT implies an STX and no DLE STX, TRANSPARENT_TEXT implies an STX, and BAD implies no STX. |
| `BscFrameSpec.FrameTypeExamples` | bsc-frame.js:205-246 | EOT, ACK0/ACK1, WACK, RVI, NAK, POLL_SELECT, TEXT, TRANSPARENT_TEXT and BAD each on a frame of the source's shape. |
| `BscFrameSpec.TextFromSkipsToStx` | bsc-frame.js:265-272 | Outside text, nothing is reported until an STX. |
| `BscFrameSpec.NoStxNoText` | bsc-frame.js:261-298 | A frame without STX yields no text bytes. |
| `BscFrameSpec.FirstStxOrSoh` | bsc-frame.js:309-310 | The first scan of findStartEndForBcc stops at the first STX or SOH. |
| `BscFrameSpec.FirstStx` | bsc-frame.js:314-315 | The scan after an SOH stops at the first STX. |
| `BscFrameSpec.ScanTerminator` | bsc-frame.js:333-337 | The normal end scan stops at the first ETX/ITB/ETB, or at frameSize. |
| `BscFrameSpec.ScanTransparentEnd` | bsc-frame.js:326-331 | The transparent end scan stops at the first index whose predecessor is DLE or which holds a terminator, or at frameSize. |
| `BscFrameSpec.EndScan` | bsc-frame.js:325-338 | The end scan never moves backwards and stays within the frame. |
| `BscFrameSpec.BccWindowOf` | bsc-frame.js:304-343 | The window's start is at least 1 and its end lies between the start and frameSize. |
| `BscFrameSpec.StxAfterHeader` | bsc-frame.js:312-315 | When the first marker is an SOH, an STX follows it, so the second scan ends. |
| `BscFrameSpec.BccWindowWithHeader` | bsc-frame.js:312-317 | With an SOH first: start is just after the SOH, transparent iff the byte before the next STX is DLE, and the end scan starts at that STX. |
| `BscFrameSpec.BccWindowWithoutHeader` | bsc-frame.js:318-322 | With an STX first: start is just after it, transparent iff the preceding byte is DLE, and the end scan starts after the STX. |
| `BscFrameSpec.ReplaceLast` | bsc-frame.js:359-360 | The transparent CRC input is the slice with its last byte replaced by the terminator. |
| `BscFrameSpec.PlainWindowExamples` | bsc-frame.js:304-343 | `SYN SYN STX 41 42 ETX` and `... ITB` give `{3, 5, false}`. |
| `BscFrameSpec.PlainWindow` | bsc-frame.js:304-343 | Every frame of that shape ending in a terminator gives `{3, 5, false}`. |
| `BscFrameSpec.TransparentWindowExamples` | bsc-frame.js:304-343 | `SYN SYN DLE STX 41 42 DLE ETX` and `... DLE ETB` give `{4, 7, true}`. |
| `BscFrameSpec.TransparentWindow` | bsc-frame.js:304-343 | Every frame of that transparent shape gives `{4, 7, true}`. |
| `BscFrameSpec.HeaderFrameWindow` | bsc-frame.js:304-343 | Each header frame `SYN SOH 6C D9 STX ... ETX` gives `{2, 9, false}`, so the CRC covers header, STX, text and ETX. |
| `BscFrameSpec.HeaderFrameOneBcc` | bsc-frame.js:348-372 | The BCC of the first header frame is 0x483F, sent `3F 48`. |
| `BscFrameSpec.HeaderFrameTwoBcc` | bsc-frame.js:348-372 | The BCC of the second header frame is 0x280D, sent `0D 28`. |
| `BscFrameSpec.HeaderFrameOneCrc` | bsc-frame.js:365 | The CRC over the first header window is 0x483F. |
| `BscFrameSpec.HeaderFrameTwoCrc` | bsc-frame.js:365 | The CRC over the second header window is 0x280D. |
| `BscFrames.BscFrame.Bytes` | bsc-frame.js:11-23 | The frame content has exactly frameSize bytes. |
| `BscFrames.BscFrame.Peek` | bsc-frame.js:207-228 | Reading `this[i]` gives a byte or -1 beyond frameSize. |
| `BscFrames.BscFrame.PeekIs` | bsc-frame.js:207-228 | `this[i] === c` for a nonzero constant holds iff `i` is inside the content and holds `c`. |
| `BscFrames.BscFrame.constructor` | bsc-frame.js:13-30 | A frame of the given (or data-sized) capacity holding the initial data, with CRC 0, transparent mode off and auto-BCC on. |
| `BscFrames.BscFrame.PushByte` | bsc-frame.js:46-48 | Appends one byte at frameSize. The earlier bytes are unchanged and frameSize grows by one. |
| `BscFrames.BscFrame.PushBcc` | bsc-frame.js:80-83 | Appends the low then the high byte of the value. |
| `BscFrames.BscFrame.Push` | bsc-frame.js:32-44 | Appends the data in order. The new content is the old content followed by the data. |
| `BscFrames.BscFrame.PushEscapedDataByte` | bsc-frame.js:60-85 | The new state is the escaped step of the old one (see `EscapedStepFacts`). |
| `BscFrames.BscFrame.SwitchOnEscaped` | bsc-frame.js:62-75 | STX resets the CRC and sets transparent mode. Any other byte is folded, and ETX/ETB/ITB/ENQ clear the mode. |
| `BscFrames.BscFrame.PushDataByte` | bsc-frame.js:97-117 | The new state is the data step of the old one (see `DataStepFacts`). |
| `BscFrames.BscFrame.FindStartOfFrame` | bsc-frame.js:124-138 | The loop returns `StartOfFrame`. |
| `BscFrames.BscFrame.FindEndOfFrame` | bsc-frame.js:145-158 | The loop returns `EndOfFrame`. |
| `BscFrames.BscFrame.CreateFrame` | bsc-frame.js:167-187 | A fresh frame whose content is the canonical slice of the input, with capacity equal to its length. |
| `BscFrames.BscFrame.GetFrameType` | bsc-frame.js:205-246 | The loops classify the content as `FrameTypeOf`. |
| `BscFrames.BscFrame.HasHeader` | bsc-frame.js:248-255 | True iff an SOH lies within frameSize. |
| `BscFrames.BscFrame.ForEachTextByte` | bsc-frame.js:261-298 | The sequence of bytes passed to the callback is `TextBytes` of the content. |
| `BscFrames.BscFrame.TextStep` | bsc-frame.js:265-296 | One turn of the loop reports the bytes that `TextFrom` yields between the old and the new index, and the index advances. |
| `BscFrames.BscFrame.ScanToStxOrSoh` | bsc-frame.js:308-310 | The first scan stops at `FirstStxOrSoh`. |
| `BscFrames.BscFrame.ScanToStx` | bsc-frame.js:314-315 | The scan after an SOH stops at `FirstStx`. |
| `BscFrames.BscFrame.ScanToEnd` | bsc-frame.js:324-338 | The end loops stop at `EndScan` in both modes. |
| `BscFrames.BscFrame.FindStartEndForBcc` | bsc-frame.js:304-343 | Returns `BccWindowOf` of the content when an STX is present. |
| `BscFrames.BscFrame.WindowAfterHeader` | bsc-frame.js:312-317 | The SOH branch computes the window. |
| `BscFrames.BscFrame.WindowAfterStx` | bsc-frame.js:318-322 | The STX branch computes the window. |
| `BscFrames.BscFrame.AddBcc` | bsc-frame.js:348-372 | Appends exactly the two bytes of the CRC over the window (normal: inclusive slice; transparent: slice with its last byte replaced by the terminator) and leaves the earlier bytes unchanged. |
| `BscFrames.ResponseBscFrame.constructor` | bsc-frame.js:377-380 | A frame over the initial data with the given status. |
| `BscFrames.ResponseBscFrame.GetResponseStatus` | bsc-frame.js:382-387 | A truthy status (present and nonzero) is returned as is; otherwise the classification code of the frame. |
| `BscTextBlocks.DataRunTransparent` | bsc-frame.js:97-117 | Data pushes in transparent mode write each DLE twice, fold every byte once and keep the mode. |
| `BscTextBlocks.TransparentRunBytes` | bsc-frame.js:105-108 | The bytes written by a transparent data run are the DLE-doubled data. |
| `BscTextBlocks.TransparentStepBytes` | bsc-frame.js:105-108 | One transparent data push writes the DLE-doubled byte. |
| `BscTextBlocks.TransparentRunCrc` | bsc-frame.js:103 | The CRC after a transparent data run is the CRC of the undoubled data. |
| `BscTextBlocks.TransparentDataStep` | bsc-frame.js:97-117 | The state after one transparent data push. |
| `BscTextBlocks.DataRunNormal` | bsc-frame.js:97-117 | Data pushes of control-free data outside transparent mode write the data as is and fold it into the CRC. |
| `BscTextBlocks.NormalDataStep` | bsc-frame.js:97-117 | The state after one non-transparent data push of a non-control byte. |
| `BscTextBlocks.NormalRunBytes` | bsc-frame.js:108 | The bytes written by a normal data run are the data. |
| `BscTextBlocks.NormalRunCrc` | bsc-frame.js:103 | The CRC after a normal data run is the CRC of the data. |
| `BscTextBlocks.PlainBlockBytes` | bsc-frame.js:97-117 | SYN, then data pushes of STX, the data and a terminator, give `SYN STX data term lo hi`, whose BCC is the CRC of data + term. |
| `BscTextBlocks.TransparentBlockBytes` | bsc-frame.js:60-117 | SYN, DLE STX, the data and DLE term give `SYN DLE STX doubled(data) DLE term lo hi`, whose BCC is the CRC of data + term. |
| `BscTextBlocks.PlainTextRun` | bsc-frame.js:274-296 | In normal text, terminator-free data is reported byte for byte. |
| `BscTextBlocks.TransparentTextRun` | bsc-frame.js:283-295 | In transparent text, DLE-doubled data is reported undoubled. |
| `BscTextBlocks.PlainTextTail` | bsc-frame.js:265-296 | After a normal terminator, a BCC whose low byte is STX re-opens text and its high byte is reported. |
| `BscTextBlocks.TransparentTextTail` | bsc-frame.js:265-296 | After DLE term, a BCC whose low byte is STX re-opens transparent text. |
| `BscTextBlocks.PlainBlockText` | bsc-frame.js:261-298 | forEachTextByte on an encoded normal block yields the data, plus the high BCC byte when the low one is STX. |
| `BscTextBlocks.PlainFrameText` | bsc-frame.js:261-298 | The same on any frame of that shape. |
| `BscTextBlocks.TransparentBlockText` | bsc-frame.js:261-298 | forEachTextByte on an encoded transparent block yields the data, plus the high BCC byte when the low one is STX. |
| `BscTextBlocks.TransparentFrameText` | bsc-frame.js:261-298 | The same on any frame of that shape. |
| `BscTextBlocks.IntendedPlainRun` | bsc-frame.js:274-296 | The corrected decoder reports terminator-free normal text byte for byte. |
| `BscTextBlocks.IntendedTransparentRun` | bsc-frame.js:283-295 | The corrected decoder undoubles transparent text. |
| `BscTextBlocks.PlainBlockRoundTrip` | bsc-frame.js:261-298 | The corrected decoder recovers exactly the data of every encoded normal block. |
| `BscTextBlocks.PlainFrameRoundTrip` | bsc-frame.js:261-298 | The same on any normal frame of that shape, whatever its BCC bytes. |
| `BscTextBlocks.TransparentBlockRoundTrip` | bsc-frame.js:261-298 | The corrected decoder recovers exactly the data of every encoded transparent block (the doubling round trip). |
| `BscTextBlocks.TransparentFrameRoundTrip` | bsc-frame.js:261-298 | The same on any transparent frame of that shape, whatever its BCC bytes. |
| `BscTextBlocks.BccStxReopensText` | bsc-frame.js:265-272 | The block `SYN STX F9 ETX` has BCC `02 51`. forEachTextByte yields `F9 51`, and the corrected decoder yields `F9`. |
| `BscTextBlocks.DleSynSkipsThree` | bsc-frame.js:289-291 | In `DLE STX 41 DLE SYN 42 DLE ETX`, forEachTextByte yields only `41`, and the corrected decoder yields `41 42`. |
| `BscFrameCreator.Terminator` | bsc-frame.js:553-556 | The end-of-text byte is a terminator (ETX if last, else ETB) and not DLE. |
| `BscFrameCreator.UnsealedCommand` | bsc-frame.js:570-578 | The unsealed command frame ends its prefix with STX. |
| `BscFrameCreator.MakeFrameEot` | bsc-frame.js:451-454 | A fresh frame `[SYN, EOT]`. |
| `BscFrameCreator.MakeFrameAck` | bsc-frame.js:456-463 | `[SYN, DLE, ACK0]` for 0, and `[SYN, DLE, ACK1]` for any other argument. |
| `BscFrameCreator.MakeFramePollSelectAddress` | bsc-frame.js:473-481 | `[SYN, cu, cu, dev, dev, ENQ]`. |
| `BscFrameCreator.MakeFrameSelectAddress` | bsc-frame.js:493-500 | The address frame with the select character of the control unit and the poll character of the device. |
| `BscFrameCreator.MakeFramePollAddress` | bsc-frame.js:512-519 | The address frame with poll characters for both. |
| `BscFrameCreator.CreateFrameWithPrefix` | bsc-frame.js:521-538 | A fresh 300-byte frame holding `SYN STX`, or `SYN DLE STX` in transparent mode. |
| `BscFrameCreator.AddEndOfText` | bsc-frame.js:548-559 | Appends `[DLE] ETX` if last, else `[DLE] ETB`. |
| `BscFrameCreator.MakeFrameCommand` | bsc-frame.js:570-584 | Prefix, raw data, end of text, then the BCC that addBcc computes over that frame. |
| `BscFrameCreator.MakeUnsealedCommand` | bsc-frame.js:572-578 | The frame before addBcc: prefix, data, end of text. |
| `BscFrameCreator.CommandFrameShape` | bsc-frame.js:570-584 | A command frame is prefix, data, `[DLE]`, terminator and two BCC bytes, in that layout. |
| `BscFrameCreator.SealedShape` | bsc-frame.js:570-584 | The layout of an unsealed command plus any two BCC bytes. |
| `BscFrameCreator.CommandBccNormal` | bsc-frame.js:570-584 | For terminator-free data in normal mode, the BCC covers exactly the data and the terminator. |
| `BscFrameCreator.NormalCommandInput` | bsc-frame.js:359-365 | The CRC input of `SYN STX data term` is data + term. |
| `BscFrameCreator.NormalCommandEnd` | bsc-frame.js:333-337 | The normal end scan of that frame stops at the terminator. |
| `BscFrameCreator.CommandBccTransparent` | bsc-frame.js:570-584 | For DLE-free, terminator-free data in transparent mode, the BCC covers exactly the data and the terminator. |
| `BscFrameCreator.TransparentCommandInput` | bsc-frame.js:359-363 | The CRC input of `SYN DLE STX data DLE term` is data + term. |
| `BscFrameCreator.TransparentCommandEnd` | bsc-frame.js:326-331 | The transparent end scan of that frame stops at the terminator after the DLE. |
| `BscFrameCreator.CommandBccModeIndependent` | bsc-frame.js:570-584 | For such data, the BCC is the same in both modes. |
| `BscFrameCreator.CommandBccTransparentStopsAtDle` | bsc-frame.js:326-331 | With data `DLE DLE`, the transparent window ends after the first DLE: the BCC is the CRC of `DLE` (0xCC01), not of `DLE ETX` (0xC14D). |
| `BscFrameCreator.EtbVector` | bsc-frame.js:363-365 | The CRC of `41 42 43 ETB` is 0xC204, sent `04 C2`. |
| `BscFrameCreator.CommandFrameExampleEtx` | bsc-frame.js:570-584 | `[41, 42, 43]` as a last block ends `C5 19` in both modes. |
| `BscFrameCreator.CommandFrameExampleEtb` | bsc-frame.js:570-584 | `[41, 42, 43]` as a non-last block ends `04 C2` in both modes. |
| `BscFrameCreator.CommandBccBoth` | bsc-frame.js:570-584 | On `[41, 42, 43]`, the CRC input is the data and the terminator, in both modes. |
| `BscFrameCreator.PollSelectClassifies` | bsc-frame.js:227-229 | A padded address frame of non-control characters classifies as POLL_SELECT, and its four address bytes hold no control character. |
| `BscFrameCreator.PollSelectFrameClassifies` | bsc-frame.js:493-519 | The same for every poll and select frame of addresses 0..31. |
| `BscFrameCreator.CommandFrameClassifies` | bsc-frame.js:205-246 | A command frame (DLE-free data in normal mode) classifies as text or transparent text by its mode. The exceptions are a seven-byte frame whose low check byte is ENQ (poll/select) and a normal frame whose check bytes are DLE STX (transparent text). |
| `BscFrameCreator.AddressFrameExamples` | bsc-frame.js:493-519 | select(2,1) is `E2 E2 C1 C1`, select(1,0) is `61 61 40 40`, and poll(2,1) is `C2 C2 C1 C1`. |
| `TelnetOptions.CommandOf` | telnet-client.js:345-360 | A command byte decodes to WILL/WONT/DO/DONT iff it is 0xFB..0xFE, and back to the same code. |
| `TelnetOptions.ReplyWrites` | telnet-client.js:259-263 | A reply writes one buffer, and no reply writes none. |
| `TelnetOptions.WillFacts` | telnet-client.js:109-145 | WILL never changes the desired state and always replies. A DISABLED desire gives DONT and DISABLED; otherwise DO and ENABLED. |
| `TelnetOptions.DoFacts` | telnet-client.js:185-220 | A DISABLED desire gives WONT and DISABLED. Otherwise the option becomes ENABLED and WILL is sent unless it already was ENABLED, in which case nothing is sent. |
| `TelnetOptions.WontFacts` | telnet-client.js:147-183 | After WONT both states are DISABLED. One DONT is sent unless both already were DISABLED. |
| `TelnetOptions.DontFacts` | telnet-client.js:222-257 | After DONT both states are DISABLED. One WONT is sent unless both already were DISABLED. |
| `TelnetOptions.SetDesiredFacts` | telnet-client.js:95-107 | The desired state is stored. Nothing is sent iff it is unchanged; otherwise WILL for ENABLED and WONT for anything else. |
| `TelnetOptions.NeverEnablesUnwanted` | telnet-client.js:109-257 | Whatever is received, an option not wanted ends DISABLED in both states. |
| `TelnetOptions.ReplyTableComplete` | telnet-client.js:50-82 | The documented table has a row for every command, current state and desired state. |
| `TelnetOptions.ReplyTableAgrees` | telnet-client.js:50-82 | Every row of the documented table is what the transition functions do. |
| `TelnetOptions.Socket.Write` | telnet-client.js:259-263 | A write appends the buffer to the socket log. |
| `TelnetOptions.TelnetOption.SendWill` | telnet-client.js:265-273 | Writes exactly `[IAC, WILL, optionCode]`. |
| `TelnetOptions.TelnetOption.SendWont` | telnet-client.js:275-282 | Writes exactly `[IAC, WONT, optionCode]`. |
| `TelnetOptions.TelnetOption.SendDo` | telnet-client.js:284-291 | Writes exactly `[IAC, DO, optionCode]`. |
| `TelnetOptions.TelnetOption.SendDont` | telnet-client.js:293-300 | Writes exactly `[IAC, DONT, optionCode]`. |
| `TelnetOptions.TelnetOption.SetDesiredState` | telnet-client.js:95-107 | The fields and the socket log change as `SetDesired` says (see `SetDesiredFacts`). |
| `TelnetOptions.TelnetOption.ReceivedWill` | telnet-client.js:109-145 | The fields and the socket log change as `OnWill` says (see `WillFacts`). |
| `TelnetOptions.TelnetOption.ReceivedWont` | telnet-client.js:147-183 | The fields and the socket log change as `OnWont` says (see `WontFacts`). |
| `TelnetOptions.TelnetOption.ReceivedDo` | telnet-client.js:185-220 | The fields and the socket log change as `OnDo` says (see `DoFacts`). |
| `TelnetOptions.TelnetOption.ReceivedDont` | telnet-client.js:222-257 | The fields and the socket log change as `OnDont` says (see `DontFacts`). |
| `TelnetOptionSets.IndexOf` | telnet-client.js:330 | `find` gives the first option with the code, or the end when there is none. |
| `TelnetOptionSets.WithOption` | telnet-client.js:329-341 | The registry is unchanged when the code is present. Otherwise one `UNSUPPORTED_<code>` DISABLED entry is appended. Afterwards the code is found. |
| `TelnetOptionSets.WithOptionIdempotent` | telnet-client.js:329-341 | Looking the code up again changes nothing, and the size grows by exactly one iff the code was missing. |
| `TelnetOptionSets.ReceiveCommandFacts` | telnet-client.js:343-362 | The command is handled iff it is WILL/WONT/DO/DONT. The instance is created even when it is not handled, only that option's entry changes, and at most one buffer is written. |
| `TelnetOptionSets.UnknownOptionRefused` | telnet-client.js:329-362 | WILL for an unknown option registers it DISABLED and sends DONT. DO sends WONT. |
| `TelnetOptionSets.Tn3270OptionsAccepted` | telnet-client.js:314-362 | With the TN3270 options registered, WILL for BINARY, EOR or TERMINAL_TYPE is answered with DO and enables that option. |
| `TelnetOptionSets.UnsupportedNameExample` | telnet-client.js:337 | The name of an unsupported option is `UNSUPPORTED_` followed by its code in decimal. |
| `TelnetOptionSets.EntriesOf` | telnet-client.js:303-306 | The registry's view lists the options in order. |
| `TelnetOptionSets.TelnetOptionSet.constructor` | telnet-client.js:304-306 | An empty registry. |
| `TelnetOptionSets.TelnetOptionSet.AddOption` | telnet-client.js:308-312 | Appends one fresh option with state UNKNOWN and returns it. |
| `TelnetOptionSets.TelnetOptionSet.SetTn3270Options` | telnet-client.js:314-327 | Appends BINARY(0), EOR(25) and TERMINAL_TYPE(24), all ENABLED, in that order. |
| `TelnetOptionSets.TelnetOptionSet.GetOptionInstance` | telnet-client.js:329-341 | Returns the first option with the code, appending one DISABLED unsupported option when there is none. |
| `TelnetOptionSets.TelnetOptionSet.ReceiveCommand` | telnet-client.js:343-362 | The registry, the returned flag and the socket log change as `ReceiveCommandSpec` says (see `ReceiveCommandFacts`). |
| `TelnetOptionSets.TelnetOptionSet.Dispatch` | telnet-client.js:345-361 | The switch: a negotiation command runs that transition on the instance, and any other command changes nothing and returns false. |
| `TelnetOptionSets.TelnetOptionSet.SetDesiredState` | telnet-client.js:364-367 | Finds or creates the option and sets its desired state. |
| `TelnetOptionSets.TelnetOptionSet.OthersUnchanged` | telnet-client.js:329-367 | Changing one option object changes only its entry in the registry. |
| `TelnetConnections.CharBytes` | telnet-client.js:414-415 | The terminal type is written one char code modulo 256 per character (characters outside the Basic Multilingual Plane are under "## Left out"). |
| `TelnetConnections.TerminalTypeBytesShape` | telnet-client.js:406-422 | The terminal-type reply is `FF FA 18 00`, the char codes, and `FF F0`, of length 6 + length of the type. |
| `TelnetConnections.TerminalTypeBytesFromParts` | telnet-client.js:406-422 | A buffer filled as sendTerminalType fills it is the reply. |
| `TelnetConnections.TerminalTypeExample` | telnet-client.js:406-422 | Terminal type "A1234" gives `FF FA 18 00 41 31 32 33 34 FF F0`. |
| `TelnetConnections.LastIacSe` | telnet-client.js:443-448 | The last IAC SE pair in the range, or none. |
| `TelnetConnections.FindLastIacSe` | telnet-client.js:443-448 | The loop without a break finds `LastIacSe`. |
| `TelnetConnections.ExecuteCommand` | telnet-client.js:436-477 | Every command length that executeReceivedCommand returns is at least 2. |
| `TelnetConnections.ReceivedKeepsConsistent` | telnet-client.js:498-524 | The whole parse keeps the buffer holding the first usedLength bytes, up to its capacity. |
| `TelnetConnections.CommandKeepsConsistent` | telnet-client.js:436-477 | Every command keeps the buffer consistent. |
| `TelnetConnections.PlainDataAppended` | telnet-client.js:519-522 | IAC-free data is appended in order after the existing usedLength. |
| `TelnetConnections.EscapedIac` | telnet-client.js:513-518 | IAC IAC becomes one 0xFF. |
| `TelnetConnections.EndOfRecordForwards` | telnet-client.js:466-471 | IAC EOR delivers exactly the bytes `[0, usedLength)` and restarts with an empty buffer. |
| `TelnetConnections.OverflowDropped` | telnet-client.js:516-521 | Past the 8192-byte capacity a byte is dropped but counted, and the buffer stays consistent. |
| `TelnetConnections.NegotiationCommand` | telnet-client.js:458-464 | IAC WILL/WONT/DO/DONT opt dispatches (cmd, opt) to the registry and has length 3. Without an option byte it throws. |
| `TelnetConnections.SubnegotiationExamples` | telnet-client.js:439-452 | An SB command ending in IAC SE has length 6 at index 2 and length 8 at index 0. |
| `TelnetConnections.SubnegotiationRunsToLastEnd` | telnet-client.js:443-448 | Two SB commands in one buffer are one command up to the last IAC SE, so the terminal type is sent once. |
| `TelnetConnections.UnterminatedSubnegotiationStops` | telnet-client.js:441-452 | An SB with no IAC SE has an undefined length, and the loop stops. |
| `TelnetConnections.RecordExample` | telnet-client.js:498-536 | `41 42 IAC SB 18 01 IAC SE 43 44 45 IAC EOR` answers the terminal-type request once, delivers the record `41 42 43 44 45` and empties the buffer. |
| `TelnetConnections.RecordHead` | telnet-client.js:498-524 | The first eight bytes store `41 42` and answer the request. |
| `TelnetConnections.RecordRequest` | telnet-client.js:424-452 | The SB SEND request at index 2 answers with the terminal type and resumes at index 8. |
| `TelnetConnections.RecordTail` | telnet-client.js:498-536 | `43 44 45 IAC EOR` delivers the buffer with those bytes and empties it. |
| `TelnetConnections.TerminalTypeRequest` | telnet-client.js:424-452 | IAC SB 18 01 answers with the terminal type and resumes after the last IAC SE. |
| `TelnetConnections.NewTn3270OptionSet` | telnet-client.js:394-395 | A fresh registry holding the TN3270 options. |
| `TelnetConnections.TelnetConnection.constructor` | telnet-client.js:385-398 | Terminal type `IBM-3279-4-E`, the TN3270 options, an empty buffer, nothing written or delivered. |
| `TelnetConnections.TelnetConnection.SetupTerminalReceivedDatabuffer` | telnet-client.js:482-485 | A fresh zeroed 8192-byte buffer with usedLength 0. |
| `TelnetConnections.TelnetConnection.ForwardTerminalReceivedDataBuffer` | telnet-client.js:529-536 | Delivers the stored bytes and installs a fresh buffer. |
| `TelnetConnections.TelnetConnection.AppendTerminalByte` | telnet-client.js:516-521 | Stores a byte at usedLength while there is room and counts it. |
| `TelnetConnections.TelnetConnection.SendTerminalType` | telnet-client.js:406-422 | Writes exactly the terminal-type reply. |
| `TelnetConnections.TelnetConnection.ExecuteCommandSB` | telnet-client.js:424-429 | Sends the terminal type iff the bytes after SB are `18 01`. |
| `TelnetConnections.TelnetConnection.ReceiveNegotiation` | telnet-client.js:431-434 | Passes the command to the registry, and changes the registry and the socket log as `ReceiveCommandSpec` says. |
| `TelnetConnections.TelnetConnection.ExecuteReceivedCommand` | telnet-client.js:436-477 | The new state and the returned length are `ExecuteCommand` of the old state: 2 for SE and EOR, 3 for negotiation and unknown commands, last IAC SE + 2 − idx for SB. |
| `TelnetConnections.TelnetConnection.ReceiveStep` | telnet-client.js:504-522 | One turn of the loop advances the index and leaves the rest of the parse as `ReceivedFrom` says. |
| `TelnetConnections.TelnetConnection.ReceivedData` | telnet-client.js:498-524 | The final state and outcome are `ReceivedFrom` of the old state over the whole data. |
| `HexDump.HexPair` | hex-dump.js:7-12 | A byte renders as exactly two characters. |
| `HexDump.HexRange` | hex-dump.js:6-13 | The hex of a range has two characters per byte. |
| `HexDump.ByteHexDigits` | hex-dump.js:7-12 | Rendering with a leading `0` below 16 gives the two-digit form. |
| `HexDump.ByteHexRoundTrip` | hex-dump.js:7-12 | Each byte renders as exactly two lowercase hex digits that read back as its value. |
| `HexDump.HexRangeSplit` | hex-dump.js:6-13 | Hex of adjacent ranges concatenates. |
| `HexDump.HexRangeAt` | hex-dump.js:6-13 | Characters `2i` and `2i+1` of a range's hex are the digits of byte `i`. |
| `HexDump.LineCount` | hex-dump.js:4 | No lines iff length ≤ 0. |
| `HexDump.Offsets` | hex-dump.js:4 | The line offsets lie in `[x, length)`, one per line. |
| `HexDump.LineCountCeil` | hex-dump.js:4 | For bytesPerLine > 0 the line count is ceil(length / bytesPerLine). |
| `HexDump.OffsetAt` | hex-dump.js:4 | Line `i` starts at offset `i · bytesPerLine`. |
| `HexDump.OffsetField` | hex-dump.js:14 | The offset is lowercase hex, zero-padded to at least four digits (exactly four below 0x10000), and reads back as the offset. |
| `HexDump.HexPart` | hex-dump.js:6-13 | The inner loop accumulates the hex of `data[x..end)`. |
| `HexDump.Dump` | hex-dump.js:3-16 | No lines for length ≤ 0. Otherwise the sequence of lines passed to `fn`, one per offset, each `linePrefix 0x<offset> - <hex of data[k·bpl .. min((k+1)·bpl, length))>`; isEbcdic has no effect. |
| `HexDump.DumpLineAt` | hex-dump.js:4-14 | Line `i` of the dump is the line for offset `i · bytesPerLine` and covers `data[off .. min(off + bpl, length))`. |
| `HexDump.LineParts` | hex-dump.js:6-13 | One hex part per line offset, in line order. |
| `HexDump.LinePartAt` | hex-dump.js:6-13 | Part k is the hex of the bytes of the line at the k-th offset. |
| `HexDump.LinePartsCoverData` | hex-dump.js:3-16 | The hex parts of the lines from offset x, joined in order, are the hex of `data[x..length)`. |
| `HexDump.DumpCoversData` | hex-dump.js:3-16 | Line k of the dump is the prefix, the k-th offset and the k-th hex part, and the hex parts joined are the hex of `data[0..length)`: every byte is shown once, in order. |
| `HexDump.ExampleHex` | hex-dump.js:7-12 | `[0A, FF, 41]` renders as `0aff41`. |
| `HexDump.ExampleOffset` | hex-dump.js:14 | Offset 0 renders as `0000`. |
| `HexDump.DumpExample` | hex-dump.js:3-16 | The dump of `[0A, FF, 41]` with prefix `telnet >` is the single line `telnet > 0x0000 - 0aff41`. |
| `Numerals.DigitValue` | parse-int-dec-or-hex.js:12-15 | A hex digit has a value below 16, and below 10 iff it is a decimal digit. |
| `Numerals.DigitChar` | hex-dump.js:9-12 | The digit for a value below 16 is a lowercase hex digit of that value. |
| `Numerals.Render` | hex-dump.js:9-14 | `toString(radix)` gives at least one digit of the radix, in lowercase. |
| `Numerals.RenderRoundTrip` | hex-dump.js:9-14 | Rendered digits read back as the number and have no leading zero except for 0. |
| `ParseIntDecOrHex.TrimStart` | parse-int-dec-or-hex.js:10 | The result of trimming the start does not begin with white space. |
| `ParseIntDecOrHex.TrimEnd` | parse-int-dec-or-hex.js:10 | The result of trimming the end does not end with white space. |
| `ParseIntDecOrHex.LowerChar` | parse-int-dec-or-hex.js:10 | Lowercasing preserves whether a character is white space. |
| `ParseIntDecOrHex.ToLower` | parse-int-dec-or-hex.js:10 | `toLowerCase` maps each character and keeps the length. |
| `ParseIntDecOrHex.DigitPrefix` | parse-int-dec-or-hex.js:12-15 | The longest prefix of digits of the base, followed by a non-digit or the end. |
| `ParseIntDecOrHex.LeadingDigits` | parse-int-dec-or-hex.js:12-15 | parseInt of a digit prefix gives a non-negative number or NaN. |
| `ParseIntDecOrHex.ParseUnsigned` | parse-int-dec-or-hex.js:12-15 | parseInt without a sign gives a number or NaN. |
| `ParseIntDecOrHex.ParseInt` | parse-int-dec-or-hex.js:12-15 | parseInt gives a number or NaN. |
| `ParseIntDecOrHex.ParseLowered` | parse-int-dec-or-hex.js:11-15 | The lowered string parses to a number or NaN. |
| `ParseIntDecOrHex.ParseIntDecOrHex` | parse-int-dec-or-hex.js:3-16 | Null, undefined and numbers are returned as given, and a string gives a number or NaN. |
| `ParseIntDecOrHex.DigitPrefixOfDigits` | parse-int-dec-or-hex.js:12-15 | Digits followed by a non-digit have exactly those digits as their prefix. |
| `ParseIntDecOrHex.DigitsRead` | parse-int-dec-or-hex.js:12-15 | A string of digits reads as its value. |
| `ParseIntDecOrHex.LoweredHex` | parse-int-dec-or-hex.js:11-12 | A `0x` prefix selects base 16 on the rest. |
| `ParseIntDecOrHex.LoweredDecimal` | parse-int-dec-or-hex.js:14-15 | A leading decimal digit without `0x` reads in base 10. |
| `ParseIntDecOrHex.LoweredNegative` | parse-int-dec-or-hex.js:14-15 | A leading `-` negates the unsigned parse of the rest. |
| `ParseIntDecOrHex.DecimalRoundTrip` | parse-int-dec-or-hex.js:3-16 | The decimal string of every natural number parses back to it, with numbers as unbounded integers (see "## Left out"). |
| `ParseIntDecOrHex.HexRoundTrip` | parse-int-dec-or-hex.js:3-16 | `0x` followed by the hex string of every natural number parses back to it, with numbers as unbounded integers (see "## Left out"). |
| `ParseIntDecOrHex.HexNormal` | parse-int-dec-or-hex.js:10 | `0x` plus lowercase hex digits is unchanged by trim and lowercase. |
| `ParseIntDecOrHex.LowerDigits` | parse-int-dec-or-hex.js:10 | Lowercase digits are unchanged by lowercasing. |
| `ParseIntDecOrHex.ReadsAs` | parse-int-dec-or-hex.js:10-15 | A string is parsed as its trimmed, lowercased form. |
| `ParseIntDecOrHex.AlreadyNormal` | parse-int-dec-or-hex.js:10 | A string with no outer white space and no capitals is unchanged by trim and lowercase. |
| `ParseIntDecOrHex.NormalisedUpper` | parse-int-dec-or-hex.js:10 | `0X41` normalises to `0x41`. |
| `ParseIntDecOrHex.NormalisedPadded` | parse-int-dec-or-hex.js:10 | ` 0x41 ` trims to `0x41`. |
| `ParseIntDecOrHex.Value41` | parse-int-dec-or-hex.js:12-15 | Digit values: `41` in hex is 65, `12` and `123` in decimal are 12 and 123, and `10` in hex is 16. |
| `ParseIntDecOrHex.Lowered41` | parse-int-dec-or-hex.js:11-12 | `0x41` parses to 65. |
| `ParseIntDecOrHex.Lowered123abc` | parse-int-dec-or-hex.js:14-15 | `123abc` parses to 123 (longest digit prefix). |
| `ParseIntDecOrHex.LoweredDigitsThen` | parse-int-dec-or-hex.js:14-15 | Decimal digits not starting with 0, followed by a non-digit, parse to their value. |
| `ParseIntDecOrHex.LoweredAbc` | parse-int-dec-or-hex.js:14-15 | `abc` parses to NaN. |
| `ParseIntDecOrHex.LoweredBarePrefix` | parse-int-dec-or-hex.js:11-12 | `0x` with no digits parses to NaN. |
| `ParseIntDecOrHex.LoweredMinus12` | parse-int-dec-or-hex.js:14-15 | `-12` parses to -12. |
| `ParseIntDecOrHex.LoweredMinusHex` | parse-int-dec-or-hex.js:14-15 | `-0x10` parses to -16, since parseInt accepts the hex prefix after a sign. |
| `ParseIntDecOrHex.HexExamples` | parse-int-dec-or-hex.js:10-12 | `0x41`, `0X41` and ` 0x41 ` all give 65. |
| `ParseIntDecOrHex.DecimalExample` | parse-int-dec-or-hex.js:14-15 | `123abc` gives 123. |
| `ParseIntDecOrHex.NoDigitExample` | parse-int-dec-or-hex.js:14-15 | `abc` gives NaN. |
| `ParseIntDecOrHex.BarePrefixExample` | parse-int-dec-or-hex.js:11-12 | `0x` gives NaN. |
| `ParseIntDecOrHex.NegativeDecimalExample` | parse-int-dec-or-hex.js:14-15 | `-12` gives -12. |
| `ParseIntDecOrHex.NegativeHexExample` | parse-int-dec-or-hex.js:14-15 | `-0x10` gives -16. |
| `ParseIntDecOrHex.TrimStartSpace` | parse-int-dec-or-hex.js:10 | Leading white space does not survive trimming. |
| `ParseIntDecOrHex.TrimEndSpace` | parse-int-dec-or-hex.js:10 | Trailing white space does not survive trimming. |
| `ParseIntDecOrHex.TrimStartThenSpace` | parse-int-dec-or-hex.js:10 | Trailing white space does not survive a full trim. |
| `ParseIntDecOrHex.Padding` | parse-int-dec-or-hex.js:10-15 | White space around a string never changes its value. |
| `ParseIntDecOrHex.CaseInsensitive` | parse-int-dec-or-hex.js:10-15 | Lowercasing a string first never changes its value. |
| `ParseIntDecOrHex.LowerIdempotent` | parse-int-dec-or-hex.js:10 | Lowercasing twice is lowercasing once. |
| `ParseIntDecOrHex.TrimStartLower` | parse-int-dec-or-hex.js:10 | Trimming the start commutes with lowercasing. |
| `ParseIntDecOrHex.TrimEndLower` | parse-int-dec-or-hex.js:10 | Trimming the end commutes with lowercasing. |
| `ParseIntDecOrHex.TrimLowerCommute` | parse-int-dec-or-hex.js:10 | Trim commutes with lowercasing. |

## Left out

- **Logging.** Logging and diagnostics (`logMgr`, `console.warn` and the hexDump calls inside socket writes) are side effects with no bearing on state.
- **Socket I/O.** `socketWrite`, `connect`, `sendData` and `close` are socket I/O. A socket is modelled as the log `written` of the buffers handed to `write`.
- **The terminal handler.** `registerDataReceiver` and the handler are modelled as the log `delivered`. The TypeError that forwarding throws when no handler is registered is not modelled.
- **The constructor arguments.** The connection's `host` and `port` are not modelled, and neither are `Net.Socket` or `isOpen`.
- **Files outside the core.**
  - bridge.js, serial-comms.js and logger.js are not part of this model. bridge.js holds only stubs for a poll/select link state machine; it is not modelled.
  - test/test-bsc.js targets functions that do not exist and the commented-out code at bsc-frame.js:395-449, which is not modelled.
- **JavaScript runtime typing.**
  - Type dispatch on `Array`/`Buffer`/`Uint8Array` in the BscFrame constructor and in `push` is not modelled: data is always a byte sequence.
  - `receivedData`'s `instanceof String` conversion is not modelled.
  - Values outside 0..255 written into typed arrays are not modelled.
- **BscFrames.BscFrame.PushByte** requires room in the buffer (and so do `Push`, `PushBcc`, `PushEscapedDataByte`, `PushDataByte` and `AddBcc`). The source silently drops a write past the typed array's capacity while `frameSize` still grows. Factory frames have capacity 300.
- **BscFrameCreator.MakeFrameCommand** requires the data to fit the 300-byte frame, for the same reason.
- **BscProtocol.GetDevicePollChar** requires an address in 0..31 (as do `GetDeviceSelectChar`, `MakeFrameSelectAddress` and `MakeFramePollAddress`). The source indexes the table and gets `undefined` outside it.
- **BscFrames.BscFrame.FindStartEndForBcc** requires an STX in the frame (as does `AddBcc`). Without one, the source's unbounded scans never stop.
- **BscFrameSpec.FrameTypeOf** drops the second, unreachable `this[1] === BSC.ENQ` test at bsc-frame.js:211. It can never change the result.
- **The `26 88` test vector.** The BCC vector `26 88` in the frame tests is not what the code computes (the model proves `3F 48`). That test builds its frame with capacity 300 and 300 bytes, so the BCC bytes fall off the typed array and its assertion never compares them.
- **TelnetConnections.ExecuteCommand** models `readUint8` past the end of the buffer as an exception that ends the parse (`Threw`). The exception itself, and the use of `readUint8` on a non-Buffer, are not modelled further.
- **Partial results.** An SB with no IAC SE leaves the command length `undefined`. The source's loop index then becomes NaN and the loop ends; the model ends the parse with the outcome `Stopped` and the state reached so far.
- **The JavaScript number type.** JavaScript numbers are modelled as unbounded integers. Bytes, indices and lengths stay far below 2^53. The parser is the exception: its input may be a string of any length.
- **ParseIntDecOrHex.DecimalRoundTrip** and `ParseIntDecOrHex.HexRoundTrip` hold for the model's unbounded integers and for every natural number. In JavaScript, parseInt rounds a result above 2^53 to the nearest double, and String(n) switches to exponent notation from 10^21 on. So the program keeps the round trip only below 2^53, and the rounding of parseInt's result is not modelled.
- **Characters.**
  - `charCodeAt` is modelled as taking the character's code modulo 256, as a `Uint8Array` store does. The model's strings are sequences of Unicode scalar values; JavaScript's are sequences of UTF-16 code units.
- **TelnetConnections.CharBytes** writes one byte per character, which matches `charCodeAt` for characters in the Basic Multilingual Plane. A character outside it is two UTF-16 code units in JavaScript, so sendTerminalType writes two bytes (its surrogates modulo 256) where the model writes one. That case is not modelled; terminal type names are ASCII.
  - `trim` removes exactly the ECMAScript white-space and line-terminator characters. `toLowerCase` is modelled for the ASCII letters only; other case mappings cannot change a digit, `x` or white space, so they cannot change a result.
- **ParseIntDecOrHex.ParseIntDecOrHex** takes null, undefined, a number, NaN or a string. Other values, which the source coerces with `String()`, are not modelled. Fractions, exponents and `Infinity` in parseInt's input are not modelled either.
- **HexDump.Dump** requires bytesPerLine > 0 whenever length > 0, because the source loops forever otherwise. It also requires length ≤ |data|: past the data, the source's `undefined.toString` throws. isEbcdic is accepted and ignored, as in the source.

## Findings

| source | as written | input that shows it | evidently intended | confidence | as-written member | corrected member |
|---|---|---|---|---|---|---|
| bsc-frame.js:265-272 | After a terminator, the loop goes back to looking for an STX, so either BCC byte equal to STX (0x02) re-opens text and the byte after it is reported as text. | The block `SYN STX F9 ETX` has BCC `02 51`, and forEachTextByte reports `F9 51`. | Text ends at the first terminator, and the BCC bytes are never text: the decoder returns exactly the pushed data (`IntendedTextBytes`). | not executed | `BscTextBlocks.BccStxReopensText` | `BscTextBlocks.PlainBlockRoundTrip` |
| bsc-frame.js:289-291 | On DLE SYN in transparent text, `x += 2` followed by the loop's `x++` skips three bytes, so the data byte after the SYN is lost. | `SYN DLE STX 41 DLE SYN 42 DLE ETX ..` reports only `41`. | DLE SYN (an idle insertion) is dropped and the text continues with the next byte, so `41 42` is reported. | not executed | `BscTextBlocks.DleSynSkipsThree` | `BscTextBlocks.TransparentBlockRoundTrip` |
