# MediaTek meta-mode tool: protocol core in Dafny

This project models the protocol core of a Qt desktop tool that talks to
MediaTek phones in meta mode over a serial (COM) port, and proves properties
of that model.  It covers three pieces of the tool:

- **IMEI repair** (`MtkMetaImei`, `mtk_meta_imei.cpp`): an IMEI string is
  encoded into the vendor's swapped-BCD record.  The record is sent to NVRAM
  record 151 in a `[0x01][lid][len][data]` write frame, and the device's
  answer is scanned for an ACK byte (0x06) or "OK".  `repairImei` writes
  IMEI 1 and then IMEI 2, each only when it has exactly 15 characters.
- **Meta session logic** (`MtkMetaLogic`, `mtk_meta_logic.cpp`):
  - `connectToMeta` polls the port up to 50 times for a chunk holding
    "READY", then writes "METAMETA".
  - `performFullReadInfo` sends the opcodes FD, FC, E1 and E7 through
    `sendCmd` and decodes the answers.
  - The decoders: the chipset name for a hardware code, and the eMMC health
    labels for PRE_EOL_INFO and DEVICE_LIFE_TIME_EST (EXT_CSD bytes 267 to
    269 of JEDEC eMMC 5.0, JESD84-B50).
- **The second back end** (`MtkMetaLogic.cpp`): the `enterMetaMode`
  handshake, which needs exactly "READY" first and then "ATEMATEM" or
  "READYATE".  The constant helper stubs the class ships with are modelled
  too.

Files:

| file | module | contents |
|---|---|---|
| `bytes.dfy` | `Bytes` | the `Byte` type, `QString::toLatin1`, containment predicates, the protocol's ASCII literals |
| `serial.dfy` | `Serial` | the serial port: a `Device` (does it open, what each wait brings), the `Wire` state, the event trace, and class `SerialPort` standing for `QSerialPort` |
| `mtk_meta_imei.dfy` | `MetaImei` | BCD encoding and its decoder, NVRAM frame, acknowledgement, `writeNvramMeta`, `repairImei` |
| `mtk_meta_logic.dfy` | `MetaLogic` | `connectToMeta`, `sendCmd`, `performFullReadInfo`, the chipset decoder |
| `emmc_health.dfy` | `EmmcHealth` | `parseHealthStatus` and `parseLifeTime`, the eMMC health decoders of `mtk_meta_logic.cpp` |
| `mtk_meta_backend.dfy` | `MetaBackend` | `enterMetaMode` over a response channel, the stub helpers |

How the serial port is modelled:

- A `Device` value says whether the port opens.  It also says what each
  successive `waitForReadyRead` brings: silence, or one chunk of bytes.
- Every top-level operation makes its own `SerialPort` from that value, as
  the source makes a local `QSerialPort`.
- It returns its result together with the trace of writes and waits it made.

Points where the code does something a reader might not expect:

- The IMEI record is **10 bytes**: the header `0x08 0x3A`, seven swapped
  pairs, and the last digit under a `0xF` filler nibble.  So the write frame
  for it is 13 bytes, and its length byte is `0x0A`.  The header's `0x08`
  counts the eight bytes after the header.
- A non-digit character is not rejected.  `QString::toInt` fails on it and
  gives 0, so the character is encoded as the digit 0
  wherever it stands (`MetaImei.NonDigitEncodedAsZero`).
- `connectToMeta` writes "METAMETA" and succeeds without reading any answer.
  Only `enterMetaMode` checks an acknowledgement.
- The NVRAM frame has no checksum byte, although the source's comment on the
  frame layout names one.

## Model

| member | source | states |
|---|---|---|
| Bytes.Latin1 | MtkMetaLogic.cpp:15 | the byte string has one byte per character: its code below 256, '?' otherwise |
| Bytes.LiteralsAreLatin1 | MtkMetaLogic.cpp:11-19 | the byte constants are the Latin-1 images of "READY", "METAMETA", "ATEMATEM", "READYATE" and "OK" |
| Serial.SerialPort.Open | mtk_meta_logic.cpp:15-18 | opening succeeds exactly when the device allows it, and the port is open afterwards iff it succeeded |
| Serial.SerialPort.Close | mtk_meta_logic.cpp:36 | the port is closed afterwards |
| Serial.SerialPort.Write | mtk_meta_logic.cpp:113 | the bytes are appended to the trace as one write |
| Serial.SerialPort.WaitForReadyRead | mtk_meta_logic.cpp:24 | true iff the next arrival carries data; that arrival is consumed, its bytes join the unread ones, and the wait is traced with its timeout |
| Serial.SerialPort.ReadAll | mtk_meta_logic.cpp:25 | returns every unread byte and leaves none |
| Serial.SerialPort.Read | mtk_meta_logic.cpp:115 | returns at most n of the oldest unread bytes and removes exactly those |
| MetaImei.DigitValue | mtk_meta_imei.cpp:69-70 | a one-character `toInt` is below 10: the digit's value, 0 for a non-digit |
| MetaImei.MidDigit | mtk_meta_imei.cpp:69-70 | `imei.mid(i, 1).toInt()`: the digit value of character i, 0 past the end of the string |
| MetaImei.RightDigit | mtk_meta_imei.cpp:79 | `imei.right(1).toInt()`: the digit value of the last character, 0 for the empty string |
| MetaImei.PackNibbles | mtk_meta_imei.cpp:73 | `(hi << 4) \| lo` for two nibbles, as the byte hi * 16 + lo |
| MetaImei.UnpackNibbles | mtk_meta_imei.cpp:73 | `(hi << 4) \| lo` keeps both nibbles recoverable |
| MetaImei.MtkBcd | mtk_meta_imei.cpp:58-84 | the record as a value: header 08 3A, the seven swapped pairs, then 0xF over the last digit; specifies `ConvertImeiToMtkBcd` |
| MetaImei.ConvertImeiToMtkBcd | mtk_meta_imei.cpp:58-84 | the loop over i = 0, 2, ..., 12 builds exactly the record `MtkBcd` describes |
| MetaImei.MtkBcdLayout | mtk_meta_imei.cpp:63-81 | the record has 10 bytes: 0x08 (the count of bytes after the header), 0x3A, then pair k with digit 2k low and digit 2k+1 high, then 0xF over the last digit |
| MetaImei.UnswapImei | mtk_meta_imei.cpp:58-84 | the inverse of the encoding (header 08 3A, decimal nibbles, 0xF filler); whatever it accepts yields 15 characters |
| MetaImei.UnpackPairsSound | mtk_meta_imei.cpp:68-75 | unswapped pairs give two decimal digits per byte, and each byte is the packing of its two digits |
| MetaImei.UnswapImeiSound | mtk_meta_imei.cpp:58-84 | every record the decoder accepts is the record of the 15-digit IMEI it returns, so it accepts exactly the records of 15-digit IMEIs |
| MetaImei.UnpackPairsOfPairs | mtk_meta_imei.cpp:68-75 | unswapping the first n pairs of a 15-digit IMEI gives back its first 2n digits |
| MetaImei.MtkBcdRoundTrip | mtk_meta_imei.cpp:58-84 | decoding the record of any 15-digit IMEI gives that IMEI back |
| MetaImei.MtkBcdInjective | mtk_meta_imei.cpp:58-84 | two different 15-digit IMEIs never share a record |
| MetaImei.MtkBcdSeesDigitValues | mtk_meta_imei.cpp:69-79 | the record depends only on the per-character digit values |
| MetaImei.NonDigitEncodedAsZero | mtk_meta_imei.cpp:69-70 | any non-digit character at any position of any string is encoded exactly like the digit 0 there |
| MetaImei.ExampleRecord | mtk_meta_imei.cpp:66-81 | the comment's example "123456" packs to 21 43 65; as a whole record it is 08 3A 21 43 65 00 00 00 00 F6, the missing digits read as 0 |
| MetaImei.NvramFrameRoundTrip | mtk_meta_imei.cpp:92-95 | the frame is the 3-byte head plus the payload, nothing more, and parses back to the ID's low byte and the payload when the payload is shorter than 256 bytes |
| MetaImei.NvramFrame | mtk_meta_imei.cpp:92-95 | the write frame: 0x01, the logical ID's low byte, the payload length's low byte, then the payload |
| MetaImei.ImeiFrame | mtk_meta_imei.cpp:92-95 | an IMEI frame to record 151 is 13 bytes with head 01 97 0A |
| MetaImei.Acknowledges | mtk_meta_imei.cpp:102 | an answer acknowledges iff it contains the ACK byte 0x06 or the bytes "OK" |
| MetaImei.AcknowledgesAnywhere | mtk_meta_imei.cpp:102 | an ACK byte or "OK" anywhere in the answer acknowledges, whatever surrounds it |
| MetaImei.AcknowledgeExamples | mtk_meta_imei.cpp:102 | 06 and "AOK\r" acknowledge; the empty answer, NAK and "O0K" do not |
| MetaImei.NvramWrite | mtk_meta_imei.cpp:87-105 | `writeNvramMeta` as a value: write the frame, wait 2000 ms, and if data came read all of it and scan it for an acknowledgement; false when nothing came |
| MetaImei.NvramWriteOnEmptyBuffer | mtk_meta_imei.cpp:97-104 | one frame write, one 2000 ms wait, nothing left unread, and success iff that wait brought bytes holding ACK or "OK" |
| MetaImei.WriteNvramMeta | mtk_meta_imei.cpp:87-105 | the packet appended byte by byte is the NVRAM frame, and the port and verdict are those of `NvramWrite` |
| MetaImei.RepairTrace | mtk_meta_imei.cpp:9-55 | the wire events of `repairImei`: nothing when the port fails, else a frame write and a 2000 ms wait for IMEI 1 and then IMEI 2, each only when it has 15 characters |
| MetaImei.RepairWrites | mtk_meta_imei.cpp:23-50 | exactly one frame to ID 151 per IMEI of length 15, IMEI 1 first, none if the port fails; one wait per write |
| MetaImei.RepairImei | mtk_meta_imei.cpp:9-55 | success iff the port opens and, when IMEI 1 has 15 characters, its write is acknowledged; the IMEI 2 outcome never matters |
| MetaLogic.FirstReady | mtk_meta_logic.cpp:23-32 | the result is the first poll index in range whose chunk contains "READY", or none exists |
| MetaLogic.FirstReadyAt | mtk_meta_logic.cpp:23-26 | a poll that brings "READY" after polls that did not is the one `FirstReady` picks |
| MetaLogic.Poll | mtk_meta_logic.cpp:24-26 | one poll: it finds "READY" iff the next arrival is a chunk containing it; the wait is traced and nothing is left unread |
| MetaLogic.ConnectSucceedsAt | mtk_meta_logic.cpp:23-32 | when poll i is the first to bring "READY", the connection's trace is the polls 0..i followed by the write of "METAMETA" |
| MetaLogic.ConnectFails | mtk_meta_logic.cpp:23-37 | when none of the 50 polls brings "READY", the trace is exactly those 50 polls |
| MetaLogic.ConnectToMeta | mtk_meta_logic.cpp:10-38 | success iff the port opens and one of the first 50 waits brings a chunk containing "READY" (`FirstReady` finds one); the trace is the polls up to that one, then the write of "METAMETA" |
| MetaLogic.ConnectTrace | mtk_meta_logic.cpp:10-38 | the wire events of `connectToMeta`: nothing when the port fails, else the polls up to the first chunk holding "READY" and the write of "METAMETA", or all 50 polls |
| MetaLogic.ConnectTraceShape | mtk_meta_logic.cpp:23-37 | "METAMETA" is written once on success and never otherwise; at most 50 polls, exactly 50 when an open port never shows "READY"; on success the write directly follows the poll that brought "READY" |
| MetaLogic.SplitReadyIsMissed | mtk_meta_logic.cpp:24-26 | "READY" split across two chunks is not recognised |
| MetaLogic.CmdExchange | mtk_meta_logic.cpp:112-118 | `sendCmd` as a value: write, one 1000 ms wait, then `read(readLen)` if data came, else an empty answer |
| MetaLogic.CmdExchangeAnswer | mtk_meta_logic.cpp:112-118 | when the wait saw data the answer is all received bytes up to readLen, the rest staying unread; otherwise it is empty and nothing is read; the write and one 1000 ms wait are traced |
| MetaLogic.SendCmd | mtk_meta_logic.cpp:112-118 | returns the answer and leaves the port as `CmdExchange` describes |
| MetaLogic.BigEndianBytesOfValue | mtk_meta_logic.cpp:54 | reading four bytes big-endian and splitting the value again gives the same bytes |
| MetaLogic.BigEndianValueOfBytes | mtk_meta_logic.cpp:54 | every 32-bit value is the big-endian reading of its four bytes |
| MetaLogic.HwCodeAsWritten | mtk_meta_logic.cpp:54 | `qFromBigEndian` as written: the first four bytes of the reply followed by its terminator and the memory after it |
| MetaLogic.HwCodeAsWrittenReadsBeyondReply | mtk_meta_logic.cpp:53-54 | for a one-byte reply the code depends on the bytes after its terminator |
| MetaLogic.DecodeHwCode | mtk_meta_logic.cpp:51-56 | a code is decoded iff the reply holds all four requested bytes |
| MetaLogic.DecodeHwCodeAgrees | mtk_meta_logic.cpp:53-54 | on a four-byte reply the decoded code is the source's big-endian read |
| MetaLogic.ChipsetName | mtk_meta_logic.cpp:121-127 | the generic name is returned iff the code is none of 0x6765, 0x6768, 0x6833, 0x6785 |
| MetaLogic.ChipsetNameCitesCode | mtk_meta_logic.cpp:122-125 | each known chipset's name ends in "(MT" and its own code in hex |
| MetaLogic.ChipsetNamesDistinct | mtk_meta_logic.cpp:122-125 | the four known codes get four different names |
| MetaLogic.InfoLines | mtk_meta_logic.cpp:51-69 | the report has one line per non-empty answer |
| MetaLogic.InfoLinesPresence | mtk_meta_logic.cpp:51-69 | a command's line is present iff its answer is non-empty; a chipset line with a decoded code iff the 0xFD answer has four bytes |
| MetaLogic.ReadInfoOutcome | mtk_meta_logic.cpp:41-107 | `performFullReadInfo` as a value: port failure, or the report lines decoded from the four exchanges and their trace |
| MetaLogic.PerformFullReadInfo | mtk_meta_logic.cpp:41-107 | the report and trace are those of `ReadInfoOutcome`: port failure, or four exchanges in table order |
| MetaLogic.InfoExchangesTrace | mtk_meta_logic.cpp:45-69 | the four exchanges on a fresh port trace, in order, a write of each opcode followed by a 1000 ms wait on arrivals 0, 1, 2 and 3 |
| MetaLogic.ReadInfoCommandOrder | mtk_meta_logic.cpp:45-69 | FD, FC, E1, E7 are written in that order, each followed by one 1000 ms wait on the next arrival; nothing happens when the port fails |
| MetaLogic.ReadInfoExactAnswers | mtk_meta_logic.cpp:51-69 | exact-length answers show up unchanged in the report, the chipset line naming the big-endian code |
| EmmcHealth.ParseHealthStatus | mtk_meta_logic.cpp:130-135 | "Unknown" iff the value is not 1, 2 or 3 |
| EmmcHealth.HealthLabelNamesState | mtk_meta_logic.cpp:130-135 | a value gets a proper label iff it is a PRE_EOL_INFO state JEDEC defines, and the label names that state (Normal, Warning, Urgent) |
| EmmcHealth.HealthLabelsDistinct | mtk_meta_logic.cpp:131-133 | the three state labels are pairwise different |
| EmmcHealth.ParseLifeTime | mtk_meta_logic.cpp:138-151 | "Reading..." iff the value is outside 1..11 |
| EmmcHealth.LifeTimeLabelStatesRange | mtk_meta_logic.cpp:139-149 | value v in 1..10 is labelled with the range (v-1)*10 % to v*10 % used; 11 with the exceeded state |
| EmmcHealth.LifeTimeLabelsDistinct | mtk_meta_logic.cpp:139-149 | the eleven labels are pairwise different |
| MetaBackend.MetaChannel.ReadMetaResponse | MtkMetaLogic.cpp:10-18 | a read returns the channel's next answer and is recorded with its size |
| MetaBackend.MetaChannel.SendMetaCommand | MtkMetaLogic.cpp:15 | a send is recorded with its bytes |
| MetaBackend.EnterMetaMode | MtkMetaLogic.cpp:6-25 | success iff the first answer is exactly "READY" and the second is "ATEMATEM" or "READYATE"; the mode is sent once and only after "READY"; otherwise nothing is sent |
| MetaBackend.EnterMetaModeShipped | MtkMetaLogic.cpp:10-24 | with the shipped `readMetaResponse` the handshake sends the mode and always fails |
| MetaBackend.ReadMetaResponseStub | MtkMetaLogic.cpp:71 | the shipped `readMetaResponse` answers "READY" |
| MetaBackend.SendMetaCommandStub | MtkMetaLogic.cpp:70 | the shipped `sendMetaCommand` reports success |
| MetaBackend.ReadNvItemStub | MtkMetaLogic.cpp:68 | the shipped `readNvItem` returns nothing |
| MetaBackend.ParseGptTableStub | MtkMetaLogic.cpp:69 | the shipped `parseGptTable` returns "User, Boot1, Boot2, RPMB" |
| MetaBackend.RepairImeiStub | MtkMetaLogic.cpp:54-58 | the shipped `repairImei` reports success |
| MetaBackend.ResetFactoryStub | MtkMetaLogic.cpp:61-65 | the shipped `resetFactory` reports success |
| MetaBackend.StubsIgnoreArguments | MtkMetaLogic.cpp:54-71 | the stubs are constant: "READY", success, empty NVRAM item, a fixed GPT list, repair and reset always succeed |
| MetaBackend.DefaultModeBytes | MtkMetaLogic.h:14 | the default mode is sent as the bytes of "METAMETA" |

## Left out

- Timing is not modelled. `QThread::msleep`, `QCoreApplication::processEvents` and `waitForBytesWritten` are left out. Whether data arrives within a wait's timeout is part of the `Arrival`; the timeout is only recorded in the trace.
- The port number, port name and baud rate (`setPortName`, `setBaudRate`) are left out, and so is `portNum` in `enterMetaMode` and the stubs' callers: none of them affects the protocol's decisions.
- `logMsg` signals are left out. They are UI output with no effect on results.
- Report text is not modelled: the emoji headings, separators, the hex rendering of answers (`toHex().toUpper()`), and the fixed storage, partition, baseband and IMEI-status lines. These are placeholders, not device data. `performFullReadInfo` is modelled as the list of decoded lines.
- The health decoders are applied in the source only to the hard-coded values 1, 1 and 2 (mtk_meta_logic.cpp:89-91), never to bytes read from a device. The decoders are modelled; these fixed inputs are not.
- `readFullDeviceDetails` (MtkMetaLogic.cpp:29-51) only assembles fixed text around the stubs. Its stub inputs are modelled (`ReadNvItemStub`, `ParseGptTableStub`); the text is not.
- `LID_IMEI_OLD` (5) is declared, but no code path uses it.
- Strings are sequences of Unicode code points, not `QString`'s UTF-16 units. So `length() == 15` counts code points, and `Bytes.Latin1` turns a character outside the Basic Multilingual Plane into one '?' where `toLatin1` gives "??" (one per UTF-16 unit). Both differ only for characters outside that plane.
- The `MtkMetaLogic` headers declare two different classes under the same name. That is a build-level conflict and is not modelled; each source file's own class is modelled separately.
- `qFromBigEndian` on a reply shorter than four bytes is undefined behaviour in C++. `HwCodeAsWritten` models it with explicit bytes after the reply (the first one the `QByteArray` terminator, the rest uninitialised bytes of its allocation). The report itself uses the corrected decoder.

## Findings

| source | as written | input that shows it | evidently intended | confidence | as-written member | corrected member |
|---|---|---|---|---|---|---|
| mtk_meta_logic.cpp:53-54 | any non-empty answer to 0xFD is read as four big-endian bytes | a one-byte answer 0x67: the code becomes 0x67, the terminator 0x00, then two uninitialised bytes of the array's allocation (0x6700_0000 or 0x6700_6765 depending on memory) | decode the code only when all four bytes arrived, and otherwise report the short answer | not executed; reading uninitialised bytes is undefined behaviour | MetaLogic.HwCodeAsWrittenReadsBeyondReply | MetaLogic.DecodeHwCodeAgrees |
