/** Meta-mode session logic of mtk_meta_logic.cpp: the READY-polling
    connection, the opcode/response exchange of the device-information read,
    and the decoder for the chipset code.  The eMMC health decoders of the
    same file are in module `EmmcHealth`. */
module MetaLogic {

  import opened Bytes
  import opened Serial

  /** How many times `connectToMeta` waits for "READY". */
  const READY_POLLS: nat := 50
  /** Timeout of each of those waits. */
  const POLL_MS: nat := 100
  /** Timeout of `sendCmd`'s wait for an answer. */
  const CMD_MS: nat := 1000

  // ---------------------------------------------------------------------------
  // connectToMeta
  // ---------------------------------------------------------------------------

  /** The `i`-th wait brings a chunk that contains "READY". */
  predicate ReadyAt(arrivals: seq<Arrival>, i: nat)
  {
    ArrivalAt(arrivals, i).Data? && HasSub(ArrivalAt(arrivals, i).bytes, READY)
  }

  /** The first wait in `from .. limit - 1` that brings "READY". */
  function FirstReady(arrivals: seq<Arrival>, from: nat, limit: nat): (r: Option<nat>)
    decreases limit - from
    ensures r.Some? ==> from <= r.value < limit && ReadyAt(arrivals, r.value)
    ensures r.Some? ==> forall j :: from <= j < r.value ==> !ReadyAt(arrivals, j)
    ensures r.None? ==> forall j :: from <= j < limit ==> !ReadyAt(arrivals, j)
  {
    if from >= limit then None
    else if ReadyAt(arrivals, from) then Some(from)
    else FirstReady(arrivals, from + 1, limit)
  }

  /** A READY chunk at `i` with none before it in the range is the first one. */
  lemma {:induction false} FirstReadyAt(arrivals: seq<Arrival>, from: nat, limit: nat, i: nat)
    requires from <= i < limit && ReadyAt(arrivals, i)
    requires forall j :: from <= j < i ==> !ReadyAt(arrivals, j)
    ensures FirstReady(arrivals, from, limit) == Some(i)
    decreases i - from
  {
    if from < i {
      FirstReadyAt(arrivals, from + 1, limit, i);
    }
  }

  /** The first `n` polls, each a 100 ms wait consuming the next arrival. */
  function Polls(arrivals: seq<Arrival>, n: nat): (r: seq<Event>)
    ensures |r| == n
  {
    if n == 0 then [] else Polls(arrivals, n - 1) + [Waited(POLL_MS, ArrivalAt(arrivals, n - 1))]
  }

  /** What `connectToMeta` does on the wire: poll until a chunk contains "READY"
      (at most 50 polls), then write "METAMETA". */
  function ConnectTrace(device: Device): seq<Event>
  {
    if !device.opens then []
    else
      match FirstReady(device.arrivals, 0, READY_POLLS)
      case Some(k) => Polls(device.arrivals, k + 1) + [Wrote(METAMETA)]
      case None => Polls(device.arrivals, READY_POLLS)
  }

  /** One poll on a port that has made the first `i` polls and holds nothing unread:
      it sees data iff arrival `i` carries some, and leaves exactly those bytes unread. */
  lemma PollStep(arrivals: seq<Arrival>, i: nat)
    ensures var w := Wire(DropArrivals(arrivals, i), [], Polls(arrivals, i));
      var a := ArrivalAt(arrivals, i);
      && (Readable(w) <==> a.Data?)
      && AfterWait(w, POLL_MS) ==
         Wire(DropArrivals(arrivals, i + 1), if a.Data? then a.bytes else [], Polls(arrivals, i + 1))
  {
    DropArrivalsTwice(arrivals, i, 1);
    DropArrivalsAt(arrivals, i, 0);
  }

  /** The connection succeeds at the first poll that brings "READY". */
  lemma ConnectSucceedsAt(device: Device, i: nat)
    requires device.opens && i < READY_POLLS && ReadyAt(device.arrivals, i)
    requires forall j :: 0 <= j < i ==> !ReadyAt(device.arrivals, j)
    ensures FirstReady(device.arrivals, 0, READY_POLLS) == Some(i)
    ensures ConnectTrace(device) == Polls(device.arrivals, i + 1) + [Wrote(METAMETA)]
  {
    FirstReadyAt(device.arrivals, 0, READY_POLLS, i);
  }

  /** Without "READY" in any of the 50 polls the connection fails after all of them. */
  lemma ConnectFails(device: Device)
    requires device.opens
    requires forall j :: 0 <= j < READY_POLLS ==> !ReadyAt(device.arrivals, j)
    ensures FirstReady(device.arrivals, 0, READY_POLLS) == None
    ensures ConnectTrace(device) == Polls(device.arrivals, READY_POLLS)
  {
  }

  /** One poll of `connectToMeta`: `waitForReadyRead(100)`, then `readAll()` when
      data came, and the test for "READY" in what was read.  The port has made the
      first `i` polls beforehand and one more afterwards, with nothing left unread. */
  method Poll(serial: SerialPort, arrivals: seq<Arrival>, i: nat) returns (found: bool)
    requires serial.isOpen
    requires serial.wire == Wire(DropArrivals(arrivals, i), [], Polls(arrivals, i))
    modifies serial`wire
    ensures found == ReadyAt(arrivals, i)
    ensures serial.wire == Wire(DropArrivals(arrivals, i + 1), [], Polls(arrivals, i + 1))
  {
    PollStep(arrivals, i);
    found := false;
    var ready := serial.WaitForReadyRead(POLL_MS);
    if ready {
      var data := serial.ReadAll();
      found := HasSub(data, READY);
    }
  }

  /** `connectToMeta`: open the port, poll up to 50 times, and on the first chunk that
      contains "READY" write "METAMETA", close and succeed; otherwise close and fail. */
  method ConnectToMeta(device: Device) returns (ok: bool, trace: seq<Event>)
    ensures ok <==> device.opens && FirstReady(device.arrivals, 0, READY_POLLS).Some?
    ensures trace == ConnectTrace(device)
  {
    var serial := new SerialPort(device);
    var portOk := serial.Open();
    if !portOk {
      return false, [];
    }
    var i := 0;
    while i < READY_POLLS
      invariant 0 <= i <= READY_POLLS && serial.isOpen
      invariant serial.wire == Wire(DropArrivals(device.arrivals, i), [], Polls(device.arrivals, i))
      invariant forall j :: 0 <= j < i ==> !ReadyAt(device.arrivals, j)
    {
      var found := Poll(serial, device.arrivals, i);
      if found {
        serial.Write(METAMETA);
        serial.Close();
        ConnectSucceedsAt(device, i);
        return true, serial.wire.trace;
      }
      i := i + 1;
    }
    serial.Close();
    ConnectFails(device);
    return false, serial.wire.trace;
  }

  lemma {:induction false} PollsOnlyWait(arrivals: seq<Arrival>, n: nat)
    ensures Written(Polls(arrivals, n)) == []
    ensures Waits(Polls(arrivals, n)) == n
  {
    if n > 0 {
      PollsOnlyWait(arrivals, n - 1);
      var last := [Waited(POLL_MS, ArrivalAt(arrivals, n - 1))];
      WrittenAppend(Polls(arrivals, n - 1), last);
      WaitsAppend(Polls(arrivals, n - 1), last);
    }
  }

  /** "METAMETA" is written exactly once when the connection succeeds and never
      otherwise; there are never more than 50 polls, exactly 50 when an opened
      port never shows "READY", and on success the write is the last event,
      right after the poll that brought "READY". */
  lemma ConnectTraceShape(device: Device)
    ensures var ok := device.opens && exists i :: 0 <= i < READY_POLLS && ReadyAt(device.arrivals, i);
      && Written(ConnectTrace(device)) == (if ok then [METAMETA] else [])
      && Waits(ConnectTrace(device)) <= READY_POLLS
      && (device.opens && !ok ==> Waits(ConnectTrace(device)) == READY_POLLS)
      && (ok ==> var t := ConnectTrace(device);
                 |t| >= 2 && t[|t| - 1] == Wrote(METAMETA) &&
                 t[|t| - 2].Waited? && t[|t| - 2].arrival.Data? &&
                 HasSub(t[|t| - 2].arrival.bytes, READY))
  {
    if device.opens {
      match FirstReady(device.arrivals, 0, READY_POLLS)
      case Some(k) =>
        PollsOnlyWait(device.arrivals, k + 1);
        WrittenAppend(Polls(device.arrivals, k + 1), [Wrote(METAMETA)]);
        WaitsAppend(Polls(device.arrivals, k + 1), [Wrote(METAMETA)]);
      case None =>
        PollsOnlyWait(device.arrivals, READY_POLLS);
    }
  }

  /** "READY" must arrive inside one chunk: split over two waits it is missed. */
  lemma SplitReadyIsMissed()
    ensures var arrivals := [Data([0x52, 0x45, 0x41]), Data([0x44, 0x59])];
      forall i :: 0 <= i < READY_POLLS ==> !ReadyAt(arrivals, i)
  {
  }

  // ---------------------------------------------------------------------------
  // sendCmd and the device-information read
  // ---------------------------------------------------------------------------

  /** `sendCmd` on a port: write the command, wait up to 1000 ms, and if anything
      arrived read at most `readLen` of the unread bytes. */
  function CmdExchange(w: Wire, cmd: seq<Byte>, readLen: nat): (seq<Byte>, Wire)
  {
    var waited := AfterWait(AfterWrite(w, cmd), CMD_MS);
    if Readable(w) then (Take(waited, readLen), AfterTake(waited, readLen))
    else ([], waited)
  }

  /** The answer has at most `readLen` bytes, is empty unless the wait saw data, and
      is the oldest of the bytes received: all of them up to `readLen`, the rest
      staying unread.  The exchange is one write and one wait. */
  lemma CmdExchangeAnswer(w: Wire, cmd: seq<Byte>, readLen: nat)
    ensures var r := CmdExchange(w, cmd, readLen);
      && |r.0| <= readLen
      && (r.0 != [] ==> Readable(w))
      && r.0 <= w.buffer + (if Readable(w) then ArrivalAt(w.arrivals, 0).bytes else [])
      && (Readable(w) ==>
            var got := w.buffer + ArrivalAt(w.arrivals, 0).bytes;
            r.0 == got[..if readLen <= |got| then readLen else |got|] && r.1.buffer == got[|r.0|..])
      && (!Readable(w) ==> r.0 == [] && r.1.buffer == w.buffer)
      && r.1.trace == w.trace + [Wrote(cmd), Waited(CMD_MS, ArrivalAt(w.arrivals, 0))]
      && r.1.arrivals == DropArrivals(w.arrivals, 1)
  {
  }

  /** `sendCmd`. */
  method SendCmd(serial: SerialPort, cmd: seq<Byte>, readLen: nat) returns (data: seq<Byte>)
    requires serial.isOpen
    modifies serial`wire
    ensures (data, serial.wire) == CmdExchange(old(serial.wire), cmd, readLen)
  {
    serial.Write(cmd);
    var ready := serial.WaitForReadyRead(CMD_MS);
    if ready {
      data := serial.Read(readLen);
      return;
    }
    return [];
  }

  // The command table: opcode and number of bytes read back.
  const OP_HW_CODE: Byte := 0xFD
  const LEN_HW_CODE: nat := 4
  const OP_SW_VERSION: Byte := 0xFC
  const LEN_SW_VERSION: nat := 8
  const OP_MEID: Byte := 0xE1
  const LEN_MEID: nat := 16
  const OP_SOC_ID: Byte := 0xE7
  const LEN_SOC_ID: nat := 32

  /** An unsigned 32-bit value (`quint32`). */
  type U32 = x: int | 0 <= x < 0x1_0000_0000

  /** Four bytes read most significant first. */
  function BigEndian32(b: seq<Byte>): U32
    requires |b| == 4
  {
    b[0] as int * 0x100_0000 + b[1] as int * 0x1_0000 + b[2] as int * 0x100 + b[3] as int
  }

  /** The four bytes of a 32-bit value, most significant first. */
  function BigEndianBytes(x: U32): (b: seq<Byte>)
    ensures |b| == 4
  {
    var q1 := x / 0x100;
    var q2 := q1 / 0x100;
    var q3 := q2 / 0x100;
    [q3, q2 % 0x100, q1 % 0x100, x % 0x100]
  }

  /** Reading four bytes big-endian and writing the value back are inverse. */
  lemma BigEndianBytesOfValue(b: seq<Byte>)
    requires |b| == 4
    ensures BigEndianBytes(BigEndian32(b)) == b
  {
    var b0: int, b1: int, b2: int, b3: int := b[0], b[1], b[2], b[3];
    var x := BigEndian32(b);
    var q1 := x / 0x100;
    assert x == (b0 * 0x1_0000 + b1 * 0x100 + b2) * 0x100 + b3;
    assert q1 == b0 * 0x1_0000 + b1 * 0x100 + b2 && x % 0x100 == b3;
    var q2 := q1 / 0x100;
    assert q1 == (b0 * 0x100 + b1) * 0x100 + b2;
    assert q2 == b0 * 0x100 + b1 && q1 % 0x100 == b2;
    assert q2 / 0x100 == b0 && q2 % 0x100 == b1;
  }

  lemma BigEndianValueOfBytes(x: U32)
    ensures BigEndian32(BigEndianBytes(x)) == x
  {
    var q1 := x / 0x100;
    var q2 := q1 / 0x100;
    var q3 := q2 / 0x100;
    assert x == q1 * 0x100 + x % 0x100;
    assert q1 == q2 * 0x100 + q1 % 0x100;
    assert q2 == q3 * 0x100 + q2 % 0x100;
  }

  /** `qFromBigEndian<quint32>(hwData.constData())` as written: four bytes are read
      from the start of the reply whatever its length.  `beyond` is the memory
      after the reply's bytes; its first byte is the '\0' a `QByteArray` keeps
      after its data, the rest is whatever lies there. */
  function HwCodeAsWritten(reply: seq<Byte>, beyond: seq<Byte>): U32
    requires beyond != [] && beyond[0] == 0 && |reply| + |beyond| >= 4
  {
    BigEndian32((reply + beyond)[..4])
  }

  /** The code the source reports for a one-byte reply depends on memory past the
      reply's terminator. */
  lemma HwCodeAsWrittenReadsBeyondReply()
    ensures HwCodeAsWritten([0x67], [0, 0, 0]) == 0x6700_0000
    ensures HwCodeAsWritten([0x67], [0, 0x67, 0x65]) == 0x6700_6765
  {
    assert ([0x67] + [0, 0, 0])[..4] == [0x67, 0, 0, 0];
    assert ([0x67] + [0, 0x67, 0x65])[..4] == [0x67, 0, 0x67, 0x65];
  }

  /** The chipset code when the reply holds the four bytes the command asks for. */
  function DecodeHwCode(reply: seq<Byte>): (r: Option<U32>)
    ensures r.Some? <==> |reply| == 4
  {
    if |reply| == 4 then Some(BigEndian32(reply)) else None
  }

  /** On a full reply the corrected decoder agrees with the source, whatever lies
      past the reply. */
  lemma DecodeHwCodeAgrees(reply: seq<Byte>, beyond: seq<Byte>)
    requires |reply| == 4 && beyond != [] && beyond[0] == 0
    ensures DecodeHwCode(reply) == Some(HwCodeAsWritten(reply, beyond))
  {
    assert (reply + beyond)[..4] == reply;
  }

  const GENERIC_CHIPSET: string := "MTK Generic"

  /** `getChipsetName`. */
  function ChipsetName(hwCode: U32): (name: string)
    ensures name == GENERIC_CHIPSET <==> hwCode !in {0x6765, 0x6768, 0x6833, 0x6785}
  {
    if hwCode == 0x6765 then "Helio P35 (MT6765)"
    else if hwCode == 0x6768 then "Helio P65 (MT6768)"
    else if hwCode == 0x6833 then "Dimensity 700 (MT6833)"
    else if hwCode == 0x6785 then "Helio G90T (MT6785)"
    else GENERIC_CHIPSET
  }

  function HexDigit(d: nat): char
    requires d < 16
  {
    if d < 10 then ('0' as int + d) as char else ('A' as int + d - 10) as char
  }

  /** Four upper-case hex digits of a 16-bit value. */
  function Hex4(x: nat): (s: string)
    requires x < 0x1_0000
    ensures |s| == 4
  {
    [HexDigit(x / 0x1000), HexDigit((x / 0x100) % 16), HexDigit((x / 0x10) % 16), HexDigit(x % 16)]
  }

  /** The hex spelling of the four known codes. */
  lemma Hex4OfKnownCodes(x: nat)
    requires x in {0x6765, 0x6768, 0x6833, 0x6785}
    ensures x == 0x6765 ==> Hex4(x) == "6765"
    ensures x == 0x6768 ==> Hex4(x) == "6768"
    ensures x == 0x6833 ==> Hex4(x) == "6833"
    ensures x == 0x6785 ==> Hex4(x) == "6785"
  {
  }

  /** A name whose last eight characters spell "(MT", four hex digits and ")". */
  lemma EndsWithCodeTag(name: string, k: nat, hex: string)
    requires |hex| == 4 && k + 8 == |name|
    requires name[k] == '(' && name[k + 1] == 'M' && name[k + 2] == 'T' && name[k + 7] == ')'
    requires name[k + 3] == hex[0] && name[k + 4] == hex[1] && name[k + 5] == hex[2] && name[k + 6] == hex[3]
    ensures name[|name| - 8..] == "(MT" + hex + ")"
  {
  }

  /** Every known chipset's name ends in "(MT" followed by its own code in hex. */
  lemma ChipsetNameCitesCode(hwCode: U32)
    requires hwCode in {0x6765, 0x6768, 0x6833, 0x6785}
    ensures var name := ChipsetName(hwCode);
      |name| >= 8 && name[|name| - 8..] == "(MT" + Hex4(hwCode) + ")"
  {
    Hex4OfKnownCodes(hwCode);
    var name := ChipsetName(hwCode);
    if hwCode == 0x6765 {
      EndsWithCodeTag(name, 10, Hex4(hwCode));
    } else if hwCode == 0x6768 {
      EndsWithCodeTag(name, 10, Hex4(hwCode));
    } else if hwCode == 0x6833 {
      EndsWithCodeTag(name, 14, Hex4(hwCode));
    } else {
      EndsWithCodeTag(name, 11, Hex4(hwCode));
    }
  }

  /** The four known codes get four different names. */
  lemma ChipsetNamesDistinct(a: U32, b: U32)
    requires a in {0x6765, 0x6768, 0x6833, 0x6785} && b in {0x6765, 0x6768, 0x6833, 0x6785}
    requires a != b
    ensures ChipsetName(a) != ChipsetName(b)
  {
  }

  /** One line of the device-information report, as decoded (rendering to text is
      not modelled). */
  datatype InfoLine =
    | Chipset(name: string, code: U32)
    | ShortHwCode(got: seq<Byte>)
    | SwVersion(raw: seq<Byte>)
    | Meid(raw: seq<Byte>)
    | SocId(raw: seq<Byte>)

  datatype ReadInfo = PortFailed | Report(lines: seq<InfoLine>)

  /** The chipset line for a non-empty answer to 0xFD. */
  function HwLine(hw: seq<Byte>): InfoLine
  {
    match DecodeHwCode(hw)
    case Some(code) => Chipset(ChipsetName(code), code)
    case None => ShortHwCode(hw)
  }

  /** The decoded lines: one per command whose answer is non-empty, in command order. */
  function InfoLines(hw: seq<Byte>, sw: seq<Byte>, meid: seq<Byte>, socid: seq<Byte>): (lines: seq<InfoLine>)
    ensures |lines| == (if hw != [] then 1 else 0) + (if sw != [] then 1 else 0)
                       + (if meid != [] then 1 else 0) + (if socid != [] then 1 else 0)
  {
    (if hw == [] then [] else [HwLine(hw)])
    + (if sw == [] then [] else [SwVersion(sw)])
    + (if meid == [] then [] else [Meid(meid)])
    + (if socid == [] then [] else [SocId(socid)])
  }

  /** A report line for a command appears iff its answer is non-empty; the chipset
      line carries a decoded code only when all four bytes arrived. */
  lemma InfoLinesPresence(hw: seq<Byte>, sw: seq<Byte>, meid: seq<Byte>, socid: seq<Byte>)
    ensures var lines := InfoLines(hw, sw, meid, socid);
      && ((exists l :: l in lines && (l.Chipset? || l.ShortHwCode?)) <==> hw != [])
      && ((exists l :: l in lines && l.Chipset?) <==> |hw| == 4)
      && ((exists l :: l in lines && l.SwVersion?) <==> sw != [])
      && ((exists l :: l in lines && l.Meid?) <==> meid != [])
      && ((exists l :: l in lines && l.SocId?) <==> socid != [])
  {
    var a := if hw == [] then [] else [HwLine(hw)];
    var b := if sw == [] then [] else [SwVersion(sw)];
    var c := if meid == [] then [] else [Meid(meid)];
    var d := if socid == [] then [] else [SocId(socid)];
    var lines := InfoLines(hw, sw, meid, socid);
    assert lines == a + b + c + d;
    forall l | l in lines
      ensures (l.Chipset? || l.ShortHwCode?) ==> l in a
      ensures l.SwVersion? ==> l in b
      ensures l.Meid? ==> l in c
      ensures l.SocId? ==> l in d
    {
    }
    if hw != [] { assert HwLine(hw) in lines; }
    if sw != [] { assert SwVersion(sw) in lines; }
    if meid != [] { assert Meid(meid) in lines; }
    if socid != [] { assert SocId(socid) in lines; }
  }

  /** The answers to the four commands of the read, in table order. */
  datatype Answers = Answers(hw: seq<Byte>, sw: seq<Byte>, meid: seq<Byte>, socid: seq<Byte>)

  /** The four `sendCmd` exchanges of the read on an open port. */
  function InfoExchanges(w0: Wire): (Answers, Wire)
  {
    var hw := CmdExchange(w0, [OP_HW_CODE], LEN_HW_CODE);
    var sw := CmdExchange(hw.1, [OP_SW_VERSION], LEN_SW_VERSION);
    var meid := CmdExchange(sw.1, [OP_MEID], LEN_MEID);
    var socid := CmdExchange(meid.1, [OP_SOC_ID], LEN_SOC_ID);
    (Answers(hw.0, sw.0, meid.0, socid.0), socid.1)
  }

  /** `performFullReadInfo` on `device`: the decoded report and the trace. */
  function ReadInfoOutcome(device: Device): (ReadInfo, seq<Event>)
  {
    if !device.opens then (PortFailed, [])
    else
      var r := InfoExchanges(OpenedWire(device));
      (Report(InfoLines(r.0.hw, r.0.sw, r.0.meid, r.0.socid)), r.1.trace)
  }

  /** `performFullReadInfo`: four `sendCmd` calls in table order, a line for each
      non-empty answer. */
  method PerformFullReadInfo(device: Device) returns (info: ReadInfo, trace: seq<Event>)
    ensures (info, trace) == ReadInfoOutcome(device)
  {
    var serial := new SerialPort(device);
    var portOk := serial.Open();
    if !portOk {
      return PortFailed, [];
    }
    var hwData := SendCmd(serial, [OP_HW_CODE], LEN_HW_CODE);
    var swData := SendCmd(serial, [OP_SW_VERSION], LEN_SW_VERSION);
    var meid := SendCmd(serial, [OP_MEID], LEN_MEID);
    var socid := SendCmd(serial, [OP_SOC_ID], LEN_SOC_ID);
    serial.Close();
    info := Report(InfoLines(hwData, swData, meid, socid));
    trace := serial.wire.trace;
  }

  /** An exchange on a port that has used up the first `k` arrivals of `arrivals`
      consumes arrival `k`. */
  lemma ExchangeConsumesNext(w: Wire, arrivals: seq<Arrival>, k: nat, cmd: seq<Byte>, readLen: nat)
    requires w.arrivals == DropArrivals(arrivals, k)
    ensures CmdExchange(w, cmd, readLen).1.trace ==
      w.trace + [Wrote(cmd), Waited(CMD_MS, ArrivalAt(arrivals, k))]
    ensures CmdExchange(w, cmd, readLen).1.arrivals == DropArrivals(arrivals, k + 1)
  {
    CmdExchangeAnswer(w, cmd, readLen);
    DropArrivalsAt(arrivals, k, 0);
    DropArrivalsTwice(arrivals, k, 1);
  }

  /** The four exchanges on a port fresh from opening: FD, FC, E1, E7 each written and
      followed by one 1000 ms wait on the next arrival. */
  lemma InfoExchangesTrace(w0: Wire)
    requires w0.trace == []
    ensures InfoExchanges(w0).1.trace ==
      [Wrote([0xFD]), Waited(CMD_MS, ArrivalAt(w0.arrivals, 0)),
       Wrote([0xFC]), Waited(CMD_MS, ArrivalAt(w0.arrivals, 1)),
       Wrote([0xE1]), Waited(CMD_MS, ArrivalAt(w0.arrivals, 2)),
       Wrote([0xE7]), Waited(CMD_MS, ArrivalAt(w0.arrivals, 3))]
  {
    var arr := w0.arrivals;
    assert w0.arrivals == DropArrivals(arr, 0);
    var w1 := CmdExchange(w0, [OP_HW_CODE], LEN_HW_CODE).1;
    ExchangeConsumesNext(w0, arr, 0, [OP_HW_CODE], LEN_HW_CODE);
    var w2 := CmdExchange(w1, [OP_SW_VERSION], LEN_SW_VERSION).1;
    ExchangeConsumesNext(w1, arr, 1, [OP_SW_VERSION], LEN_SW_VERSION);
    assert w2.trace == w1.trace + [Wrote([0xFC]), Waited(CMD_MS, ArrivalAt(arr, 1))];
    var w3 := CmdExchange(w2, [OP_MEID], LEN_MEID).1;
    ExchangeConsumesNext(w2, arr, 2, [OP_MEID], LEN_MEID);
    var w4 := CmdExchange(w3, [OP_SOC_ID], LEN_SOC_ID).1;
    ExchangeConsumesNext(w3, arr, 3, [OP_SOC_ID], LEN_SOC_ID);
    assert w4.trace == w3.trace + [Wrote([0xE7]), Waited(CMD_MS, ArrivalAt(arr, 3))];
  }

  /** The read issues FD, FC, E1, E7 in that order, each followed by one 1000 ms
      wait consuming the next arrival; nothing is written when the port fails. */
  lemma ReadInfoCommandOrder(device: Device)
    ensures ReadInfoOutcome(device).0.PortFailed? <==> !device.opens
    ensures device.opens ==> (ReadInfoOutcome(device).1 ==
      [Wrote([0xFD]), Waited(CMD_MS, ArrivalAt(device.arrivals, 0)),
       Wrote([0xFC]), Waited(CMD_MS, ArrivalAt(device.arrivals, 1)),
       Wrote([0xE1]), Waited(CMD_MS, ArrivalAt(device.arrivals, 2)),
       Wrote([0xE7]), Waited(CMD_MS, ArrivalAt(device.arrivals, 3))])
    ensures !device.opens ==> ReadInfoOutcome(device).1 == []
  {
    if device.opens {
      InfoExchangesTrace(OpenedWire(device));
    }
  }

  /** An exchange whose wait brings exactly the bytes asked for, on a port with nothing
      unread, returns those bytes and leaves nothing unread. */
  lemma ExchangeExactAnswer(w: Wire, cmd: seq<Byte>, bytes: seq<Byte>)
    requires w.buffer == [] && ArrivalAt(w.arrivals, 0) == Data(bytes)
    ensures CmdExchange(w, cmd, |bytes|).0 == bytes
    ensures CmdExchange(w, cmd, |bytes|).1.buffer == []
    ensures CmdExchange(w, cmd, |bytes|).1.arrivals == DropArrivals(w.arrivals, 1)
  {
  }

  /** When the device answers each command with exactly the bytes asked for, the report
      holds those answers, the chipset line naming the big-endian code of the first. */
  lemma ReadInfoExactAnswers(device: Device, hw: seq<Byte>, sw: seq<Byte>, meid: seq<Byte>, socid: seq<Byte>)
    requires device.opens
    requires |hw| == 4 && |sw| == 8 && |meid| == 16 && |socid| == 32
    requires device.arrivals == [Data(hw), Data(sw), Data(meid), Data(socid)]
    ensures ReadInfoOutcome(device).0 ==
      Report([Chipset(ChipsetName(BigEndian32(hw)), BigEndian32(hw)), SwVersion(sw), Meid(meid), SocId(socid)])
  {
    var arr := device.arrivals;
    var w0 := OpenedWire(device);
    ExchangeExactAnswer(w0, [OP_HW_CODE], hw);
    var w1 := CmdExchange(w0, [OP_HW_CODE], LEN_HW_CODE).1;
    assert w1.arrivals == arr[1..];
    ExchangeExactAnswer(w1, [OP_SW_VERSION], sw);
    var w2 := CmdExchange(w1, [OP_SW_VERSION], LEN_SW_VERSION).1;
    assert w2.arrivals == arr[2..];
    ExchangeExactAnswer(w2, [OP_MEID], meid);
    var w3 := CmdExchange(w2, [OP_MEID], LEN_MEID).1;
    assert w3.arrivals == arr[3..];
    ExchangeExactAnswer(w3, [OP_SOC_ID], socid);
    assert InfoExchanges(w0).0 == Answers(hw, sw, meid, socid);
  }

}
