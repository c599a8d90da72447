/** IMEI repair over meta mode: the vendor packed-BCD encoding of an IMEI,
    the NVRAM write frame that carries it, and the two-record repair
    sequence (class `MtkMetaImei` in mtk_meta_imei.cpp). */
module MetaImei {

  import opened Bytes
  import opened Serial

  /** NVRAM logical ID of the IMEI record on current devices. */
  const LID_IMEI_NEW: int := 151
  /** NVRAM logical ID of the IMEI record on keypad phones; declared, never written. */
  const LID_IMEI_OLD: int := 5
  /** How long a write waits for the device's answer. */
  const NVRAM_ACK_MS: nat := 2000

  // ---------------------------------------------------------------------------
  // Packed BCD
  // ---------------------------------------------------------------------------

  predicate IsDecimal(c: char)
  {
    '0' <= c <= '9'
  }

  /** A 15-character string of decimal digits. */
  predicate IsImeiDigits(s: string)
  {
    |s| == 15 && forall i :: 0 <= i < |s| ==> IsDecimal(s[i])
  }

  /** `QString(c).toInt()`: the digit's value, or 0 when the conversion fails. */
  function DigitValue(c: char): (d: nat)
    ensures d < 10
  {
    if IsDecimal(c) then c as int - '0' as int else 0
  }

  function DigitChar(d: nat): (c: char)
    requires d < 10
    ensures IsDecimal(c)
  {
    ('0' as int + d) as char
  }

  lemma DigitCharValue(c: char)
    requires IsDecimal(c)
    ensures DigitChar(DigitValue(c)) == c
  {
  }

  /** `imei.mid(i, 1).toInt()`: past the end of the string `mid` is empty and reads as 0. */
  function MidDigit(imei: string, i: nat): (d: nat)
    ensures d < 10
  {
    if i < |imei| then DigitValue(imei[i]) else 0
  }

  /** `imei.right(1).toInt()`. */
  function RightDigit(imei: string): (d: nat)
    ensures d < 10
  {
    if imei == [] then 0 else DigitValue(imei[|imei| - 1])
  }

  /** `(hi << 4) | lo` for two nibbles. */
  function PackNibbles(lo: nat, hi: nat): Byte
    requires lo < 16 && hi < 16
  {
    hi * 16 + lo
  }

  lemma UnpackNibbles(lo: nat, hi: nat)
    requires lo < 16 && hi < 16
    ensures PackNibbles(lo, hi) % 16 == lo && PackNibbles(lo, hi) / 16 == hi
  {
  }

  /** The `k`-th swapped pair: digit `2k` in the low nibble, digit `2k+1` in the high one. */
  function PairByte(imei: string, k: nat): Byte
  {
    PackNibbles(MidDigit(imei, 2 * k), MidDigit(imei, 2 * k + 1))
  }

  /** The first `n` swapped pairs. */
  function Pairs(imei: string, n: nat): (r: seq<Byte>)
    ensures |r| == n
  {
    if n == 0 then [] else Pairs(imei, n - 1) + [PairByte(imei, n - 1)]
  }

  lemma {:induction false} PairsAt(imei: string, n: nat, k: nat)
    requires k < n
    ensures Pairs(imei, n)[k] == PairByte(imei, k)
  {
    if k < n - 1 {
      PairsAt(imei, n - 1, k);
    }
  }

  /** Header the vendor tool puts before every IMEI record: a length byte and a type byte. */
  const BCD_HEADER: seq<Byte> := [0x08, 0x3A]

  /** The record `convertImeiToMtkBcd` produces. */
  function MtkBcd(imei: string): seq<Byte>
  {
    BCD_HEADER + Pairs(imei, 7) + [PackNibbles(RightDigit(imei), 0xF)]
  }

  /** `convertImeiToMtkBcd`: header, the pairs built by a loop over `i = 0, 2, ..., 12`,
      then the last digit under a 0xF filler nibble. */
  method ConvertImeiToMtkBcd(imei: string) returns (bcd: seq<Byte>)
    ensures bcd == MtkBcd(imei)
  {
    bcd := [];
    bcd := bcd + [0x08];
    bcd := bcd + [0x3A];
    var i := 0;
    while i < 14
      invariant 0 <= i <= 14 && i % 2 == 0
      invariant bcd == BCD_HEADER + Pairs(imei, i / 2)
    {
      var digit1 := MidDigit(imei, i);
      var digit2 := MidDigit(imei, i + 1);
      bcd := bcd + [PackNibbles(digit1, digit2)];
      i := i + 2;
    }
    var lastDigit := RightDigit(imei);
    bcd := bcd + [PackNibbles(lastDigit, 0xF)];
  }

  /** Byte by byte: 10 bytes whatever the input; the fixed header, whose length
      byte counts the 8 bytes after it; seven pairs with the earlier digit in
      the low nibble; the 15th digit under a 0xF high nibble. */
  lemma {:induction false} MtkBcdLayout(imei: string)
    ensures |MtkBcd(imei)| == 10
    ensures MtkBcd(imei)[0] == 0x08 && MtkBcd(imei)[1] == 0x3A
    ensures MtkBcd(imei)[0] == |MtkBcd(imei)| - 2
    ensures forall k :: 0 <= k < 7 ==>
      MtkBcd(imei)[2 + k] % 16 == MidDigit(imei, 2 * k) &&
      MtkBcd(imei)[2 + k] / 16 == MidDigit(imei, 2 * k + 1)
    ensures MtkBcd(imei)[9] / 16 == 0xF && MtkBcd(imei)[9] % 16 == RightDigit(imei)
  {
    var r := MtkBcd(imei);
    forall k | 0 <= k < 7
      ensures r[2 + k] % 16 == MidDigit(imei, 2 * k) && r[2 + k] / 16 == MidDigit(imei, 2 * k + 1)
    {
      PairsAt(imei, 7, k);
      UnpackNibbles(MidDigit(imei, 2 * k), MidDigit(imei, 2 * k + 1));
    }
    UnpackNibbles(RightDigit(imei), 0xF);
  }

  /** The digits of swapped pairs, low nibble first; `None` if a nibble is not a digit. */
  function UnpackPairs(ps: seq<Byte>): (r: Option<string>)
    ensures r.Some? ==> |r.value| == 2 * |ps|
  {
    if ps == [] then Some("")
    else
      var b := ps[|ps| - 1];
      match UnpackPairs(ps[..|ps| - 1])
      case None => None
      case Some(front) =>
        if b % 16 < 10 && b / 16 < 10 then Some(front + [DigitChar(b % 16), DigitChar(b / 16)])
        else None
  }

  /** The inverse of the encoding: check the header and the filler nibble, unswap the
      pairs and append the 15th digit. */
  function UnswapImei(bcd: seq<Byte>): (r: Option<string>)
    ensures r.Some? ==> |r.value| == 15
  {
    if |bcd| != 10 || bcd[..2] != BCD_HEADER || bcd[9] / 16 != 0xF || bcd[9] % 16 >= 10 then None
    else
      match UnpackPairs(bcd[2..9])
      case None => None
      case Some(front) => Some(front + [DigitChar(bcd[9] % 16)])
  }

  /** Unswapping one more pair of digits appends them to what the earlier pairs gave. */
  lemma UnpackPairsStep(init: seq<Byte>, b: Byte, front: string)
    requires UnpackPairs(init) == Some(front) && b % 16 < 10 && b / 16 < 10
    ensures UnpackPairs(init + [b]) == Some(front + [DigitChar(b % 16), DigitChar(b / 16)])
  {
    assert (init + [b])[..|init|] == init;
  }

  /** Two more characters of a prefix. */
  lemma PrefixStep(s: string, k: nat)
    requires k + 2 <= |s|
    ensures s[..k + 2] == s[..k] + [s[k], s[k + 1]]
  {
  }

  /** The `k`-th pair of a 15-digit IMEI holds digits `2k` and `2k+1`, each readable back. */
  lemma PairByteDigits(imei: string, k: nat)
    requires IsImeiDigits(imei) && k < 7
    ensures PairByte(imei, k) % 16 < 10 && PairByte(imei, k) / 16 < 10
    ensures DigitChar(PairByte(imei, k) % 16) == imei[2 * k]
    ensures DigitChar(PairByte(imei, k) / 16) == imei[2 * k + 1]
  {
    UnpackNibbles(MidDigit(imei, 2 * k), MidDigit(imei, 2 * k + 1));
    DigitCharValue(imei[2 * k]);
    DigitCharValue(imei[2 * k + 1]);
  }

  lemma {:induction false} UnpackPairsOfPairs(imei: string, n: nat)
    requires IsImeiDigits(imei) && n <= 7
    ensures UnpackPairs(Pairs(imei, n)) == Some(imei[..2 * n])
  {
    if n > 0 {
      UnpackPairsOfPairs(imei, n - 1);
      PairByteDigits(imei, n - 1);
      UnpackPairsStep(Pairs(imei, n - 1), PairByte(imei, n - 1), imei[..2 * n - 2]);
      PrefixStep(imei, 2 * n - 2);
    }
  }

  /** Round trip: for a 15-digit IMEI, unswapping the record gives the IMEI back. */
  lemma MtkBcdRoundTrip(imei: string)
    requires IsImeiDigits(imei)
    ensures UnswapImei(MtkBcd(imei)) == Some(imei)
  {
    var r := MtkBcd(imei);
    MtkBcdLayout(imei);
    assert r[2..9] == Pairs(imei, 7);
    UnpackPairsOfPairs(imei, 7);
    DigitCharValue(imei[14]);
    assert imei == imei[..14] + [imei[14]];
  }

  /** Distinct 15-digit IMEIs get distinct records. */
  lemma MtkBcdInjective(a: string, b: string)
    requires IsImeiDigits(a) && IsImeiDigits(b)
    requires MtkBcd(a) == MtkBcd(b)
    ensures a == b
  {
    MtkBcdRoundTrip(a);
    MtkBcdRoundTrip(b);
  }

  lemma CharDigitValue(d: nat)
    requires d < 10
    ensures DigitValue(DigitChar(d)) == d
  {
  }

  /** What the unswapping accepts: decimal digits, two per byte, each byte the
      packing of its two digits. */
  lemma {:induction false} UnpackPairsSound(ps: seq<Byte>, front: string)
    requires UnpackPairs(ps) == Some(front)
    ensures |front| == 2 * |ps|
    ensures forall i :: 0 <= i < |front| ==> IsDecimal(front[i])
    ensures forall k :: 0 <= k < |ps| ==>
      ps[k] == PackNibbles(DigitValue(front[2 * k]), DigitValue(front[2 * k + 1]))
  {
    if ps != [] {
      var init, b := ps[..|ps| - 1], ps[|ps| - 1];
      var f0 := UnpackPairs(init).value;
      UnpackPairsSound(init, f0);
      var lo, hi := DigitChar(b % 16), DigitChar(b / 16);
      assert front == f0 + [lo, hi];
      CharDigitValue(b % 16);
      CharDigitValue(b / 16);
      forall k | 0 <= k < |ps|
        ensures ps[k] == PackNibbles(DigitValue(front[2 * k]), DigitValue(front[2 * k + 1]))
      {
        if k < |init| {
          assert ps[k] == init[k] && front[2 * k] == f0[2 * k] && front[2 * k + 1] == f0[2 * k + 1];
        } else {
          assert front[2 * k] == lo && front[2 * k + 1] == hi;
        }
      }
    }
  }

  /** Soundness of the decoder: whatever record it accepts is the record of the
      15-digit IMEI it returns, so it accepts exactly the records `MtkBcd` makes
      of 15-digit IMEIs. */
  lemma UnswapImeiSound(bcd: seq<Byte>, imei: string)
    requires UnswapImei(bcd) == Some(imei)
    ensures IsImeiDigits(imei) && MtkBcd(imei) == bcd
  {
    var front := UnpackPairs(bcd[2..9]).value;
    UnpackPairsSound(bcd[2..9], front);
    var last := bcd[9] % 16;
    assert imei == front + [DigitChar(last)];
    CharDigitValue(last);
    assert RightDigit(imei) == last;
    forall k | 0 <= k < 7
      ensures Pairs(imei, 7)[k] == bcd[2 + k]
    {
      PairsAt(imei, 7, k);
      assert imei[2 * k] == front[2 * k] && imei[2 * k + 1] == front[2 * k + 1];
      assert bcd[2..9][k] == bcd[2 + k];
    }
    assert bcd == bcd[..2] + bcd[2..9] + [bcd[9]];
  }

  lemma {:induction false} PairsSeeDigitValues(a: string, b: string, n: nat)
    requires |a| == |b|
    requires forall i :: 0 <= i < |a| ==> DigitValue(a[i]) == DigitValue(b[i])
    ensures Pairs(a, n) == Pairs(b, n)
  {
    if n > 0 {
      PairsSeeDigitValues(a, b, n - 1);
      assert MidDigit(a, 2 * n - 2) == MidDigit(b, 2 * n - 2);
      assert MidDigit(a, 2 * n - 1) == MidDigit(b, 2 * n - 1);
    }
  }

  /** The encoder sees only what `toInt` makes of each character: strings whose
      characters read as the same digits get the same record, so a non-digit is
      not rejected but written as the digit 0. */
  lemma MtkBcdSeesDigitValues(a: string, b: string)
    requires |a| == |b|
    requires forall i :: 0 <= i < |a| ==> DigitValue(a[i]) == DigitValue(b[i])
    ensures MtkBcd(a) == MtkBcd(b)
  {
    PairsSeeDigitValues(a, b, 7);
  }

  /** A non-digit anywhere in the IMEI is written exactly as the digit 0 would be. */
  lemma NonDigitEncodedAsZero(imei: string, i: nat, c: char)
    requires i < |imei| && !IsDecimal(c)
    ensures MtkBcd(imei[i := c]) == MtkBcd(imei[i := '0'])
  {
    MtkBcdSeesDigitValues(imei[i := c], imei[i := '0']);
  }

  /** The worked example of the source's comment: "123456" packs to 0x21 0x43 0x65.
      Given only those six digits the record is still 10 bytes: the digits that
      are missing read as 0, and the last digit present goes under the filler. */
  lemma ExampleRecord(imei: string)
    requires imei == "123456"
    ensures MtkBcd(imei) == [0x08, 0x3A, 0x21, 0x43, 0x65, 0x00, 0x00, 0x00, 0x00, 0xF6]
  {
    var ps := Pairs(imei, 7);
    assert MidDigit(imei, 0) == 1 && MidDigit(imei, 1) == 2;
    assert MidDigit(imei, 2) == 3 && MidDigit(imei, 3) == 4;
    assert MidDigit(imei, 4) == 5 && MidDigit(imei, 5) == 6;
    assert RightDigit(imei) == 6;
    PairsAt(imei, 7, 0); PairsAt(imei, 7, 1); PairsAt(imei, 7, 2); PairsAt(imei, 7, 3);
    PairsAt(imei, 7, 4); PairsAt(imei, 7, 5); PairsAt(imei, 7, 6);
    assert ps == [0x21, 0x43, 0x65, 0x00, 0x00, 0x00, 0x00];
  }

  // ---------------------------------------------------------------------------
  // NVRAM write frame and acknowledgement
  // ---------------------------------------------------------------------------

  /** `[0x01][lid][len][data]`: the `(char)` casts keep the low 8 bits, and nothing
      follows the data. */
  function NvramFrame(lid: int, data: seq<Byte>): seq<Byte>
  {
    [0x01, lid % 256, |data| % 256] + data
  }

  /** Reading a frame back: a write command whose length byte accounts for every
      byte after the three-byte head. */
  function ParseNvramFrame(frame: seq<Byte>): (r: Option<(Byte, seq<Byte>)>)
    ensures r.Some? ==> 3 + |r.value.1| == |frame| && frame[0] == 0x01
  {
    if |frame| >= 3 && frame[0] == 0x01 && frame[2] == |frame| - 3 then Some((frame[1], frame[3..]))
    else None
  }

  /** The frame is exactly head plus payload (no checksum byte), and parses back to
      the logical ID's low byte and the payload whenever the length fits a byte. */
  lemma NvramFrameRoundTrip(lid: int, data: seq<Byte>)
    requires |data| < 256
    ensures |NvramFrame(lid, data)| == 3 + |data|
    ensures ParseNvramFrame(NvramFrame(lid, data)) == Some((lid % 256, data))
  {
    assert NvramFrame(lid, data)[3..] == data;
  }

  /** A frame carrying an encoded IMEI to record 151: 13 bytes, head 0x01 0x97 0x0A. */
  lemma ImeiFrame(imei: string)
    ensures NvramFrame(LID_IMEI_NEW, MtkBcd(imei))[..3] == [0x01, 0x97, 0x0A]
    ensures NvramFrame(LID_IMEI_NEW, MtkBcd(imei))[3..] == MtkBcd(imei)
    ensures |NvramFrame(LID_IMEI_NEW, MtkBcd(imei))| == 13
  {
    MtkBcdLayout(imei);
  }

  /** The device's answer acknowledges the write: it holds an ACK byte or "OK". */
  predicate Acknowledges(response: seq<Byte>)
  {
    HasByte(response, ACK) || HasSub(response, OK)
  }

  /** The acknowledgement may sit anywhere: surrounding bytes never hide it. */
  lemma {:induction false} AcknowledgesAnywhere(pre: seq<Byte>, response: seq<Byte>, post: seq<Byte>)
    requires Acknowledges(response)
    ensures Acknowledges(pre + response + post)
  {
    if HasByte(response, ACK) {
      var i :| 0 <= i < |response| && response[i] == ACK;
      assert (pre + response + post)[|pre| + i] == ACK;
    } else {
      HasSubExtended(pre, response, post, OK);
    }
  }

  lemma AcknowledgeExamples()
    ensures Acknowledges([0x06]) && Acknowledges([0x41, 0x4F, 0x4B, 0x0D])
    ensures !Acknowledges([]) && !Acknowledges([0x15]) && !Acknowledges([0x4F, 0x30, 0x4B])
  {
    var ack: seq<Byte> := [0x06];
    assert ack[0] == ACK;
    var ok: seq<Byte> := [0x41, 0x4F, 0x4B, 0x0D];
    assert ok[1..3] == OK;
    assert OccursAt(ok, OK, 1);
    var nak: seq<Byte> := [0x4F, 0x30, 0x4B];
    assert nak[0..2][1] != OK[1] && nak[1..3][0] != OK[0];
    assert forall i :: 0 <= i < |nak| ==> nak[i] != ACK;
  }

  /** Whether one arrival, read whole, acknowledges a write. */
  predicate AckArrival(a: Arrival)
  {
    a.Data? && Acknowledges(a.bytes)
  }

  /** The port after `writeNvramMeta`, and its verdict. */
  function NvramWrite(w: Wire, lid: int, data: seq<Byte>): (Wire, bool)
  {
    var sent := AfterWrite(w, NvramFrame(lid, data));
    var waited := AfterWait(sent, NVRAM_ACK_MS);
    if Readable(sent) then (waited.(buffer := []), Acknowledges(waited.buffer))
    else (waited, false)
  }

  /** On a port with nothing unread: the frame is written once, one 2000 ms wait follows,
      and the write succeeds iff that wait brought bytes holding ACK or "OK". */
  lemma NvramWriteOnEmptyBuffer(w: Wire, lid: int, data: seq<Byte>)
    requires w.buffer == []
    ensures NvramWrite(w, lid, data).0.trace ==
      w.trace + [Wrote(NvramFrame(lid, data)), Waited(NVRAM_ACK_MS, ArrivalAt(w.arrivals, 0))]
    ensures NvramWrite(w, lid, data).0.buffer == []
    ensures NvramWrite(w, lid, data).0.arrivals == DropArrivals(w.arrivals, 1)
    ensures NvramWrite(w, lid, data).1 <==> AckArrival(ArrivalAt(w.arrivals, 0))
  {
    var a := ArrivalAt(w.arrivals, 0);
    if a.Data? {
      assert AfterWait(AfterWrite(w, NvramFrame(lid, data)), NVRAM_ACK_MS).buffer == a.bytes;
    }
  }

  /** `writeNvramMeta`: build the packet, write it, wait for the answer and scan it. */
  method WriteNvramMeta(serial: SerialPort, lid: int, data: seq<Byte>) returns (ok: bool)
    requires serial.isOpen
    modifies serial`wire
    ensures (serial.wire, ok) == NvramWrite(old(serial.wire), lid, data)
  {
    var packet := [];
    packet := packet + [0x01];
    packet := packet + [lid % 256];
    packet := packet + [|data| % 256];
    packet := packet + data;
    assert packet == NvramFrame(lid, data);
    serial.Write(packet);
    var ready := serial.WaitForReadyRead(NVRAM_ACK_MS);
    if ready {
      var response := serial.ReadAll();
      if Acknowledges(response) {
        return true;
      }
    }
    return false;
  }

  // ---------------------------------------------------------------------------
  // The repair sequence
  // ---------------------------------------------------------------------------

  /** The events of writing one IMEI record and waiting for its answer. */
  function Attempt(imei: string, answer: Arrival): seq<Event>
  {
    [Wrote(NvramFrame(LID_IMEI_NEW, MtkBcd(imei))), Waited(NVRAM_ACK_MS, answer)]
  }

  /** What `repairImei` does on the wire: each IMEI of length 15 is written to record 151
      in turn, each write consuming the next answer. */
  function RepairTrace(device: Device, imei1: string, imei2: string): seq<Event>
  {
    if !device.opens then []
    else
      var first := if |imei1| == 15 then Attempt(imei1, ArrivalAt(device.arrivals, 0)) else [];
      var second := if |imei2| == 15 then Attempt(imei2, ArrivalAt(device.arrivals, |first| / 2)) else [];
      first + second
  }

  /** The frames `repairImei` writes: one per IMEI of length exactly 15, both to logical
      ID 151, IMEI 1 first; none when the port does not open. */
  lemma RepairWrites(device: Device, imei1: string, imei2: string)
    ensures Written(RepairTrace(device, imei1, imei2)) ==
      (if device.opens && |imei1| == 15 then [NvramFrame(151, MtkBcd(imei1))] else []) +
      (if device.opens && |imei2| == 15 then [NvramFrame(151, MtkBcd(imei2))] else [])
    ensures Waits(RepairTrace(device, imei1, imei2)) == |Written(RepairTrace(device, imei1, imei2))|
  {
    if device.opens {
      var first := if |imei1| == 15 then Attempt(imei1, ArrivalAt(device.arrivals, 0)) else [];
      var second := if |imei2| == 15 then Attempt(imei2, ArrivalAt(device.arrivals, |first| / 2)) else [];
      WrittenAppend(first, second);
      WaitsAppend(first, second);
    }
  }

  /** `repairImei`: open the port, write IMEI 1 then (after a pause) IMEI 2 when each has
      15 characters, and report success unless the port failed or the IMEI 1 write
      was not acknowledged; the IMEI 2 outcome is ignored. */
  method RepairImei(device: Device, imei1: string, imei2: string) returns (success: bool, trace: seq<Event>)
    ensures success <==> device.opens && (|imei1| == 15 ==> AckArrival(ArrivalAt(device.arrivals, 0)))
    ensures trace == RepairTrace(device, imei1, imei2)
  {
    var serial := new SerialPort(device);
    var portOk := serial.Open();
    if !portOk {
      return false, [];
    }
    success := true;
    if |imei1| == 15 {
      var bcdData := ConvertImeiToMtkBcd(imei1);
      NvramWriteOnEmptyBuffer(serial.wire, LID_IMEI_NEW, bcdData);
      var ok := WriteNvramMeta(serial, LID_IMEI_NEW, bcdData);
      if !ok {
        success := false;
      }
    }
    ghost var afterFirst := serial.wire;
    assert afterFirst.buffer == [];
    assert afterFirst.arrivals == DropArrivals(device.arrivals, if |imei1| == 15 then 1 else 0);
    if |imei2| == 15 {
      var bcdData2 := ConvertImeiToMtkBcd(imei2);
      NvramWriteOnEmptyBuffer(serial.wire, LID_IMEI_NEW, bcdData2);
      var ok2 := WriteNvramMeta(serial, LID_IMEI_NEW, bcdData2);
    }
    serial.Close();
    trace := serial.wire.trace;
  }
}
