/** The second meta-mode back end (`MtkMetaLogic`): the `enterMetaMode`
    handshake over an abstract response channel, and the constant helper
    behaviours the class ships with.

    The channel stands for the private `readMetaResponse` / `sendMetaCommand`
    pair.  Its k-th `readMetaResponse` call answers `replies[k]` (nothing once
    the list is used up); every call is recorded, in order, as a `MetaCall`. */
module MetaBackend {

  import opened Bytes

  /** One use of the low-level channel. */
  datatype MetaCall = Requested(size: int) | Sent(cmd: seq<Byte>)

  /** The `k`-th answer of the channel, empty past the end of the list. */
  function ReplyAt(replies: seq<seq<Byte>>, k: nat): seq<Byte>
  {
    if k < |replies| then replies[k] else []
  }

  /** The default handshake mode of `enterMetaMode`. */
  const DEFAULT_MODE: string := "METAMETA"

  /** The acks `enterMetaMode` accepts. */
  predicate AcceptedAck(ack: seq<Byte>)
  {
    ack == ATEMATEM || ack == READYATE
  }

  /** The private low-level channel of one `MtkMetaLogic` object. */
  class MetaChannel {
    var replies: seq<seq<Byte>>
    var calls: seq<MetaCall>

    constructor (replies: seq<seq<Byte>>)
      ensures this.replies == replies && calls == []
    {
      this.replies := replies;
      calls := [];
    }

    /** `readMetaResponse(size)`: the next answer. */
    method ReadMetaResponse(size: int) returns (r: seq<Byte>)
      modifies this
      ensures r == ReplyAt(old(replies), 0)
      ensures replies == if old(replies) == [] then [] else old(replies)[1..]
      ensures calls == old(calls) + [Requested(size)]
    {
      r := ReplyAt(replies, 0);
      if replies != [] {
        replies := replies[1..];
      }
      calls := calls + [Requested(size)];
    }

    /** `sendMetaCommand(cmd)`; its result is never inspected by the handshake. */
    method SendMetaCommand(cmd: seq<Byte>)
      modifies this`calls
      ensures calls == old(calls) + [Sent(cmd)]
    {
      calls := calls + [Sent(cmd)];
    }
  }

  /** `enterMetaMode(portNum, mode)` on a channel whose reads answer `replies` in
      turn: success iff the first answer is exactly "READY" and the second one
      of the two accepted acks; the mode is sent once, and only after "READY". */
  method EnterMetaMode(mode: string, replies: seq<seq<Byte>>) returns (ok: bool, calls: seq<MetaCall>)
    ensures ok <==> ReplyAt(replies, 0) == READY && AcceptedAck(ReplyAt(replies, 1))
    ensures ReplyAt(replies, 0) == READY ==>
      calls == [Requested(5), Sent(Latin1(mode)), Requested(8)]
    ensures ReplyAt(replies, 0) != READY ==> calls == [Requested(5)]
  {
    var channel := new MetaChannel(replies);
    ok := false;
    var response := channel.ReadMetaResponse(5);
    if response == READY {
      channel.SendMetaCommand(Latin1(mode));
      var ack := channel.ReadMetaResponse(8);
      assert ack == ReplyAt(replies, 1);
      if ack == ATEMATEM || ack == READYATE {
        ok := true;
      }
    }
    calls := channel.calls;
  }

  /** The shipped `readMetaResponse`: "READY" whatever size is asked for. */
  function ReadMetaResponseStub(size: int): seq<Byte>
  {
    READY
  }

  /** The shipped `sendMetaCommand`: reports success. */
  predicate SendMetaCommandStub(cmd: seq<Byte>)
  {
    true
  }

  /** The shipped `readNvItem`: always empty. */
  function ReadNvItemStub(id: int): seq<Byte>
  {
    []
  }

  /** The shipped `parseGptTable`: a fixed partition list. */
  function ParseGptTableStub(): string
  {
    "User, Boot1, Boot2, RPMB"
  }

  /** The shipped `repairImei`: reports success without touching the device. */
  predicate RepairImeiStub(portNum: int, imei1: string, imei2: string)
  {
    true
  }

  /** The shipped `resetFactory`: reports success without touching the device. */
  predicate ResetFactoryStub(portNum: int)
  {
    true
  }

  /** The stubs answer the same for every argument. */
  lemma StubsIgnoreArguments(size1: int, size2: int, id1: int, id2: int, cmd: seq<Byte>,
                             port1: int, port2: int, a1: string, a2: string, b1: string, b2: string)
    ensures ReadMetaResponseStub(size1) == ReadMetaResponseStub(size2) == READY
    ensures SendMetaCommandStub(cmd) && ParseGptTableStub() == "User, Boot1, Boot2, RPMB"
    ensures ReadNvItemStub(id1) == ReadNvItemStub(id2) == []
    ensures RepairImeiStub(port1, a1, b1) && RepairImeiStub(port2, a2, b2)
    ensures ResetFactoryStub(port1) && ResetFactoryStub(port2)
  {
  }

  /** With the shipped `readMetaResponse` the ack is "READY" too, so the handshake
      sends the mode and then always fails. */
  method EnterMetaModeShipped(mode: string) returns (ok: bool, calls: seq<MetaCall>)
    ensures !ok
    ensures calls == [Requested(5), Sent(Latin1(mode)), Requested(8)]
  {
    ok, calls := EnterMetaMode(mode, [ReadMetaResponseStub(5), ReadMetaResponseStub(8)]);
  }

  /** The default mode goes out as the bytes of "METAMETA". */
  lemma DefaultModeBytes()
    ensures Latin1(DEFAULT_MODE) == METAMETA
  {
    LiteralsAreLatin1();
  }
}
