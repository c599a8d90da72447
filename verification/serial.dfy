/** The serial link to the phone, reduced to what the protocol code observes.

    A `Device` stands for what is plugged into the COM port: whether the port
    can be opened, and what the phone sends in answer to each successive
    `waitForReadyRead` (one `Arrival` per wait; once the list is used up the
    phone stays silent).  Timing is not modelled: whether bytes arrive within
    a wait's timeout is part of the `Arrival` itself.  What the host does on
    the wire is recorded, in order, as a trace of `Event`s. */
module Serial {

  import opened Bytes

  /** What one `waitForReadyRead` sees: nothing before the timeout, or a chunk of bytes. */
  datatype Arrival = Silence | Data(bytes: seq<Byte>)

  /** The phone on the other end of the port. */
  datatype Device = Device(opens: bool, arrivals: seq<Arrival>)

  /** One observable action of the host: bytes written, or a bounded wait with its outcome. */
  datatype Event = Wrote(bytes: seq<Byte>) | Waited(timeoutMs: nat, arrival: Arrival)

  /** The value of an open port: arrivals still to come, bytes received but
      not yet read, and the trace so far. */
  datatype Wire = Wire(arrivals: seq<Arrival>, buffer: seq<Byte>, trace: seq<Event>)

  /** The `i`-th arrival of a list, silence past its end. */
  function ArrivalAt(arrivals: seq<Arrival>, i: nat): Arrival
  {
    if i < |arrivals| then arrivals[i] else Silence
  }

  /** What is left of the arrivals after `n` waits. */
  function DropArrivals(arrivals: seq<Arrival>, n: nat): seq<Arrival>
  {
    if n <= |arrivals| then arrivals[n..] else []
  }

  /** After `n` waits, the `j`-th arrival still to come is the `n + j`-th of the list. */
  lemma DropArrivalsAt(arrivals: seq<Arrival>, n: nat, j: nat)
    ensures ArrivalAt(DropArrivals(arrivals, n), j) == ArrivalAt(arrivals, n + j)
  {
  }

  lemma DropArrivalsTwice(arrivals: seq<Arrival>, m: nat, n: nat)
    ensures DropArrivals(DropArrivals(arrivals, m), n) == DropArrivals(arrivals, m + n)
  {
    if m + n <= |arrivals| {
      assert arrivals[m..][n..] == arrivals[m + n..];
    }
  }

  /** A fresh, just-opened port on `device`. */
  function OpenedWire(device: Device): Wire
  {
    Wire(device.arrivals, [], [])
  }

  /** `write(bytes)`. */
  function AfterWrite(w: Wire, bytes: seq<Byte>): Wire
  {
    w.(trace := w.trace + [Wrote(bytes)])
  }

  /** `waitForReadyRead(ms)` returns true. */
  predicate Readable(w: Wire)
  {
    ArrivalAt(w.arrivals, 0).Data?
  }

  /** The port after `waitForReadyRead(ms)`: the next arrival is consumed and
      whatever it carried joins the unread bytes. */
  function AfterWait(w: Wire, ms: nat): Wire
  {
    var a := ArrivalAt(w.arrivals, 0);
    Wire(DropArrivals(w.arrivals, 1),
         w.buffer + (if a.Data? then a.bytes else []),
         w.trace + [Waited(ms, a)])
  }

  /** `read(n)`: at most `n` of the unread bytes, oldest first. */
  function Take(w: Wire, n: nat): (data: seq<Byte>)
    ensures |data| <= n && data <= w.buffer
  {
    if n <= |w.buffer| then w.buffer[..n] else w.buffer
  }

  /** The port after `read(n)`: the bytes `Take` returned are gone. */
  function AfterTake(w: Wire, n: nat): Wire
  {
    w.(buffer := if n <= |w.buffer| then w.buffer[n..] else [])
  }

  /** The bytes one event wrote, if it is a write. */
  function WrittenBy(e: Event): seq<seq<Byte>>
  {
    if e.Wrote? then [e.bytes] else []
  }

  /** The byte strings written, in order. */
  function Written(trace: seq<Event>): (r: seq<seq<Byte>>)
    ensures |r| <= |trace|
  {
    if trace == [] then [] else WrittenBy(trace[0]) + Written(trace[1..])
  }

  lemma {:induction false} WrittenAppend(a: seq<Event>, b: seq<Event>)
    ensures Written(a + b) == Written(a) + Written(b)
  {
    if a == [] {
      assert a + b == b;
    } else {
      var ab := a + b;
      assert ab[0] == a[0] && ab[1..] == a[1..] + b;
      WrittenAppend(a[1..], b);
      calc {
        Written(ab);
        WrittenBy(a[0]) + Written(a[1..] + b);
        WrittenBy(a[0]) + (Written(a[1..]) + Written(b));
        (WrittenBy(a[0]) + Written(a[1..])) + Written(b);
      }
    }
  }

  /** How many bounded waits the trace holds. */
  function Waits(trace: seq<Event>): (n: nat)
    ensures n <= |trace|
  {
    if trace == [] then 0
    else (if trace[0].Waited? then 1 else 0) + Waits(trace[1..])
  }

  lemma {:induction false} WaitsAppend(a: seq<Event>, b: seq<Event>)
    ensures Waits(a + b) == Waits(a) + Waits(b)
  {
    if a == [] {
      assert a + b == b;
    } else {
      var ab := a + b;
      assert ab[0] == a[0] && ab[1..] == a[1..] + b;
      WaitsAppend(a[1..], b);
    }
  }

  /** A `QSerialPort` owned by one protocol operation. */
  class SerialPort {
    const opens: bool
    var isOpen: bool
    var wire: Wire

    /** `QSerialPort serial; serial.setPortName(...); serial.setBaudRate(...)`. */
    constructor (device: Device)
      ensures opens == device.opens && !isOpen && wire == OpenedWire(device)
    {
      opens := device.opens;
      isOpen := false;
      wire := OpenedWire(device);
    }

    /** `open(QIODevice::ReadWrite)`. */
    method Open() returns (ok: bool)
      requires !isOpen
      modifies this`isOpen
      ensures ok == opens && isOpen == ok
    {
      ok := opens;
      isOpen := ok;
    }

    /** `close()`. */
    method Close()
      modifies this`isOpen
      ensures !isOpen
    {
      isOpen := false;
    }

    /** `write(bytes)`. */
    method Write(bytes: seq<Byte>)
      requires isOpen
      modifies this`wire
      ensures wire == AfterWrite(old(wire), bytes)
    {
      wire := AfterWrite(wire, bytes);
    }

    /** `waitForReadyRead(ms)`. */
    method WaitForReadyRead(ms: nat) returns (ready: bool)
      requires isOpen
      modifies this`wire
      ensures ready == Readable(old(wire))
      ensures wire == AfterWait(old(wire), ms)
    {
      ready := Readable(wire);
      wire := AfterWait(wire, ms);
    }

    /** `readAll()`. */
    method ReadAll() returns (data: seq<Byte>)
      requires isOpen
      modifies this`wire
      ensures data == old(wire).buffer
      ensures wire == old(wire).(buffer := [])
    {
      data := wire.buffer;
      wire := wire.(buffer := []);
    }

    /** `read(n)`. */
    method Read(n: nat) returns (data: seq<Byte>)
      requires isOpen
      modifies this`wire
      ensures data == Take(old(wire), n)
      ensures wire == AfterTake(old(wire), n)
    {
      data := Take(wire, n);
      wire := AfterTake(wire, n);
    }
  }
}
