/** The Arduino-Wire-style class of TinySoftWire.cpp: `beginTransmission`,
    `write` and `endTransmission` over the engine's START, byte and STOP, and a
    fixed receive buffer of `RX_BUFFER_LENGTH` bytes filled by `requestFrom` and
    handed out byte by byte by `read`. The class's members are all static; the
    model holds them in one object. */
module SoftWire {
  import opened Bits
  import opened LineDriver
  import opened Wire
  import opened Transaction
  import Engine

  /** `RX_BUFFER_LENGTH` (TinySoftWire.h, line 17). */
  const RxBufferLength: Count := 8

  /** The number of bytes `requestFrom` reads: `count`, clamped to the buffer. */
  function Clamp(count: Count): Count
  {
    if count > RxBufferLength then RxBufferLength else count
  }

  /** `requestFrom(address, count, sendStop)` as written, for the levels `lv` the
      slave presents: the clamped number of bytes received with an ACK on the last
      one only, then a STOP only when `sendStop`. */
  function Requested(count: Count, sendStop: bool, lv: seq<bool>): Received
  {
    var r := ReceiveAll(Clamp(count), lv, LastOnly);
    Received(r.steps + (if sendStop then [StopStep] else []), r.bytes, r.rest)
  }

  /** What `requestFrom` puts on the bus: exactly `min(count, 8)` received bytes,
      each but the last answered with a NAK and the last with an ACK, followed by
      a STOP exactly when `sendStop`. There is no START and no address byte, so
      `address` plays no part. */
  lemma RequestedSteps(count: Count, sendStop: bool, lv: seq<bool>)
    ensures var r := Requested(count, sendStop, lv);
      var n := if count <= 8 then count else 8;
      |r.bytes| == n
      && |r.steps| == (if sendStop then n + 1 else n)
      && (forall k :: 0 <= k < n ==> r.steps[k].ReceiveStep? && (r.steps[k].ack <==> k == n - 1))
      && (sendStop ==> r.steps[n] == StopStep)
      && (forall k :: 0 <= k < |r.steps| ==> !r.steps[k].StartStep? && !r.steps[k].SendStep?)
  {
    var n := Clamp(count);
    ReceiveAllAcks(n, lv, LastOnly);
    var steps := ReceiveAll(n, lv, LastOnly).steps;
    var r := Requested(count, sendStop, lv);
    forall k | 0 <= k < n
      ensures r.steps[k] == steps[k]
    {
    }
  }

  /** A slave that sends `replies` (no more than the buffer holds) gets them back
      from `requestFrom`, in order. */
  lemma RequestedReplies(replies: seq<bv8>, sendStop: bool, rest: seq<bool>)
    requires |replies| <= 8
    ensures var r := Requested(|replies|, sendStop, ReplyLevels(replies) + rest);
      r.bytes == replies && r.rest == rest
  {
    ReceiveRepliesAnyRule(replies, rest, LastOnly);
  }

  /** Within the buffer, `requestFrom` receives exactly the bytes asked for. */
  lemma RequestedClamped(n: Count, sendStop: bool, lv: seq<bool>)
    requires n <= RxBufferLength
    ensures var r := ReceiveAll(n, lv, LastOnly);
      Requested(n, sendStop, lv) == Received(r.steps + (if sendStop then [StopStep] else []), r.bytes, r.rest)
  {
  }

  class TinySoftWire {
    /** The bus on pins `SOFT_SDA_PIN` and `SOFT_SCL_PIN`. */
    const bus: Bus
    /** `rxBuffer`, `rxBufferIndex` and `rxBufferLength`. */
    const rxBuffer: array<bv8>
    var rxBufferIndex: Count
    var rxBufferLength: Count

    /** The cursor stays within the bytes received, which fit in the buffer. */
    ghost predicate Cursor()
      reads this
    {
      rxBuffer.Length == RxBufferLength as int && rxBufferIndex <= rxBufferLength <= RxBufferLength
    }

    ghost predicate Valid()
      reads this, bus
    {
      Cursor() && bus.Valid()
    }

    /** The received bytes `read` has still to hand out, in order. */
    ghost function Remaining(): seq<bv8>
      reads this, rxBuffer
      requires Cursor()
    {
      rxBuffer[rxBufferIndex..rxBufferLength]
    }

    /** Static storage starts out zeroed: an empty buffer and a cursor at 0. */
    constructor (sdaPin: Pin, sclPin: Pin, slave: seq<bv8>)
      requires sdaPin != sclPin
      ensures Valid() && fresh(bus) && fresh(rxBuffer)
      ensures bus.sdaPin == sdaPin && bus.sclPin == sclPin
      ensures bus.portb == Cleared && bus.ddrb == Cleared
      ensures bus.trace == [] && bus.input == slave
      ensures Remaining() == [] && rxBufferIndex == 0 && rxBufferLength == 0
    {
      bus := new Bus(sdaPin, sclPin, slave);
      rxBuffer := new bv8[RxBufferLength](_ => 0);
      rxBufferIndex := 0;
      rxBufferLength := 0;
    }

    /** `beginTransmission(address)`: START, then the write address; the result
        is the slave's acknowledge. SDA is left released and SCL driven low,
        and no other pin changes. */
    method BeginTransmission(address: bv8) returns (ack: bool)
      requires Valid()
      modifies bus
      ensures Valid()
      ensures bus.LinesAt(true, false) && bus.OthersAsIn(old(bus.Registers()))
      ensures ack == !Head(old(bus.SdaLevels())) && bus.SdaLevels() == Tail(old(bus.SdaLevels()))
      ensures bus.trace == old(bus.trace) + StartImage() + SendImage(WriteAddress(address), !ack)
    {
      ack := Engine.BeginTransmission(bus, address);
    }

    /** `endTransmission()`: the engine's STOP and nothing else; both lines are
        left released. */
    method EndTransmission()
      requires Valid()
      modifies bus
      ensures Valid()
      ensures bus.LinesAt(true, true) && bus.OthersAsIn(old(bus.Registers()))
      ensures bus.SdaLevels() == old(bus.SdaLevels())
      ensures bus.trace == old(bus.trace) + StopImage()
    {
      Engine.Stop(bus);
    }

    /** `write(data)`: the engine's byte send and nothing else; SDA is left
        released and SCL driven low. */
    method Write(data: bv8) returns (ack: bool)
      requires Valid()
      modifies bus
      ensures Valid()
      ensures bus.LinesAt(true, false) && bus.OthersAsIn(old(bus.Registers()))
      ensures ack == !Head(old(bus.SdaLevels())) && bus.SdaLevels() == Tail(old(bus.SdaLevels()))
      ensures bus.trace == old(bus.trace) + SendImage(data, !ack)
    {
      ack := Engine.Send(bus, data);
    }

    /** `requestFrom(address, count, sendStop)`: `count` clamped to the buffer,
        that many bytes received into the buffer from its start, the cursor reset
        to them; the rest of the buffer keeps what it held. The lines end
        released after a STOP, with SCL driven low after bytes without one, and
        untouched when nothing was asked for; `address` is accepted and unused,
        as in the source. */
    method RequestFrom(address: bv8, count: Count, sendStop: bool)
      requires Valid()
      modifies this, bus, rxBuffer
      ensures Valid()
      ensures sendStop ==> bus.LinesAt(true, true)
      ensures !sendStop ==>
        if Clamp(count) > 0 then bus.LinesAt(true, false) else bus.Registers() == old(bus.Registers())
      ensures bus.OthersAsIn(old(bus.Registers()))
      ensures var r := Requested(count, sendStop, old(bus.SdaLevels()));
        rxBufferIndex == 0 && rxBufferLength == |r.bytes| && Remaining() == r.bytes
        && rxBuffer[..] == r.bytes + old(rxBuffer[..])[|r.bytes|..]
        && bus.trace == old(bus.trace) + Expand(r.steps) && bus.SdaLevels() == r.rest
    {
      var n := count;
      if n > RxBufferLength {
        n := RxBufferLength;
      }
      ghost var b0 := rxBuffer[..];
      ghost var r := Requested(count, sendStop, bus.SdaLevels());
      Fetch(bus, rxBuffer, n, sendStop);
      rxBufferIndex := 0;
      rxBufferLength := n;
      PrefixOfConcat(r.bytes, b0[n..]);
    }

    /** `available()`: the `uint8_t` difference of length and cursor, which is the
        number of bytes `read` has still to hand out. */
    function Available(): (n: Count)
      reads this, rxBuffer
      ensures Cursor() ==> n as int == |Remaining()|
    {
      (rxBufferLength as int - rxBufferIndex as int) % 256
    }

    /** `read()`: the next received byte, the cursor moved past it; once every
        byte has been handed out, 0xFF (the `int` -1 returned as `uint8_t`) and
        nothing changes. */
    method Read() returns (value: bv8)
      requires Valid()
      modifies this
      ensures Valid() && rxBufferLength == old(rxBufferLength)
      ensures old(Remaining()) != [] ==>
        value == old(Remaining())[0] && Remaining() == old(Remaining())[1..]
        && rxBufferIndex == old(rxBufferIndex) + 1
      ensures old(Remaining()) == [] ==> value == 0xFF && rxBufferIndex == old(rxBufferIndex)
    {
      var v: int := -1;
      Uint8OfMinusOne();
      if rxBufferIndex < rxBufferLength {
        v := rxBuffer[rxBufferIndex] as int;
        Uint8OfByte(rxBuffer[rxBufferIndex]);
        rxBufferIndex := rxBufferIndex + 1;
      }
      value := Uint8(v);
    }
  }

  /** The bus side of `requestFrom` once `count` is clamped to `n`: the
      receiving loop, then a STOP exactly when `sendStop`. */
  method Fetch(bus: Bus, buf: array<bv8>, n: Count, sendStop: bool)
    requires bus.Valid() && n <= buf.Length && n <= RxBufferLength
    modifies bus, buf
    ensures bus.Valid()
    ensures sendStop ==> bus.LinesAt(true, true)
    ensures !sendStop ==> if n > 0 then bus.LinesAt(true, false) else bus.Registers() == old(bus.Registers())
    ensures bus.OthersAsIn(old(bus.Registers()))
    ensures var r := Requested(n, sendStop, old(bus.SdaLevels()));
      buf[..] == r.bytes + old(buf[..])[n..]
      && bus.trace == old(bus.trace) + Expand(r.steps) && bus.SdaLevels() == r.rest
  {
    ghost var t0 := bus.trace;
    ghost var lv := bus.SdaLevels();
    ghost var r := ReceiveAll(n, lv, LastOnly);
    FillBuffer(bus, buf, n, t0, []);
    EmptyConcat(r.steps);
    RequestedClamped(n, sendStop, lv);
    ghost var b1 := buf[..];
    if sendStop {
      Engine.StopNext(bus, t0, r.steps);
      assert buf[..] == b1;
    }
  }

  /** One round of `requestFrom`'s loop: byte `cnt` of `n` received into `buf`
      and acknowledged exactly when it is the last one, with the loop's
      bookkeeping as in `Engine.ReceiveStore`. */
  method ReceiveInto(bus: Bus, buf: array<bv8>, cnt: nat, n: Count, ghost left: Count,
                     ghost lv: seq<bool>, ghost t0: seq<Event>, ghost before: seq<Step>,
                     ghost steps: seq<Step>, ghost bytes: seq<bv8>, ghost r0: seq<bv8>) returns (b: bv8)
    requires left > 0 && bus.Valid() && cnt + left == n && |bytes| == cnt && n <= buf.Length
    requires buf.Length == |r0| && buf[..] == bytes + r0[cnt..]
    requires bus.trace == t0 + Expand(steps)
    requires var r := ReceiveAll(left, bus.SdaLevels(), LastOnly);
      before + ReceiveAll(n, lv, LastOnly).steps == steps + r.steps
      && ReceiveAll(n, lv, LastOnly).bytes == bytes + r.bytes
      && ReceiveAll(n, lv, LastOnly).rest == r.rest
    modifies bus, buf
    ensures bus.Valid() && b == FromBitsMSB(Take(old(bus.SdaLevels()), 8))
    ensures bus.LinesAt(true, false) && bus.OthersAsIn(old(bus.Registers()))
    ensures buf[..] == bytes + [b] + r0[cnt + 1..]
    ensures var step := ReceiveStep(Take(old(bus.SdaLevels()), 8), left == 1);
      bus.trace == t0 + Expand(steps + [step])
      && var r := ReceiveAll(left - 1, bus.SdaLevels(), LastOnly);
      before + ReceiveAll(n, lv, LastOnly).steps == steps + [step] + r.steps
      && ReceiveAll(n, lv, LastOnly).bytes == bytes + [b] + r.bytes
      && ReceiveAll(n, lv, LastOnly).rest == r.rest
  {
    b := Engine.ReceiveStore(bus, buf, cnt, cnt == n - 1, left, n, LastOnly, lv, t0, before, steps, bytes, r0);
  }

  /** The receiving loop of `requestFrom` (lines 53 to 56 of TinySoftWire.cpp):
      `n` bytes stored in order from the start of `buf`, only the last one
      acknowledged. */
  method FillBuffer(bus: Bus, buf: array<bv8>, n: Count, ghost t0: seq<Event>, ghost before: seq<Step>)
    requires bus.Valid() && n <= buf.Length && bus.trace == t0 + Expand(before)
    modifies bus, buf
    ensures bus.Valid()
    ensures (if n > 0 then bus.LinesAt(true, false) else bus.Registers() == old(bus.Registers()))
    ensures bus.OthersAsIn(old(bus.Registers()))
    ensures var r := ReceiveAll(n, old(bus.SdaLevels()), LastOnly);
      buf[..] == r.bytes + old(buf[..])[n..]
      && bus.trace == t0 + Expand(before + r.steps) && bus.SdaLevels() == r.rest
  {
    ghost var lv := bus.SdaLevels();
    ghost var g0 := bus.Registers();
    ghost var r0 := buf[..];
    ghost var steps: seq<Step> := before;
    ghost var bytes: seq<bv8> := [];
    ghost var all := ReceiveAll(n, lv, LastOnly);
    var cnt: nat := 0;
    ghost var left: Count := n;
    assert [] + all.bytes == all.bytes;
    assert buf[..] == bytes + r0[0..];
    while cnt < n
      invariant bus.Valid() && cnt + left == n && |bytes| == cnt
      invariant cnt > 0 ==> bus.LinesAt(true, false)
      invariant cnt == 0 ==> bus.Registers() == g0
      invariant bus.OthersAsIn(g0)
      invariant buf.Length == |r0| && buf[..] == bytes + r0[cnt..]
      invariant bus.trace == t0 + Expand(steps)
      invariant var r := ReceiveAll(left, bus.SdaLevels(), LastOnly);
        before + all.steps == steps + r.steps && all.bytes == bytes + r.bytes && all.rest == r.rest
    {
      ghost var step := ReceiveStep(Take(bus.SdaLevels(), 8), left == 1);
      var b := ReceiveInto(bus, buf, cnt, n, left, lv, t0, before, steps, bytes, r0);
      steps := steps + [step];
      bytes := bytes + [b];
      cnt := cnt + 1;
      left := left - 1;
    }
    assert steps + [] == steps && bytes + [] == bytes;
  }

  /** TinySoftWire.h's default pins: SDA on PB4 and SCL on PB3, two different
      lines. */
  method DefaultWire(slave: seq<bv8>) returns (w: TinySoftWire)
    ensures fresh(w) && w.Valid() && w.Remaining() == []
    ensures w.bus.sdaPin == PB4 && w.bus.sclPin == PB3
    ensures w.bus.portb == Cleared && w.bus.ddrb == Cleared
    ensures w.bus.trace == [] && w.bus.input == slave
  {
    w := new TinySoftWire(PB4, PB3, slave);
  }
}
