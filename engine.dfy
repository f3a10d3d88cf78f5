/** The bit-banging engine: `i2c_start`, `i2c_stop`, `i2c_send`, `i2c_receive`,
    `i2c_beginTransmission` and `i2c_communicate` of TinySoftWire-dev.cpp, on a
    port B bus. The private `iic_start`, `iic_stop`, `iic_send` and `iic_receive`
    of TinySoftWire.cpp are the same code over the configurable pins, and the
    class in module SoftWire runs them through these methods. Every method is
    proved to put exactly its wire image (module Wire) on the bus. */
module Engine {
  import opened Bits
  import opened LineDriver
  import opened Wire
  import opened Transaction

  /** TinySoftWire-dev.h wires SCL to PB3 and SDA to PB4; its engine starts from
      port B after reset. */
  method DevBus(slave: seq<bv8>) returns (bus: Bus)
    ensures fresh(bus) && bus.Valid()
    ensures bus.sdaPin == PB4 && bus.sclPin == PB3
    ensures bus.trace == [] && bus.input == slave
  {
    bus := new Bus(PB4, PB3, slave);
  }

  /** `i2c_start`: a START (or repeated START) condition. */
  method Start(bus: Bus)
    requires bus.Valid()
    modifies bus
    ensures bus.Valid()
    ensures bus.LinesAt(false, false) && bus.OthersAsIn(old(bus.Registers()))
    ensures bus.trace == old(bus.trace) + StartImage()
    ensures bus.input == old(bus.input)
  {
    bus.SdaHigh();
    bus.SclHigh();
    bus.WaitIdle();
    bus.SdaLow();
    bus.Delay();
    bus.SclLow();
    bus.Delay();
  }

  /** `i2c_stop`. */
  method Stop(bus: Bus)
    requires bus.Valid()
    modifies bus
    ensures bus.Valid()
    ensures bus.LinesAt(true, true) && bus.OthersAsIn(old(bus.Registers()))
    ensures bus.trace == old(bus.trace) + StopImage()
    ensures bus.input == old(bus.input)
  {
    bus.SclHigh();
    bus.Delay();
    bus.SdaHigh();
    bus.Delay();
    bus.WaitIdle();
  }

  /** One round of the sending loop of `i2c_send`: the bit on SDA, then an SCL
      pulse. */
  method ClockOut(bus: Bus, bit: bool)
    requires bus.Valid()
    modifies bus
    ensures bus.Valid()
    ensures bus.LinesAt(bit, false) && bus.OthersAsIn(old(bus.Registers()))
    ensures bus.trace == old(bus.trace) + BitOut(bit)
    ensures bus.input == old(bus.input)
  {
    if bit {
      bus.SdaHigh();
    } else {
      bus.SdaLow();
    }
    bus.Delay();
    bus.SclHigh();
    bus.Delay();
    bus.SclLow();
  }

  /** The acknowledge clock of `i2c_send`: the slave's level is read once, with
      SCL high and no longer held low by the slave. */
  method ClockAckIn(bus: Bus) returns (ack: bool)
    requires bus.Valid()
    modifies bus
    ensures bus.Valid()
    ensures bus.LinesAt(true, false) && bus.OthersAsIn(old(bus.Registers()))
    ensures ack == !Head(old(bus.SdaLevels()))
    ensures bus.SdaLevels() == Tail(old(bus.SdaLevels()))
    ensures bus.trace == old(bus.trace) + AckIn(!ack)
  {
    bus.SdaHigh();
    bus.Delay();
    bus.SclHigh();
    bus.Delay();
    bus.WaitScl();
    var v := bus.ReadSda();
    ack := v == 0;
    bus.SclLow();
    bus.Delay();
  }

  /** One round of the sending loop of `i2c_send`: the top bit of `byte` goes
      out, and the byte moves one place left. In round `k` the byte is the sent
      byte `b` shifted `k` times, so the bit going out is bit `k` of `b` in wire
      order. */
  method SendRound(bus: Bus, byte: bv8, ghost b: bv8, ghost k: nat, ghost t0: seq<Event>)
    returns (next: bv8)
    requires bus.Valid() && k < 8 && byte == ShiftedBy(b, k)
    requires bus.trace == t0 + BitsOut(BitsMSB(b)[..k])
    modifies bus
    ensures bus.Valid()
    ensures bus.LinesAt(BitsMSB(b)[k], false) && bus.OthersAsIn(old(bus.Registers()))
    ensures next == ShiftedBy(b, k + 1)
    ensures bus.trace == t0 + BitsOut(BitsMSB(b)[..k + 1])
    ensures bus.input == old(bus.input)
  {
    ShiftedTopBit(b, k);
    BitsOutStep(BitsMSB(b), k);
    ClockOut(bus, byte & 128 != 0);
    assert bus.trace == t0 + (BitsOut(BitsMSB(b)[..k]) + BitOut(BitsMSB(b)[k]));
    next := (byte << 1) & 0xFF;
  }

  /** The sending loop of `i2c_send(b)`: the eight bits of `b`, most significant
      first. */
  method ClockOutByte(bus: Bus, b: bv8)
    requires bus.Valid()
    modifies bus
    ensures bus.Valid()
    ensures bus.LinesAt(BitsMSB(b)[7], false) && bus.OthersAsIn(old(bus.Registers()))
    ensures bus.trace == old(bus.trace) + BitsOut(BitsMSB(b))
    ensures bus.input == old(bus.input)
  {
    var byte := b;
    var bit: int := 7;
    ghost var done: nat := 0;
    while bit >= 0
      invariant -1 <= bit <= 7 && done == 7 - bit
      invariant bus.Valid()
      invariant byte == ShiftedBy(b, done)
      invariant bus.trace == old(bus.trace) + BitsOut(BitsMSB(b)[..done])
      invariant bus.input == old(bus.input)
      invariant done > 0 ==> bus.LinesAt(BitsMSB(b)[done - 1], false)
      invariant bus.OthersAsIn(old(bus.Registers()))
    {
      byte := SendRound(bus, byte, b, done, old(bus.trace));
      bit := bit - 1;
      done := done + 1;
    }
    assert BitsMSB(b)[..8] == BitsMSB(b);
  }

  /** `i2c_send(b)`: the eight bits of `b`, most significant first, then the
      acknowledge clock. The result is true exactly when the slave held SDA low
      during that clock; the slave's level is the one read, and only one is read. */
  method Send(bus: Bus, b: bv8) returns (ack: bool)
    requires bus.Valid()
    modifies bus
    ensures bus.Valid()
    ensures bus.LinesAt(true, false) && bus.OthersAsIn(old(bus.Registers()))
    ensures ack == !Head(old(bus.SdaLevels()))
    ensures bus.SdaLevels() == Tail(old(bus.SdaLevels()))
    ensures bus.trace == old(bus.trace) + SendImage(b, !ack)
  {
    ClockOutByte(bus, b);
    ack := ClockAckIn(bus);
  }

  /** `i2c_beginTransmission(address)`: START, then the write address. */
  method BeginTransmission(bus: Bus, address: bv8) returns (ack: bool)
    requires bus.Valid()
    modifies bus
    ensures bus.Valid()
    ensures bus.LinesAt(true, false) && bus.OthersAsIn(old(bus.Registers()))
    ensures ack == !Head(old(bus.SdaLevels()))
    ensures bus.SdaLevels() == Tail(old(bus.SdaLevels()))
    ensures bus.trace == old(bus.trace) + StartImage() + SendImage(WriteAddress(address), !ack)
  {
    Start(bus);
    ack := Send(bus, address << 1);
  }

  /** The SCL pulse of one round of the receiving loop of `i2c_receive`, with
      SDA read while SCL is high. The result is the level read. */
  method ClockIn(bus: Bus) returns (level: bool)
    requires bus.Valid()
    modifies bus
    ensures bus.Valid()
    ensures HeldAt(bus.Registers(), bus.sclPin, false) && SameExcept(bus.Registers(), old(bus.Registers()), {bus.sclPin})
    ensures level == Head(old(bus.SdaLevels()))
    ensures bus.SdaLevels() == Tail(old(bus.SdaLevels()))
    ensures bus.trace == old(bus.trace) + BitIn(level)
  {
    bus.SclHigh();
    bus.Delay();
    var v := bus.ReadSda();
    level := v != 0;
    bus.SclLow();
    bus.Delay();
  }

  /** One round of the receiving loop of `i2c_receive`: an SCL pulse with SDA
      read while SCL is high, the level read shifted into the bottom of `byte`.
      After `k` rounds the byte is assembled from the first `k` levels the slave
      presented. */
  method ReceiveRound(bus: Bus, byte: bv8, ghost lv: seq<bool>, ghost k: nat, ghost t0: seq<Event>)
    returns (next: bv8)
    requires bus.Valid() && byte == FromBitsMSB(Take(lv, k)) && bus.SdaLevels() == Drop(lv, k)
    requires bus.trace == t0 + BitsIn(Take(lv, k))
    modifies bus
    ensures bus.Valid()
    ensures HeldAt(bus.Registers(), bus.sclPin, false) && SameExcept(bus.Registers(), old(bus.Registers()), {bus.sclPin})
    ensures next == FromBitsMSB(Take(lv, k + 1))
    ensures bus.SdaLevels() == Drop(lv, k + 1)
    ensures bus.trace == t0 + BitsIn(Take(lv, k + 1))
  {
    ghost var h := Head(Drop(lv, k));
    TakeSnoc(lv, k);
    FromBitsMSBSnoc(Take(lv, k), h);
    BitsInSnoc(Take(lv, k), h);
    next := (byte << 1) & 0xFF;
    var level := ClockIn(bus);
    assert bus.trace == t0 + (BitsIn(Take(lv, k)) + BitIn(h));
    if level {
      next := next | 1;
    }
  }

  /** The acknowledge clock of `i2c_receive(ack)`, SDA held low for it only when
      `ack`, and SDA released at the end. */
  method ClockAckOut(bus: Bus, ack: bool)
    requires bus.Valid()
    modifies bus
    ensures bus.Valid()
    ensures bus.LinesAt(true, false) && bus.OthersAsIn(old(bus.Registers()))
    ensures bus.trace == old(bus.trace) + AckOut(ack)
    ensures bus.input == old(bus.input)
  {
    if ack {
      bus.SdaLow();
    }
    bus.Delay();
    bus.SclHigh();
    bus.Delay();
    bus.SclLow();
    bus.Delay();
    bus.SdaHigh();
  }

  /** The receiving loop of `i2c_receive`: eight levels read most significant
      first and assembled into the result. */
  method ClockInByte(bus: Bus) returns (b: bv8)
    requires bus.Valid()
    modifies bus
    ensures bus.Valid()
    ensures HeldAt(bus.Registers(), bus.sclPin, false) && SameExcept(bus.Registers(), old(bus.Registers()), {bus.sclPin})
    ensures b == FromBitsMSB(Take(old(bus.SdaLevels()), 8))
    ensures bus.SdaLevels() == Drop(old(bus.SdaLevels()), 8)
    ensures bus.trace == old(bus.trace) + BitsIn(Take(old(bus.SdaLevels()), 8))
  {
    ghost var lv := bus.SdaLevels();
    var byte: bv8 := 0;
    var bit: int := 7;
    ghost var done: nat := 0;
    while bit >= 0
      invariant -1 <= bit <= 7 && done == 7 - bit
      invariant bus.Valid()
      invariant byte == FromBitsMSB(Take(lv, done))
      invariant bus.SdaLevels() == Drop(lv, done)
      invariant bus.trace == old(bus.trace) + BitsIn(Take(lv, done))
      invariant done > 0 ==> HeldAt(bus.Registers(), bus.sclPin, false)
      invariant SameExcept(bus.Registers(), old(bus.Registers()), {bus.sclPin})
    {
      byte := ReceiveRound(bus, byte, lv, done, old(bus.trace));
      bit := bit - 1;
      done := done + 1;
    }
    b := byte;
  }

  /** `i2c_receive(ack)`: SDA released, eight bits read most significant first
      and assembled into the result, then the acknowledge clock with SDA held low
      only when `ack`. */
  method Receive(bus: Bus, ack: bool) returns (b: bv8)
    requires bus.Valid()
    modifies bus
    ensures bus.Valid()
    ensures bus.LinesAt(true, false) && bus.OthersAsIn(old(bus.Registers()))
    ensures b == FromBitsMSB(Take(old(bus.SdaLevels()), 8))
    ensures bus.SdaLevels() == Drop(old(bus.SdaLevels()), 8)
    ensures bus.trace == old(bus.trace) + ReceiveImage(Take(old(bus.SdaLevels()), 8), ack)
  {
    ghost var t0 := bus.trace;
    ghost var lv := bus.SdaLevels();
    bus.SdaHigh();
    assert bus.SdaLevels() == lv;
    b := ClockInByte(bus);
    ghost var bits := BitsIn(Take(lv, 8));
    ClockAckOut(bus, ack);
    Associative(t0, [SdaReleased], bits);
    Associative(t0, [SdaReleased] + bits, AckOut(ack));
  }

  /** One round of the data loop of the write phase: byte `i` of `d` (the first
      `|d|` bytes of `data`) sent after `i` acknowledged ones. Acknowledged, the
      loop stands one byte further; not acknowledged, the loop is over. */
  method SendData(bus: Bus, data: array<bv8>, i: nat, ghost d: seq<bv8>, ghost lv: seq<bool>, ghost t0: seq<Event>)
    returns (ack: bool)
    requires bus.Valid() && i < |d| <= data.Length && d == data[..|d|]
    requires Take(lv, i) == Lows(i) && bus.SdaLevels() == Drop(lv, i)
    requires bus.trace == t0 + Expand(AckedBytes(d[..i]))
    modifies bus
    ensures bus.Valid()
    ensures bus.LinesAt(true, false) && bus.OthersAsIn(old(bus.Registers()))
    ensures ack ==> Take(lv, i + 1) == Lows(i + 1) && bus.SdaLevels() == Drop(lv, i + 1)
                    && bus.trace == t0 + Expand(AckedBytes(d[..i + 1]))
    ensures !ack ==> var s := SendAll(d, lv);
      !s.acked && bus.trace == t0 + Expand(s.steps) && bus.SdaLevels() == s.rest
  {
    var b := data[i];
    assert b == d[i];
    ghost var t := bus.trace;
    ack := Send(bus, b);
    assert StepImage(SendStep(b, !ack)) == SendImage(b, !ack);
    Extend(t0, AckedBytes(d[..i]), t, SendStep(b, !ack));
    TakeSnoc(lv, i);
    if !ack {
      SendAllNak(d, lv, i);
    } else {
      LowsSnoc(lv, i);
      AckedBytesSnoc(d, i);
    }
  }

  /** The data loop of the write phase of `i2c_communicate` (lines 107 to 113 of
      TinySoftWire-dev.cpp): the first `n` bytes of `data` in order, until one is
      not acknowledged. */
  method SendBytes(bus: Bus, data: array<bv8>, n: Count) returns (ack: bool)
    requires bus.Valid() && n <= data.Length
    modifies bus
    ensures bus.Valid()
    ensures (if n > 0 then bus.LinesAt(true, false) else bus.Registers() == old(bus.Registers())) && bus.OthersAsIn(old(bus.Registers()))
    ensures var s := SendAll(data[..n], old(bus.SdaLevels()));
      ack == s.acked && bus.trace == old(bus.trace) + Expand(s.steps) && bus.SdaLevels() == s.rest
  {
    ghost var d := data[..n];
    ghost var lv := bus.SdaLevels();
    ghost var t0 := bus.trace;
    ghost var g0 := bus.Registers();
    var i: nat := 0;
    var left: Count := n;
    assert d[..0] == [];
    while left > 0
      invariant bus.Valid() && i + left == n
      invariant Take(lv, i) == Lows(i) && bus.SdaLevels() == Drop(lv, i)
      invariant bus.trace == t0 + Expand(AckedBytes(d[..i]))
      invariant i > 0 ==> bus.LinesAt(true, false)
      invariant i == 0 ==> bus.Registers() == g0
      invariant bus.OthersAsIn(g0)
    {
      ack := SendData(bus, data, i, d, lv, t0);
      if !ack {
        return;
      }
      i := i + 1;
      left := left - 1;
    }
    SendAllDone(d, lv, i);
    ack := true;
  }

  /** `i2c_receive(ack)` as the next step of a transaction. */
  method ReceiveNext(bus: Bus, ack: bool, ghost t0: seq<Event>, ghost steps: seq<Step>) returns (b: bv8)
    requires bus.Valid() && bus.trace == t0 + Expand(steps)
    modifies bus
    ensures bus.Valid()
    ensures bus.LinesAt(true, false) && bus.OthersAsIn(old(bus.Registers()))
    ensures b == FromBitsMSB(Take(old(bus.SdaLevels()), 8)) && bus.SdaLevels() == Drop(old(bus.SdaLevels()), 8)
    ensures bus.trace == t0 + Expand(steps + [ReceiveStep(Take(old(bus.SdaLevels()), 8), ack)])
  {
    ghost var t := bus.trace;
    ghost var step := ReceiveStep(Take(bus.SdaLevels(), 8), ack);
    b := Receive(bus, ack);
    assert StepImage(step) == ReceiveImage(step.levels, ack);
    Extend(t0, steps, t, step);
  }

  /** Storing the next received byte: `rcv` holds the bytes received so far
      followed by what it held before. */
  method Store(rcv: array<bv8>, i: nat, b: bv8, ghost bytes: seq<bv8>, ghost r0: seq<bv8>)
    requires i < rcv.Length == |r0| && |bytes| == i && rcv[..] == bytes + r0[i..]
    modifies rcv
    ensures rcv[..] == bytes + [b] + r0[i + 1..]
  {
    rcv[i] := b;
    assert rcv[..] == bytes + [b] + r0[i + 1..] by {
      forall k | 0 <= k < rcv.Length
        ensures rcv[k] == (bytes + [b] + r0[i + 1..])[k]
      {
        if k < i {
          assert rcv[k] == old(rcv[k]) == (bytes + r0[i..])[k];
        }
      }
    }
  }

  /** One round of a receiving loop: the next byte, acknowledged when `ack`,
      stored at `rcv[i]` (lines 125 to 133 of TinySoftWire-dev.cpp, line 55 of
      TinySoftWire.cpp). Of the `n` bytes of the loop, `left` are still to come,
      and `rule` says which of them are acknowledged. Before and after, `rcv`
      holds the bytes received so far followed by what it held at first, the
      trace holds the steps so far, and the steps and bytes so far followed by
      those of the rounds to go make up the whole loop. */
  method ReceiveStore(bus: Bus, rcv: array<bv8>, i: nat, ack: bool, ghost left: Count, ghost n: Count,
                      ghost rule: AckRule, ghost lv: seq<bool>, ghost t0: seq<Event>, ghost before: seq<Step>,
                      ghost steps: seq<Step>, ghost bytes: seq<bv8>, ghost r0: seq<bv8>) returns (b: bv8)
    requires left > 0 && ack == AckFor(rule, left)
    requires bus.Valid() && i + left == n && |bytes| == i && n <= rcv.Length
    requires rcv.Length == |r0| && rcv[..] == bytes + r0[i..]
    requires bus.trace == t0 + Expand(steps)
    requires var r := ReceiveAll(left, bus.SdaLevels(), rule);
      before + ReceiveAll(n, lv, rule).steps == steps + r.steps
      && ReceiveAll(n, lv, rule).bytes == bytes + r.bytes
      && ReceiveAll(n, lv, rule).rest == r.rest
    modifies bus, rcv
    ensures bus.Valid() && b == FromBitsMSB(Take(old(bus.SdaLevels()), 8))
    ensures bus.LinesAt(true, false) && bus.OthersAsIn(old(bus.Registers()))
    ensures rcv[..] == bytes + [b] + r0[i + 1..]
    ensures var step := ReceiveStep(Take(old(bus.SdaLevels()), 8), ack);
      bus.trace == t0 + Expand(steps + [step])
      && var r := ReceiveAll(left - 1, bus.SdaLevels(), rule);
      before + ReceiveAll(n, lv, rule).steps == steps + [step] + r.steps
      && ReceiveAll(n, lv, rule).bytes == bytes + [b] + r.bytes
      && ReceiveAll(n, lv, rule).rest == r.rest
  {
    ReceiveAllNext(n, lv, rule, before, steps, bytes, left, bus.SdaLevels());
    b := ReceiveNext(bus, ack, t0, steps);
    Store(rcv, i, b, bytes, r0);
  }

  /** The receiving loop of the read phase of `i2c_communicate` (lines 123 to
      136): `n` bytes stored in order from the start of `rcv`, each but the last
      acknowledged, as the next steps of a transaction. The result is the number
      of bytes stored. */
  method ReceiveBytes(bus: Bus, rcv: array<bv8>, n: Count, ghost t0: seq<Event>, ghost before: seq<Step>)
    returns (count: Count)
    requires bus.Valid() && n <= rcv.Length && bus.trace == t0 + Expand(before)
    modifies bus, rcv
    ensures bus.Valid()
    ensures (if n > 0 then bus.LinesAt(true, false) else bus.Registers() == old(bus.Registers())) && bus.OthersAsIn(old(bus.Registers()))
    ensures var r := ReceiveAll(n, old(bus.SdaLevels()), AllButLast);
      count == n && rcv[..] == r.bytes + old(rcv[..])[n..]
      && bus.trace == t0 + Expand(before + r.steps) && bus.SdaLevels() == r.rest
  {
    ghost var lv := bus.SdaLevels();
    ghost var r0 := rcv[..];
    ghost var steps: seq<Step> := before;
    ghost var bytes: seq<bv8> := [];
    ghost var all := ReceiveAll(n, lv, AllButLast);
    count := 0;
    var i: nat := 0;
    var left: Count := n;
    assert [] + all.bytes == all.bytes;
    assert rcv[..] == bytes + r0[0..];
    while left > 0
      invariant bus.Valid() && i + left == n && count == i && |bytes| == i
      invariant rcv.Length == |r0| && rcv[..] == bytes + r0[i..]
      invariant bus.trace == t0 + Expand(steps)
      invariant (if i > 0 then bus.LinesAt(true, false) else bus.Registers() == old(bus.Registers()))
      invariant bus.OthersAsIn(old(bus.Registers()))
      invariant var r := ReceiveAll(left, bus.SdaLevels(), AllButLast);
        before + all.steps == steps + r.steps && all.bytes == bytes + r.bytes && all.rest == r.rest
    {
      ghost var step := ReceiveStep(Take(bus.SdaLevels(), 8), left != 1);
      var b;
      if left == 1 {
        b := ReceiveStore(bus, rcv, i, false, left, n, AllButLast, lv, t0, before, steps, bytes, r0);
      } else {
        b := ReceiveStore(bus, rcv, i, true, left, n, AllButLast, lv, t0, before, steps, bytes, r0);
      }
      steps := steps + [step];
      bytes := bytes + [b];
      i := i + 1;
      left := left - 1;
      count := count + 1;
    }
    assert steps + [] == steps && bytes + [] == bytes;
  }

  /** `i2c_start` as the next step of a transaction whose steps so far are `steps`. */
  method StartNext(bus: Bus, ghost t0: seq<Event>, ghost steps: seq<Step>)
    requires bus.Valid() && bus.trace == t0 + Expand(steps)
    modifies bus
    ensures bus.Valid() && bus.SdaLevels() == old(bus.SdaLevels())
    ensures bus.LinesAt(false, false) && bus.OthersAsIn(old(bus.Registers()))
    ensures bus.trace == t0 + Expand(steps + [StartStep])
  {
    ghost var t := bus.trace;
    Start(bus);
    Extend(t0, steps, t, StartStep);
  }

  /** `i2c_stop` as the next step of a transaction. */
  method StopNext(bus: Bus, ghost t0: seq<Event>, ghost steps: seq<Step>)
    requires bus.Valid() && bus.trace == t0 + Expand(steps)
    modifies bus
    ensures bus.Valid() && bus.SdaLevels() == old(bus.SdaLevels())
    ensures bus.LinesAt(true, true) && bus.OthersAsIn(old(bus.Registers()))
    ensures bus.trace == t0 + Expand(steps + [StopStep])
  {
    ghost var t := bus.trace;
    Stop(bus);
    Extend(t0, steps, t, StopStep);
  }

  /** `i2c_send(b)` as the next step of a transaction. */
  method SendNext(bus: Bus, b: bv8, ghost t0: seq<Event>, ghost steps: seq<Step>) returns (ack: bool)
    requires bus.Valid() && bus.trace == t0 + Expand(steps)
    modifies bus
    ensures bus.Valid()
    ensures bus.LinesAt(true, false) && bus.OthersAsIn(old(bus.Registers()))
    ensures ack == !Head(old(bus.SdaLevels())) && bus.SdaLevels() == Tail(old(bus.SdaLevels()))
    ensures bus.trace == t0 + Expand(steps + [SendStep(b, !ack)])
  {
    ghost var t := bus.trace;
    ack := Send(bus, b);
    assert StepImage(SendStep(b, !ack)) == SendImage(b, !ack);
    Extend(t0, steps, t, SendStep(b, !ack));
  }

  /** `i2c_start`, then `i2c_send(a)`, as the next steps of a transaction: the
      opening of each phase of `i2c_communicate`. */
  method OpenNext(bus: Bus, a: bv8, ghost t0: seq<Event>, ghost steps: seq<Step>) returns (ack: bool)
    requires bus.Valid() && bus.trace == t0 + Expand(steps)
    modifies bus
    ensures bus.Valid()
    ensures bus.LinesAt(true, false) && bus.OthersAsIn(old(bus.Registers()))
    ensures ack == !Head(old(bus.SdaLevels())) && bus.SdaLevels() == Tail(old(bus.SdaLevels()))
    ensures bus.trace == t0 + Expand(steps + [StartStep, SendStep(a, !ack)])
  {
    StartNext(bus, t0, steps);
    ack := SendNext(bus, a, t0, steps + [StartStep]);
    assert [StartStep] + [SendStep(a, !ack)] == [StartStep, SendStep(a, !ack)];
    Associative(steps, [StartStep], [SendStep(a, !ack)]);
  }

  /** The data loop of the write phase as the next steps of a transaction. */
  method SendBytesNext(bus: Bus, data: array<bv8>, n: Count, ghost t0: seq<Event>, ghost steps: seq<Step>)
    returns (ack: bool)
    requires bus.Valid() && n <= data.Length && bus.trace == t0 + Expand(steps)
    modifies bus
    ensures bus.Valid()
    ensures (if n > 0 then bus.LinesAt(true, false) else bus.Registers() == old(bus.Registers())) && bus.OthersAsIn(old(bus.Registers()))
    ensures var s := SendAll(old(data[..n]), old(bus.SdaLevels()));
      ack == s.acked && bus.trace == t0 + Expand(steps + s.steps) && bus.SdaLevels() == s.rest
  {
    ghost var t := bus.trace;
    ack := SendBytes(bus, data, n);
    ExtendMany(t0, steps, t, SendAll(old(data[..n]), old(bus.SdaLevels())).steps);
  }

  /** The write phase of `i2c_communicate` (lines 100 to 115 of
      TinySoftWire-dev.cpp), together with the STOP of its `error` path: the
      result says whether the read phase follows. */
  method WriteTransfer(bus: Bus, address: bv8, sendData: array<bv8>, sendBytes: Count) returns (ok: bool)
    requires bus.Valid() && sendBytes <= sendData.Length
    modifies bus
    ensures bus.Valid()
    ensures (if sendBytes > 0 then bus.LinesAt(true, true) else bus.Registers() == old(bus.Registers())) && bus.OthersAsIn(old(bus.Registers()))
    ensures var w := WritePhase(address, old(sendData[..sendBytes]), old(bus.SdaLevels()));
      ok == w.acked && bus.trace == old(bus.trace) + Expand(w.steps) && bus.SdaLevels() == w.rest
  {
    var slaveAddress := (address << 1) & 0xFF;
    assert slaveAddress == WriteAddress(address);
    ghost var t0 := bus.trace;
    ghost var d := sendData[..sendBytes];
    ghost var lv := bus.SdaLevels();
    assert t0 == t0 + Expand([]);
    if sendBytes > 0 {
      var ack := OpenNext(bus, slaveAddress, t0, []);
      ghost var opening := [StartStep, SendStep(WriteAddress(address), !ack)];
      assert [] + opening == opening;
      if !ack {
        StopNext(bus, t0, opening);
        assert WritePhase(address, d, lv) == Sent(opening + [StopStep], false, Tail(lv));
        return false;
      }
      ok := SendBytesNext(bus, sendData, sendBytes, t0, opening);
      ghost var sent := SendAll(d, Tail(lv));
      StopNext(bus, t0, opening + sent.steps);
      assert WritePhase(address, d, lv) == Sent(opening + sent.steps + [StopStep], sent.acked, sent.rest);
    } else {
      ok := true;
      assert WritePhase(address, d, lv) == Sent([], true, lv);
    }
  }

  /** The read phase of `i2c_communicate` (lines 117 to 140 of
      TinySoftWire-dev.cpp), together with the STOP and the result 0 of the
      `error` path, after the steps `before` of the write phase. */
  method ReadTransfer(bus: Bus, address: bv8, rcvData: array<bv8>, rcvBytes: Count,
                      ghost t0: seq<Event>, ghost before: seq<Step>) returns (count: Count)
    requires bus.Valid() && rcvBytes <= rcvData.Length && bus.trace == t0 + Expand(before)
    modifies bus, rcvData
    ensures bus.Valid()
    ensures (if rcvBytes > 0 then bus.LinesAt(true, true) else bus.Registers() == old(bus.Registers())) && bus.OthersAsIn(old(bus.Registers()))
    ensures var o := ReadPhase(address, rcvBytes, old(bus.SdaLevels()), before);
      count == o.count && bus.trace == t0 + Expand(o.steps) && bus.SdaLevels() == o.rest
      && rcvData[..] == o.received + old(rcvData[..])[|o.received|..]
  {
    var slaveAddress := (address << 1) & 0xFF;
    var readAddress := slaveAddress + 1;
    assert readAddress == ReadAddress(address);
    ghost var lv := bus.SdaLevels();
    count := 0;
    if rcvBytes > 0 {
      var ack := OpenNext(bus, readAddress, t0, before);
      ghost var opening := [StartStep, SendStep(ReadAddress(address), !ack)];
      if !ack {
        StopNext(bus, t0, before + opening);
        assert ReadPhase(address, rcvBytes, lv, before) == Outcome(before + opening + [StopStep], [], 0, Tail(lv));
        return 0;
      }
      ghost var got := ReceiveAll(rcvBytes, Tail(lv), AllButLast);
      count := ReceiveBytes(bus, rcvData, rcvBytes, t0, before + opening);
      StopNext(bus, t0, before + opening + got.steps);
      assert ReadPhase(address, rcvBytes, lv, before) == Outcome(before + opening + got.steps + [StopStep], got.bytes, rcvBytes, got.rest);
    } else {
      assert rcvData[..] == [] + rcvData[0..];
      assert ReadPhase(address, rcvBytes, lv, before) == Outcome(before, [], 0, lv);
    }
  }

  /** `i2c_communicate(address, sendData, sendBytes, rcvData, rcvBytes)`: the
      write phase, then the read phase, as `Transaction.Communicate` says for the
      levels the slave presents; the bytes received are stored from the start of
      `rcvData` and nothing after them is touched. */
  method Communicate(bus: Bus, address: bv8, sendData: array<bv8>, sendBytes: Count,
                     rcvData: array<bv8>, rcvBytes: Count) returns (count: Count)
    requires bus.Valid() && sendBytes <= sendData.Length && rcvBytes <= rcvData.Length
    modifies bus, rcvData
    ensures bus.Valid()
    ensures (if sendBytes > 0 || rcvBytes > 0 then bus.LinesAt(true, true) else bus.Registers() == old(bus.Registers()))
    ensures bus.OthersAsIn(old(bus.Registers()))
    ensures var o := Transaction.Communicate(address, old(sendData[..sendBytes]), rcvBytes, old(bus.SdaLevels()));
      count == o.count && bus.trace == old(bus.trace) + Expand(o.steps) && bus.SdaLevels() == o.rest
      && rcvData[..] == o.received + old(rcvData[..])[|o.received|..]
  {
    ghost var w := WritePhase(address, sendData[..sendBytes], bus.SdaLevels());
    var ok := WriteTransfer(bus, address, sendData, sendBytes);
    if !ok {
      assert rcvData[..] == [] + rcvData[0..];
      return 0;
    }
    count := ReadTransfer(bus, address, rcvData, rcvBytes, old(bus.trace), w.steps);
  }
}
