/** The line driver of both engines: the `W_SDA_LOW` ... `R_SCL` macros of
    TinySoftWire.h and the `SDA_LOW` ... `SCL` macros of TinySoftWire-dev.h.
    A line is driven low by making its pin an output at level 0, and released by
    making it an input with the pull-up on, so that the open-drain bus floats high.
    Each write macro changes the bit `_BV(pin)` of PORTB and of DDRB and no other,
    so the model keeps those two registers bit by bit; the read macros mask a
    PINB value with `_BV(pin)`, and so does the model. */
module LineDriver {

  /** A bit position of port B (PB0 .. PB7): the same bit in PORTB, DDRB and PINB. */
  type Pin = p: nat | p < 8

  const PB3: Pin := 3
  const PB4: Pin := 4

  /** `_BV(p)`: the register bit of pin `p`. */
  function Mask(p: Pin): bv8
  {
    if p == 0 then 0x01 else if p == 1 then 0x02 else if p == 2 then 0x04
    else if p == 3 then 0x08 else if p == 4 then 0x10 else if p == 5 then 0x20
    else if p == 6 then 0x40 else 0x80
  }

  /** The table above is `1 << p`. */
  lemma MaskIsShift(p: Pin)
    ensures Mask(p) == 1 << p
  {
  }

  /** `m` has exactly one bit set, as every `_BV(p)` has. */
  predicate SingleBit(m: bv8)
  {
    m != 0 && m & (m - 1) == 0
  }

  lemma MaskSingleBit(p: Pin)
    ensures SingleBit(Mask(p))
  {
  }

  /** Distinct pins have disjoint register bits. */
  lemma MasksDisjoint(p: Pin, q: Pin)
    requires p != q
    ensures Mask(p) & Mask(q) == 0
  {
  }

  /** The value of the read macros `R_SDA`, `R_SCL`, `SDA`, `SCL` for the line
      bit `m`: `PINB & m`. Nothing but the line's own bit can be set in it, so it
      is nonzero exactly when the line reads high. */
  function ReadLine(pinb: bv8, m: bv8): (v: bv8)
    requires SingleBit(m)
    ensures v == 0 || v == m
  {
    pinb & m
  }

  /** PORTB or DDRB, bit by bit: element `p` is the bit `_BV(p)` of pin PBp. */
  type Register = r: seq<bool> | |r| == 8 witness [false, false, false, false, false, false, false, false]

  /** A register after reset: every bit 0. */
  const Cleared: Register := [false, false, false, false, false, false, false, false]

  /** The two registers a write macro changes. */
  datatype Regs = Regs(portb: Register, ddrb: Register)

  /** The line on pin `p` is driven: its pin is an output at level 0. */
  predicate DrivenLow(r: Regs, p: Pin)
  {
    !r.portb[p] && r.ddrb[p]
  }

  /** The line on pin `p` is released: its pin is an input with the pull-up on. */
  predicate Released(r: Regs, p: Pin)
  {
    r.portb[p] && !r.ddrb[p]
  }

  /** The line on pin `p` is not an output at level 1, which would fight any
      other device that pulls the shared open-drain line low. */
  predicate NotDrivenHigh(r: Regs, p: Pin)
  {
    !(r.portb[p] && r.ddrb[p])
  }

  /** The line on pin `p` is held at `level`: released for 1, driven low for 0. */
  predicate HeldAt(r: Regs, p: Pin, level: bool)
  {
    if level then Released(r, p) else DrivenLow(r, p)
  }

  /** `r` and `s` agree on both registers' bits of every pin outside `pins`. */
  predicate SameExcept(r: Regs, s: Regs, pins: set<Pin>)
  {
    forall i: Pin :: i !in pins ==> r.portb[i] == s.portb[i] && r.ddrb[i] == s.ddrb[i]
  }

  /** The register states after each of the two writes of a LOW macro, in source
      order: `PORTB &= ~_BV(p)`, then `DDRB |= _BV(p)`. */
  function LowWrites(r: Regs, p: Pin): seq<Regs>
  {
    var afterPort := r.(portb := r.portb[p := false]);
    [afterPort, afterPort.(ddrb := afterPort.ddrb[p := true])]
  }

  /** The register states after each of the two writes of a HIGH macro, in source
      order: `PORTB |= _BV(p)`, then `DDRB &= ~_BV(p)`. */
  function HighWrites(r: Regs, p: Pin): seq<Regs>
  {
    var afterPort := r.(portb := r.portb[p := true]);
    [afterPort, afterPort.(ddrb := afterPort.ddrb[p := false])]
  }

  /** A LOW macro ends with the line driven low, touches no other pin's bits,
      and never passes through an output-high state on the way. */
  lemma LowWritesEffect(r: Regs, p: Pin)
    ensures DrivenLow(LowWrites(r, p)[1], p)
    ensures SameExcept(LowWrites(r, p)[1], r, {p})
    ensures NotDrivenHigh(r, p) ==> NotDrivenHigh(LowWrites(r, p)[0], p)
  {
  }

  /** A HIGH macro ends with the line released and touches no other pin's bits;
      but when the line was driven low, the first write (`PORTB |= _BV(p)` while
      DDRB still says output) makes its pin an output at level 1 until the second
      write. */
  lemma HighWritesEffect(r: Regs, p: Pin)
    ensures Released(HighWrites(r, p)[1], p)
    ensures SameExcept(HighWrites(r, p)[1], r, {p})
    ensures DrivenLow(r, p) ==> !NotDrivenHigh(HighWrites(r, p)[0], p)
  {
  }

  /** Driven low on `p` with every other pin's bits as in `r` is exactly the
      state a LOW macro leaves: the `Bus` contracts fix the registers. */
  lemma LowWritesOnly(r: Regs, s: Regs, p: Pin)
    requires DrivenLow(s, p) && SameExcept(s, r, {p})
    ensures s == LowWrites(r, p)[1]
  {
  }

  /** Released on `p` with every other pin's bits as in `r` is exactly the state
      a HIGH macro leaves. */
  lemma HighWritesOnly(r: Regs, s: Regs, p: Pin)
    requires Released(s, p) && SameExcept(s, r, {p})
    ensures s == HighWrites(r, p)[1]
  {
  }

  /** SDA on PB4 driven low, then `W_SDA_HIGH`: between its two writes the pin
      is an output at level 1 (its PORTB and DDRB bits both set). */
  lemma HighWritesGlitch()
    ensures var r := Regs(Cleared, Cleared[PB4 := true]);
      DrivenLow(r, PB4) && HighWrites(r, PB4)[0] == Regs(Cleared[PB4 := true], Cleared[PB4 := true])
      && !NotDrivenHigh(HighWrites(r, PB4)[0], PB4)
  {
  }

  /** A release in the other order: `DDRB &= ~_BV(p)` first (input, pull-up
      still off), then `PORTB |= _BV(p)` (pull-up on). */
  function ReleaseWrites(r: Regs, p: Pin): seq<Regs>
  {
    var afterDdr := r.(ddrb := r.ddrb[p := false]);
    [afterDdr, afterDdr.(portb := afterDdr.portb[p := true])]
  }

  /** Released in that order, the line is never an output at level 1, whatever
      state it starts from, and it ends in exactly the state the HIGH macros
      leave. */
  lemma ReleaseWritesEffect(r: Regs, p: Pin)
    ensures NotDrivenHigh(ReleaseWrites(r, p)[0], p) && NotDrivenHigh(ReleaseWrites(r, p)[1], p)
    ensures Released(ReleaseWrites(r, p)[1], p)
    ensures ReleaseWrites(r, p)[1] == HighWrites(r, p)[1]
  {
  }

  /** What the engines do to the bus, in order: line writes, bit-period delays
      (`I2C_DELAY`), the busy-wait loops, and reads of SDA with the level found. */
  datatype Event =
    | SdaLowered             // W_SDA_LOW / SDA_LOW
    | SdaReleased            // W_SDA_HIGH / SDA_HIGH
    | SclLowered             // W_SCL_LOW / SCL_LOW
    | SclReleased            // W_SCL_HIGH / SCL_HIGH
    | Delayed                // I2C_DELAY
    | WaitedIdle             // while (!SDA || !SCL) {}
    | WaitedScl              // while (!SCL) {}
    | SampledSda(level: bool) // a read of R_SDA / SDA

  /** The SDA level the master reads next from the levels a slave presents; once
      the slave has nothing more to say, the pull-up makes SDA read high. */
  function Head(lv: seq<bool>): bool
  {
    if lv == [] then true else lv[0]
  }

  /** The levels left after one read. */
  function Tail(lv: seq<bool>): seq<bool>
  {
    if lv == [] then [] else lv[1..]
  }

  /** The first level of `[x] + lv` is `x`, and `lv` follows it. */
  lemma HeadTailCons(x: bool, lv: seq<bool>)
    ensures Head([x] + lv) == x && Tail([x] + lv) == lv
  {
    assert ([x] + lv)[1..] == lv;
  }

  /** The next `n` levels the master reads. */
  function Take(lv: seq<bool>, n: nat): (r: seq<bool>)
    ensures |r| == n
  {
    if n == 0 then [] else [Head(lv)] + Take(Tail(lv), n - 1)
  }

  /** The levels left after `n` reads. */
  function Drop(lv: seq<bool>, n: nat): seq<bool>
  {
    if n == 0 then lv else Drop(Tail(lv), n - 1)
  }

  /** A slave that presents `a` first: the master's next `|a|` reads find `a`,
      and what follows is left. */
  lemma {:induction false} TakeAppend(a: seq<bool>, rest: seq<bool>)
    ensures Take(a + rest, |a|) == a
    ensures Drop(a + rest, |a|) == rest
  {
    if a == [] {
      assert a + rest == rest;
    } else {
      assert (a + rest)[0] == a[0];
      assert Tail(a + rest) == a[1..] + rest;
      TakeAppend(a[1..], rest);
      assert [a[0]] + a[1..] == a;
    }
  }

  /** Reading one more level after `k` reads. */
  lemma {:induction false} TakeSnoc(lv: seq<bool>, k: nat)
    ensures Take(lv, k + 1) == Take(lv, k) + [Head(Drop(lv, k))]
    ensures Drop(lv, k + 1) == Tail(Drop(lv, k))
  {
    if k > 0 {
      TakeSnoc(Tail(lv), k - 1);
      assert Take(lv, k + 1) == [Head(lv)] + Take(Tail(lv), k);
      assert [Head(lv)] + (Take(Tail(lv), k - 1) + [Head(Drop(Tail(lv), k - 1))])
          == ([Head(lv)] + Take(Tail(lv), k - 1)) + [Head(Drop(Tail(lv), k - 1))];
    }
  }

  /** The SDA levels found in a sequence of PINB snapshots, for the line bit `m`. */
  function Levels(pins: seq<bv8>, m: bv8): (lv: seq<bool>)
    ensures |lv| == |pins|
    ensures forall i :: 0 <= i < |pins| ==> lv[i] == (pins[i] & m != 0)
  {
    if pins == [] then [] else [pins[0] & m != 0] + Levels(pins[1..], m)
  }


  /** Port B with an I2C bus on two of its pins, `sdaPin` and `sclPin`
      (`SOFT_SDA_PIN`, `SOFT_SCL_PIN`). `trace` records what the engine has done
      to the bus so far; `input` holds the PINB values the master will find at
      its successive reads of SDA, as the slave and the pull-ups set them. */
  class Bus {
    const sdaPin: Pin
    const sclPin: Pin
    var portb: Register
    var ddrb: Register
    var trace: seq<Event>
    var input: seq<bv8>

    /** The two lines sit on distinct pins, and between macros neither is an
        output at level 1 (inside a HIGH macro it can be: see `HighWritesEffect`). */
    ghost predicate Valid()
      reads this
    {
      sdaPin != sclPin && NotDrivenHigh(Registers(), sdaPin) && NotDrivenHigh(Registers(), sclPin)
    }

    /** The SDA levels the master will read. */
    ghost function SdaLevels(): seq<bool>
      reads this
    {
      Levels(input, Mask(sdaPin))
    }

    ghost function Registers(): Regs
      reads this
    {
      Regs(portb, ddrb)
    }

    /** SDA is held at `sdaLevel` and SCL at `sclLevel`: each released for 1,
        driven low for 0. */
    ghost predicate LinesAt(sdaLevel: bool, sclLevel: bool)
      reads this
    {
      HeldAt(Registers(), sdaPin, sdaLevel) && HeldAt(Registers(), sclPin, sclLevel)
    }

    /** Every pin of port B other than SDA and SCL has the bits it has in `r`. */
    ghost predicate OthersAsIn(r: Regs)
      reads this
    {
      SameExcept(Registers(), r, {sdaPin, sclPin})
    }

    /** Port B after reset (PORTB = DDRB = 0: every pin an input, pull-ups off),
        with SDA and SCL on the pins given. */
    constructor (sdaPin: Pin, sclPin: Pin, slave: seq<bv8>)
      requires sdaPin != sclPin
      ensures Valid()
      ensures this.sdaPin == sdaPin && this.sclPin == sclPin
      ensures portb == Cleared && ddrb == Cleared && trace == [] && input == slave
    {
      this.sdaPin, this.sclPin := sdaPin, sclPin;
      portb, ddrb := Cleared, Cleared;
      trace, input := [], slave;
    }

    /** `W_SDA_LOW` / `SDA_LOW`. */
    method SdaLow()
      requires Valid()
      modifies this
      ensures Valid()
      ensures DrivenLow(Registers(), sdaPin) && SameExcept(Registers(), old(Registers()), {sdaPin})
      ensures trace == old(trace) + [SdaLowered] && input == old(input)
    {
      portb := portb[sdaPin := false];
      ddrb := ddrb[sdaPin := true];
      trace := trace + [SdaLowered];
    }

    /** `W_SDA_HIGH` / `SDA_HIGH`. */
    method SdaHigh()
      requires Valid()
      modifies this
      ensures Valid()
      ensures Released(Registers(), sdaPin) && SameExcept(Registers(), old(Registers()), {sdaPin})
      ensures trace == old(trace) + [SdaReleased] && input == old(input)
    {
      portb := portb[sdaPin := true];
      ddrb := ddrb[sdaPin := false];
      trace := trace + [SdaReleased];
    }

    /** `W_SCL_LOW` / `SCL_LOW`. */
    method SclLow()
      requires Valid()
      modifies this
      ensures Valid()
      ensures DrivenLow(Registers(), sclPin) && SameExcept(Registers(), old(Registers()), {sclPin})
      ensures trace == old(trace) + [SclLowered] && input == old(input)
    {
      portb := portb[sclPin := false];
      ddrb := ddrb[sclPin := true];
      trace := trace + [SclLowered];
    }

    /** `W_SCL_HIGH` / `SCL_HIGH`. */
    method SclHigh()
      requires Valid()
      modifies this
      ensures Valid()
      ensures Released(Registers(), sclPin) && SameExcept(Registers(), old(Registers()), {sclPin})
      ensures trace == old(trace) + [SclReleased] && input == old(input)
    {
      portb := portb[sclPin := true];
      ddrb := ddrb[sclPin := false];
      trace := trace + [SclReleased];
    }

    /** `R_SDA` / `SDA`: the value `PINB & _BV(sdaPin)` for the next PINB value;
        once the slave's values run out, PINB reads all ones (everything pulled up). */
    method ReadSda() returns (v: bv8)
      requires Valid()
      modifies this
      ensures Valid()
      ensures v == ReadLine(if old(input) == [] then 0xFF else old(input)[0], Mask(sdaPin))
      ensures (v != 0) == Head(old(SdaLevels()))
      ensures SdaLevels() == Tail(old(SdaLevels()))
      ensures input == if old(input) == [] then [] else old(input)[1..]
      ensures trace == old(trace) + [SampledSda(v != 0)]
      ensures portb == old(portb) && ddrb == old(ddrb)
    {
      var pinb: bv8 := 0xFF;
      if input != [] {
        pinb := input[0];
        input := input[1..];
      }
      MaskSingleBit(sdaPin);
      v := ReadLine(pinb, Mask(sdaPin));
      trace := trace + [SampledSda(v != 0)];
    }

    /** `I2C_DELAY`: one bit period (`_delay_us(4)`). */
    method Delay()
      requires Valid()
      modifies this
      ensures Valid()
      ensures trace == old(trace) + [Delayed]
      ensures portb == old(portb) && ddrb == old(ddrb) && input == old(input)
    {
      trace := trace + [Delayed];
    }

    /** `while (!SDA || !SCL) {}`: wait until both lines read high. */
    method WaitIdle()
      requires Valid()
      modifies this
      ensures Valid()
      ensures trace == old(trace) + [WaitedIdle]
      ensures portb == old(portb) && ddrb == old(ddrb) && input == old(input)
    {
      trace := trace + [WaitedIdle];
    }

    /** `while (!SCL) {}`: wait until a slave stops stretching the clock. */
    method WaitScl()
      requires Valid()
      modifies this
      ensures Valid()
      ensures trace == old(trace) + [WaitedScl]
      ensures portb == old(portb) && ddrb == old(ddrb) && input == old(input)
    {
      trace := trace + [WaitedScl];
    }
  }
}
