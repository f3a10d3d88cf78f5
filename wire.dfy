/** What each primitive of the engines puts on the bus (its wire image, as a
    sequence of line events), and a bus observer that reads START and STOP
    conditions and clock pulses off such a sequence (sections 3.1.4 to 3.1.6 of
    UM10204). The observer is the independent yardstick for the images. */
module Wire {
  import opened Bits
  import opened LineDriver

  /** `i2c_start` / `iic_start`: release both lines, wait for the bus to be idle,
      pull SDA low while SCL is high, then pull SCL low. */
  function StartImage(): seq<Event>
  {
    [SdaReleased, SclReleased, WaitedIdle, SdaLowered, Delayed, SclLowered, Delayed]
  }

  /** `i2c_stop` / `iic_stop`: release SCL, then release SDA, then wait for the
      bus to be idle. */
  function StopImage(): seq<Event>
  {
    [SclReleased, Delayed, SdaReleased, Delayed, WaitedIdle]
  }

  /** One round of the sending loop: put the bit on SDA while SCL is low, then
      pulse SCL. */
  function BitOut(bit: bool): seq<Event>
  {
    [if bit then SdaReleased else SdaLowered, Delayed, SclReleased, Delayed, SclLowered]
  }

  /** The sending loop for the given bits, in order. */
  function BitsOut(bits: seq<bool>): seq<Event>
  {
    if bits == [] then [] else BitsOut(bits[..|bits| - 1]) + BitOut(bits[|bits| - 1])
  }

  /** The sending loop one round further. */
  lemma BitsOutStep(bits: seq<bool>, k: nat)
    requires k < |bits|
    ensures BitsOut(bits[..k + 1]) == BitsOut(bits[..k]) + BitOut(bits[k])
  {
    assert bits[..k + 1][..k] == bits[..k];
  }

  /** The acknowledge clock of `i2c_send`: release SDA, raise SCL, wait out any
      clock stretching, read SDA (found at `level`), lower SCL. */
  function AckIn(level: bool): seq<Event>
  {
    [SdaReleased, Delayed, SclReleased, Delayed, WaitedScl, SampledSda(level), SclLowered, Delayed]
  }

  /** `i2c_send(b)` / `iic_send(b)` when the slave leaves SDA at `level` during
      the acknowledge clock. */
  function SendImage(b: bv8, level: bool): seq<Event>
  {
    BitsOut(BitsMSB(b)) + AckIn(level)
  }

  /** One round of the receiving loop: raise SCL, read SDA (found at `level`),
      lower SCL. */
  function BitIn(level: bool): seq<Event>
  {
    [SclReleased, Delayed, SampledSda(level), SclLowered, Delayed]
  }

  /** The receiving loop for the given levels, in order. */
  function BitsIn(levels: seq<bool>): seq<Event>
  {
    if levels == [] then [] else BitsIn(levels[..|levels| - 1]) + BitIn(levels[|levels| - 1])
  }

  /** The receiving loop one round further. */
  lemma BitsInSnoc(levels: seq<bool>, level: bool)
    ensures BitsIn(levels + [level]) == BitsIn(levels) + BitIn(level)
  {
    assert (levels + [level])[..|levels|] == levels;
  }

  /** The acknowledge clock of `i2c_receive(ack)`: SDA pulled low for it only when
      `ack`, and released at the end. */
  function AckOut(ack: bool): seq<Event>
  {
    (if ack then [SdaLowered] else []) + [Delayed, SclReleased, Delayed, SclLowered, Delayed, SdaReleased]
  }

  /** `i2c_receive(ack)` / `iic_receive(ack)` when the slave presents `levels`. */
  function ReceiveImage(levels: seq<bool>, ack: bool): seq<Event>
  {
    [SdaReleased] + BitsIn(levels) + AckOut(ack)
  }

  /** A STOP condition in the form of section 3.1.4 of UM10204 (SDA goes from low
      to high while SCL is high), for comparison with `StopImage`. */
  function StopConditionImage(): seq<Event>
  {
    [SdaLowered, Delayed, SclReleased, Delayed, SdaReleased, Delayed, WaitedIdle]
  }

  // ---------------------------------------------------------------------------
  // The observer

  /** The master's lines as a device on the bus sees them: whether SDA and SCL are
      released (high), and whether SDA has changed while SCL has been high. */
  datatype Lines = Lines(sda: bool, scl: bool, edge: bool)

  /** The bus is idle: both lines high. */
  const Idle := Lines(true, true, false)

  /** What a device on the bus can tell from the master's lines: a START (SDA
      falls while SCL is high), a STOP (SDA rises while SCL is high), a clock
      pulse carrying the SDA level the master held for it (SCL falls after a high
      period with SDA steady), and the master reading SDA. */
  datatype Symbol = StartCondition | StopCondition | Clock(bit: bool) | Read(level: bool)

  function Next(st: Lines, e: Event): Lines
  {
    match e
    case SdaLowered => if st.scl && st.sda then Lines(false, true, true) else st.(sda := false)
    case SdaReleased => if st.scl && !st.sda then Lines(true, true, true) else st.(sda := true)
    case SclLowered => Lines(st.sda, false, false)
    case SclReleased => if st.scl then st else Lines(st.sda, true, false)
    case _ => st
  }

  function Emit(st: Lines, e: Event): seq<Symbol>
  {
    match e
    case SdaLowered => if st.scl && st.sda then [StartCondition] else []
    case SdaReleased => if st.scl && !st.sda then [StopCondition] else []
    case SclLowered => if st.scl && !st.edge then [Clock(st.sda)] else []
    case SampledSda(level) => [Read(level)]
    case _ => []
  }

  /** What an observer reads off the events `t`, starting from line state `st`. */
  function Observe(t: seq<Event>, st: Lines): seq<Symbol>
  {
    if t == [] then [] else Emit(st, t[0]) + Observe(t[1..], Next(st, t[0]))
  }

  /** The line state after the events `t`. */
  function After(t: seq<Event>, st: Lines): Lines
  {
    if t == [] then st else After(t[1..], Next(st, t[0]))
  }

  /** The observer reads a concatenation of events piece by piece. */
  lemma {:induction false} ObserveAppend(t1: seq<Event>, t2: seq<Event>, st: Lines)
    ensures Observe(t1 + t2, st) == Observe(t1, st) + Observe(t2, After(t1, st))
    ensures After(t1 + t2, st) == After(t2, After(t1, st))
  {
    if t1 != [] {
      assert (t1 + t2)[0] == t1[0];
      assert (t1 + t2)[1..] == t1[1..] + t2;
      ObserveAppend(t1[1..], t2, Next(st, t1[0]));
    } else {
      assert t1 + t2 == t2;
    }
  }

  /** One step of the observer inside a longer sequence of events. */
  lemma ObserveFrom(t: seq<Event>, k: nat, st: Lines)
    requires k < |t|
    ensures Observe(t[k..], st) == Emit(st, t[k]) + Observe(t[k + 1..], Next(st, t[k]))
    ensures After(t[k..], st) == After(t[k + 1..], Next(st, t[k]))
  {
    assert t[k..][0] == t[k];
    assert t[k..][1..] == t[k + 1..];
  }

  /** Runs the observer over the whole of a short, fixed sequence of events. */
  lemma ObserveWhole(t: seq<Event>, st: Lines)
    requires |t| <= 8
    ensures Observe(t, st) == Observe(t[0..], st) && After(t, st) == After(t[0..], st)
    ensures Observe(t[|t|..], st) == [] && After(t[|t|..], st) == st
  {
    assert t[0..] == t;
    assert t[|t|..] == [];
  }

  /** Clock pulses carrying `bits`, in order. */
  function Clocks(bits: seq<bool>): (r: seq<Symbol>)
    ensures |r| == |bits|
    ensures forall k :: 0 <= k < |bits| ==> r[k] == Clock(bits[k])
  {
    seq(|bits|, k requires 0 <= k < |bits| => Clock(bits[k]))
  }

  /** For each level, the master reads it during a clock pulse with SDA released. */
  function ReadClocks(levels: seq<bool>): (r: seq<Symbol>)
    ensures |r| == 2 * |levels|
    ensures forall k :: 0 <= k < |levels| ==> r[2 * k] == Read(levels[k]) && r[2 * k + 1] == Clock(true)
  {
    if levels == [] then []
    else ReadClocks(levels[..|levels| - 1]) + [Read(levels[|levels| - 1]), Clock(true)]
  }

  lemma ObserveBitOut(bit: bool, st: Lines)
    requires !st.scl
    ensures Observe(BitOut(bit), st) == [Clock(bit)]
    ensures After(BitOut(bit), st) == Lines(bit, false, false)
  {
    var t := BitOut(bit);
    ObserveWhole(t, st);
    var s1 := Next(st, t[0]);
    ObserveFrom(t, 0, st);
    var s2 := Next(s1, t[1]);
    ObserveFrom(t, 1, s1);
    var s3 := Next(s2, t[2]);
    ObserveFrom(t, 2, s2);
    var s4 := Next(s3, t[3]);
    ObserveFrom(t, 3, s3);
    var s5 := Next(s4, t[4]);
    ObserveFrom(t, 4, s4);
    ObserveWhole(t, s5);
  }

  /** The sending loop puts each bit on SDA for exactly one clock pulse, in order. */
  lemma {:induction false} ObserveBitsOut(bits: seq<bool>, st: Lines)
    requires !st.scl && !st.edge
    ensures Observe(BitsOut(bits), st) == Clocks(bits)
    ensures After(BitsOut(bits), st) == if bits == [] then st else Lines(bits[|bits| - 1], false, false)
  {
    if bits != [] {
      var front := bits[..|bits| - 1];
      ObserveBitsOut(front, st);
      ObserveAppend(BitsOut(front), BitOut(bits[|bits| - 1]), st);
      ObserveBitOut(bits[|bits| - 1], After(BitsOut(front), st));
      assert Clocks(front) + [Clock(bits[|bits| - 1])] == Clocks(bits);
    }
  }

  /** `i2c_send(b)`, seen from the bus: the eight bits of `b` most significant
      first, one per clock pulse, then a ninth pulse with SDA released during
      which the master reads the slave's answer. No START or STOP occurs, and the
      byte ends with SDA released and SCL low. */
  lemma ObserveSend(b: bv8, level: bool, st: Lines)
    requires !st.scl && !st.edge
    ensures Observe(SendImage(b, level), st) == Clocks(BitsMSB(b)) + [Read(level), Clock(true)]
    ensures After(SendImage(b, level), st) == Lines(true, false, false)
  {
    ObserveBitsOut(BitsMSB(b), st);
    ObserveAppend(BitsOut(BitsMSB(b)), AckIn(level), st);
    ObserveAckIn(level, After(BitsOut(BitsMSB(b)), st));
  }

  lemma ObserveAckIn(level: bool, st: Lines)
    requires !st.scl
    ensures Observe(AckIn(level), st) == [Read(level), Clock(true)]
    ensures After(AckIn(level), st) == Lines(true, false, false)
  {
    var t1: seq<Event> := [SdaReleased, Delayed, SclReleased, Delayed];
    var t2: seq<Event> := [WaitedScl, SampledSda(level), SclLowered, Delayed];
    assert AckIn(level) == t1 + t2;
    ObserveAppend(t1, t2, st);
    ObserveReleaseBoth(st);
    ObserveSampleLower(level, After(t1, st));
  }

  lemma ObserveReleaseBoth(st: Lines)
    requires !st.scl
    ensures Observe([SdaReleased, Delayed, SclReleased, Delayed], st) == []
    ensures After([SdaReleased, Delayed, SclReleased, Delayed], st) == Lines(true, true, false)
  {
    var t: seq<Event> := [SdaReleased, Delayed, SclReleased, Delayed];
    ObserveWhole(t, st);
    var s1 := Next(st, t[0]);
    ObserveFrom(t, 0, st);
    var s2 := Next(s1, t[1]);
    ObserveFrom(t, 1, s1);
    var s3 := Next(s2, t[2]);
    ObserveFrom(t, 2, s2);
    var s4 := Next(s3, t[3]);
    ObserveFrom(t, 3, s3);
    ObserveWhole(t, s4);
  }

  lemma ObserveSampleLower(level: bool, st: Lines)
    requires st == Lines(true, true, false)
    ensures Observe([WaitedScl, SampledSda(level), SclLowered, Delayed], st) == [Read(level), Clock(true)]
    ensures After([WaitedScl, SampledSda(level), SclLowered, Delayed], st) == Lines(true, false, false)
  {
    var t: seq<Event> := [WaitedScl, SampledSda(level), SclLowered, Delayed];
    ObserveWhole(t, st);
    var s1 := Next(st, t[0]);
    ObserveFrom(t, 0, st);
    var s2 := Next(s1, t[1]);
    ObserveFrom(t, 1, s1);
    var s3 := Next(s2, t[2]);
    ObserveFrom(t, 2, s2);
    var s4 := Next(s3, t[3]);
    ObserveFrom(t, 3, s3);
    ObserveWhole(t, s4);
  }

  lemma ObserveBitIn(level: bool, st: Lines)
    requires !st.scl && st.sda
    ensures Observe(BitIn(level), st) == [Read(level), Clock(true)]
    ensures After(BitIn(level), st) == Lines(true, false, false)
  {
    var t1: seq<Event> := [SclReleased, Delayed];
    var t2: seq<Event> := [SampledSda(level), SclLowered, Delayed];
    assert BitIn(level) == t1 + t2;
    ObserveAppend(t1, t2, st);
    ObserveRaise(st);
    ObserveSampleEnd(level, After(t1, st));
  }

  lemma ObserveRaise(st: Lines)
    requires !st.scl
    ensures Observe([SclReleased, Delayed], st) == []
    ensures After([SclReleased, Delayed], st) == Lines(st.sda, true, false)
  {
    var t: seq<Event> := [SclReleased, Delayed];
    ObserveWhole(t, st);
    var s1 := Next(st, t[0]);
    ObserveFrom(t, 0, st);
    var s2 := Next(s1, t[1]);
    ObserveFrom(t, 1, s1);
    ObserveWhole(t, s2);
  }

  lemma ObserveSampleEnd(level: bool, st: Lines)
    requires st == Lines(true, true, false)
    ensures Observe([SampledSda(level), SclLowered, Delayed], st) == [Read(level), Clock(true)]
    ensures After([SampledSda(level), SclLowered, Delayed], st) == Lines(true, false, false)
  {
    var t: seq<Event> := [SampledSda(level), SclLowered, Delayed];
    ObserveWhole(t, st);
    var s1 := Next(st, t[0]);
    ObserveFrom(t, 0, st);
    var s2 := Next(s1, t[1]);
    ObserveFrom(t, 1, s1);
    var s3 := Next(s2, t[2]);
    ObserveFrom(t, 2, s2);
    ObserveWhole(t, s3);
  }

  /** The receiving loop: for each bit one clock pulse with SDA released, during
      which the master reads the slave's level. */
  lemma {:induction false} ObserveBitsIn(levels: seq<bool>, st: Lines)
    requires !st.scl && st.sda && !st.edge
    ensures Observe(BitsIn(levels), st) == ReadClocks(levels)
    ensures After(BitsIn(levels), st) == st
  {
    if levels != [] {
      var front := levels[..|levels| - 1];
      ObserveBitsIn(front, st);
      ObserveAppend(BitsIn(front), BitIn(levels[|levels| - 1]), st);
      ObserveBitIn(levels[|levels| - 1], st);
    }
  }

  lemma ObserveAckOut(ack: bool, st: Lines)
    requires !st.scl && st.sda && !st.edge
    ensures Observe(AckOut(ack), st) == [Clock(!ack)]
    ensures After(AckOut(ack), st) == Lines(true, false, false)
  {
    var t1: seq<Event> := if ack then [SdaLowered] else [];
    var t2: seq<Event> := [Delayed, SclReleased, Delayed, SclLowered, Delayed];
    var t3: seq<Event> := [SdaReleased];
    assert AckOut(ack) == t1 + t2 + t3;
    ObserveAppend(t1 + t2, t3, st);
    ObserveAppend(t1, t2, st);
    var s1 := After(t1, st);
    if ack {
      ObserveOne(SdaLowered, st);
    } else {
      assert t1 == [];
    }
    assert s1 == Lines(!ack, false, false);
    ObservePulse(s1);
    ObserveOne(SdaReleased, After(t2, s1));
  }

  /** The observer on a single event. */
  lemma ObserveOne(e: Event, st: Lines)
    ensures Observe([e], st) == Emit(st, e)
    ensures After([e], st) == Next(st, e)
  {
    assert [e][1..] == [];
  }

  /** A clock pulse with SDA left where it is. */
  lemma ObservePulse(st: Lines)
    requires !st.scl && !st.edge
    ensures Observe([Delayed, SclReleased, Delayed, SclLowered, Delayed], st) == [Clock(st.sda)]
    ensures After([Delayed, SclReleased, Delayed, SclLowered, Delayed], st) == Lines(st.sda, false, false)
  {
    var t: seq<Event> := [Delayed, SclReleased, Delayed, SclLowered, Delayed];
    ObserveWhole(t, st);
    var s1 := Next(st, t[0]);
    ObserveFrom(t, 0, st);
    var s2 := Next(s1, t[1]);
    ObserveFrom(t, 1, s1);
    var s3 := Next(s2, t[2]);
    ObserveFrom(t, 2, s2);
    var s4 := Next(s3, t[3]);
    ObserveFrom(t, 3, s3);
    var s5 := Next(s4, t[4]);
    ObserveFrom(t, 4, s4);
    ObserveWhole(t, s5);
  }

  /** `i2c_receive(ack)`, seen from the bus: eight clock pulses with SDA released
      during which the master reads the slave's levels in order, then a ninth
      pulse with SDA low exactly when `ack`. It ends with SDA released and SCL low,
      and has no START or STOP. */
  lemma ObserveReceive(levels: seq<bool>, ack: bool, st: Lines)
    requires !st.scl && !st.edge
    ensures Observe(ReceiveImage(levels, ack), st) == ReadClocks(levels) + [Clock(!ack)]
    ensures After(ReceiveImage(levels, ack), st) == Lines(true, false, false)
  {
    var released := Lines(true, false, false);
    ObserveAppend([SdaReleased], BitsIn(levels), st);
    assert [SdaReleased][1..] == [];
    assert After([SdaReleased], st) == released;
    ObserveBitsIn(levels, released);
    ObserveAppend([SdaReleased] + BitsIn(levels), AckOut(ack), st);
    ObserveAckOut(ack, released);
  }

  /** `i2c_start` makes exactly one START condition and no clock pulse, whether
      the bus was idle or a byte has just ended (a repeated START). */
  lemma ObserveStart(st: Lines)
    requires st.sda
    ensures Observe(StartImage(), st) == [StartCondition]
    ensures After(StartImage(), st) == Lines(false, false, false)
  {
    var t1: seq<Event> := [SdaReleased, SclReleased, WaitedIdle];
    var t2: seq<Event> := [SdaLowered, Delayed, SclLowered, Delayed];
    assert StartImage() == t1 + t2;
    ObserveAppend(t1, t2, st);
    ObserveReleaseIdle(st);
    ObserveStartCondition(After(t1, st));
  }

  lemma ObserveReleaseIdle(st: Lines)
    requires st.sda
    ensures Observe([SdaReleased, SclReleased, WaitedIdle], st) == []
    ensures After([SdaReleased, SclReleased, WaitedIdle], st).sda
    ensures After([SdaReleased, SclReleased, WaitedIdle], st).scl
  {
    var t: seq<Event> := [SdaReleased, SclReleased, WaitedIdle];
    ObserveWhole(t, st);
    var s1 := Next(st, t[0]);
    ObserveFrom(t, 0, st);
    var s2 := Next(s1, t[1]);
    ObserveFrom(t, 1, s1);
    var s3 := Next(s2, t[2]);
    ObserveFrom(t, 2, s2);
    ObserveWhole(t, s3);
  }

  lemma ObserveStartCondition(st: Lines)
    requires st.sda && st.scl
    ensures Observe([SdaLowered, Delayed, SclLowered, Delayed], st) == [StartCondition]
    ensures After([SdaLowered, Delayed, SclLowered, Delayed], st) == Lines(false, false, false)
  {
    var t: seq<Event> := [SdaLowered, Delayed, SclLowered, Delayed];
    ObserveWhole(t, st);
    var s1 := Next(st, t[0]);
    ObserveFrom(t, 0, st);
    var s2 := Next(s1, t[1]);
    ObserveFrom(t, 1, s1);
    var s3 := Next(s2, t[2]);
    ObserveFrom(t, 2, s2);
    var s4 := Next(s3, t[3]);
    ObserveFrom(t, 3, s3);
    ObserveWhole(t, s4);
  }

  /** SDA released while SCL is high, then the bus left to settle. */
  lemma ObserveReleaseSettle(st: Lines)
    requires st.scl
    ensures Observe([SdaReleased, Delayed, WaitedIdle], st) == Emit(st, SdaReleased)
    ensures After([SdaReleased, Delayed, WaitedIdle], st) == Next(st, SdaReleased)
  {
    var t: seq<Event> := [SdaReleased, Delayed, WaitedIdle];
    ObserveWhole(t, st);
    var s1 := Next(st, t[0]);
    ObserveFrom(t, 0, st);
    var s2 := Next(s1, t[1]);
    ObserveFrom(t, 1, s1);
    var s3 := Next(s2, t[2]);
    ObserveFrom(t, 2, s2);
    ObserveWhole(t, s3);
  }

  /** `i2c_stop` as written, entered as every caller enters it (SDA released, SCL
      low): SDA is already high when SCL rises, so no STOP condition and no
      clock pulse appear; the lines are simply left high. */
  lemma ObserveStop(st: Lines)
    requires st.sda && !st.scl
    ensures Observe(StopImage(), st) == []
    ensures After(StopImage(), st) == Idle
  {
    var t1: seq<Event> := [SclReleased, Delayed];
    var t2: seq<Event> := [SdaReleased, Delayed, WaitedIdle];
    assert StopImage() == t1 + t2;
    ObserveAppend(t1, t2, st);
    ObserveRaise(st);
    ObserveReleaseSettle(After(t1, st));
  }

  /** The observer does recognise a STOP condition when SDA rises while SCL is high. */
  lemma ObserveStopCondition(st: Lines)
    requires !st.scl
    ensures Observe(StopConditionImage(), st) == [StopCondition]
    ensures After(StopConditionImage(), st) == Lines(true, true, true)
  {
    var t1: seq<Event> := [SdaLowered, Delayed];
    var t2: seq<Event> := [SclReleased, Delayed];
    var t3: seq<Event> := [SdaReleased, Delayed, WaitedIdle];
    assert StopConditionImage() == t1 + t2 + t3;
    ObserveAppend(t1 + t2, t3, st);
    ObserveAppend(t1, t2, st);
    ObserveLowerSettle(st);
    ObserveRaise(After(t1, st));
    ObserveReleaseSettle(After(t1 + t2, st));
  }

  /** SDA pulled low while SCL is low. */
  lemma ObserveLowerSettle(st: Lines)
    requires !st.scl
    ensures Observe([SdaLowered, Delayed], st) == []
    ensures After([SdaLowered, Delayed], st) == st.(sda := false)
  {
    var t: seq<Event> := [SdaLowered, Delayed];
    ObserveWhole(t, st);
    var s1 := Next(st, t[0]);
    ObserveFrom(t, 0, st);
    var s2 := Next(s1, t[1]);
    ObserveFrom(t, 1, s1);
    ObserveWhole(t, s2);
  }

  // ---------------------------------------------------------------------------
  // Byte-level steps

  /** The primitives a transaction is made of, one per call: `i2c_start`,
      `i2c_send(b)` answered at `nak` (true: SDA found high, no acknowledge),
      `i2c_receive(ack)` finding `levels`, and `i2c_stop`. */
  datatype Step =
    | StartStep
    | SendStep(b: bv8, nak: bool)
    | ReceiveStep(levels: seq<bool>, ack: bool)
    | StopStep

  /** The wire image of one step. */
  function StepImage(s: Step): seq<Event>
  {
    match s
    case StartStep => StartImage()
    case SendStep(b, nak) => SendImage(b, nak)
    case ReceiveStep(levels, ack) => ReceiveImage(levels, ack)
    case StopStep => StopImage()
  }

  /** The wire image of a sequence of steps: their images, in order. */
  function Expand(steps: seq<Step>): seq<Event>
  {
    if steps == [] then [] else StepImage(steps[0]) + Expand(steps[1..])
  }

  lemma Associative<T>(a: seq<T>, b: seq<T>, c: seq<T>)
    ensures a + (b + c) == (a + b) + c
  {
  }

  lemma EmptyConcat<T>(a: seq<T>)
    ensures [] + a == a && a + [] == a
  {
  }

  lemma PrefixOfConcat<T>(a: seq<T>, b: seq<T>)
    ensures (a + b)[..|a|] == a
  {
  }

  /** The image of consecutive steps is the concatenation of their images. */
  lemma {:induction false} ExpandAppend(a: seq<Step>, b: seq<Step>)
    ensures Expand(a + b) == Expand(a) + Expand(b)
  {
    if a == [] {
      assert a + b == b;
    } else {
      assert (a + b)[0] == a[0];
      assert (a + b)[1..] == a[1..] + b;
      ExpandAppend(a[1..], b);
      Associative(StepImage(a[0]), Expand(a[1..]), Expand(b));
    }
  }

  /** The image of a single step. */
  lemma ExpandOne(s: Step)
    ensures Expand([s]) == StepImage(s)
  {
    assert [s][1..] == [];
  }

  /** One more step at the end. */
  lemma ExpandSnoc(steps: seq<Step>, s: Step)
    ensures Expand(steps + [s]) == Expand(steps) + StepImage(s)
  {
    ExpandAppend(steps, [s]);
    ExpandOne(s);
  }

  /** A trace made of the images of `steps` after `t0`, followed by the image of
      one more step. */
  lemma Extend(t0: seq<Event>, steps: seq<Step>, t: seq<Event>, s: Step)
    requires t == t0 + Expand(steps)
    ensures t + StepImage(s) == t0 + Expand(steps + [s])
  {
    ExpandSnoc(steps, s);
    Associative(t0, Expand(steps), StepImage(s));
  }

  /** A trace made of the images of `steps` after `t0`, followed by the images of
      `more`. */
  lemma ExtendMany(t0: seq<Event>, steps: seq<Step>, t: seq<Event>, more: seq<Step>)
    requires t == t0 + Expand(steps)
    ensures t + Expand(more) == t0 + Expand(steps + more)
  {
    ExpandAppend(steps, more);
    Associative(t0, Expand(steps), Expand(more));
  }
}
