# TinySoftWire in Dafny

TinySoftWire is a bit-banged I2C master for ATtiny microcontrollers. It drives
two port B pins, SDA and SCL, as open-drain lines. A line is pulled low by
making its pin an output at level 0. It is released to the external pull-up by
making the pin an input. The repository holds two engines with the same
protocol code:

- the free functions `i2c_start`, `i2c_stop`, `i2c_send`, `i2c_receive`,
  `i2c_beginTransmission` and `i2c_communicate` (TinySoftWire-dev.cpp). They
  use SCL on PB3 and SDA on PB4;
- the class `TinySoftWire` (TinySoftWire.cpp). It offers an Arduino-Wire-like
  interface (`beginTransmission`, `write`, `endTransmission`, `requestFrom`,
  `available`, `read`) over the private `iic_*` functions and an 8-byte
  receive buffer. Its pins are set at build time.

The project has six modules:

- `Bits` (bits.dfy): MSB-first bit order, with the shift-and-test of the
  sending loops and the shift-and-or of the receiving loops.
- `LineDriver` (line_driver.dfy): the write and read macros on PORTB and
  DDRB. Each write macro changes one bit of each register, so the registers are
  kept bit by bit, as eight booleans each. The class `Bus` holds the registers,
  an event trace of everything the master does to the lines, and the PINB
  snapshots a slave will present to the master's SDA reads.
- `Wire` (wire.dfy): the wire image, meaning the exact event sequence, of each
  primitive. It also defines an observer that reads START, STOP, clock pulses
  and reads off a trace the way another device on the bus would.
- `Transaction` (transaction.dfy): `i2c_communicate` as a function of the
  levels the slave presents, with its outcome for every pattern of ACKs and
  NAKs.
- `Engine` (engine.dfy): imperative methods for every engine function. Each
  is proved to put exactly its wire image on the bus and to compute what the
  specification functions say. Each also states the level it leaves SDA and
  SCL at (released or driven low) and that no other port B pin changes.
- `SoftWire` (soft_wire.dfy): the `TinySoftWire` class with its receive
  buffer and cursor, with the same line states and frame on every method that
  uses the bus.

Three properties of the code as written are proved. They differ from what
section 3.1 of the NXP I2C-bus specification UM10204 describes:

- At every call site in the source, `i2c_stop`/`iic_stop` produce no STOP
  condition. Every caller enters them with SDA released and SCL low. SDA is therefore already high when SCL
  rises, and no device sees SDA rise while SCL is high (`Wire.ObserveStop`). A
  transaction in which every byte is acknowledged therefore shows two START
  conditions and no STOP (`Transaction.ObserveAllAcked`). What a STOP
  condition would look like to the same observer is proved separately
  (`Wire.ObserveStopCondition`): called right after `i2c_start`, with both
  lines low, the same function does produce one.
- `requestFrom` sends a NAK after every byte but the last, and an ACK after
  the last one (TinySoftWire.cpp:55). UM10204 asks for the opposite, which is
  what `i2c_communicate` does. The model keeps both, as the ack rules
  `LastOnly` and `AllButLast`.
- `requestFrom` sends neither a START nor the address. Its `address` parameter
  is unused, so the caller must have opened the read transfer.

## Model

| member | source | states |
|---|---|---|
| Bits.ShiftedTopBit | TinySoftWire-dev.cpp:29-44 | after k rounds of `byte = (byte << 1) & 0xFF`, the `byte & 128` test yields bit k of the byte in MSB-first order |
| Bits.ShiftedByBits | TinySoftWire-dev.cpp:43 | k shifts move the wire bits from place k on to the front |
| Bits.FromBitsMSBSnoc | TinySoftWire-dev.cpp:74-78 | proof helper: one more received bit shifts the gathered byte left and fills bit 0 |
| Bits.FromBitsMSBBit | TinySoftWire-dev.cpp:70-81 | of n received bits, the k-th to arrive sits n-1-k places from the bottom |
| Bits.BitsMSBOfFromBitsMSB | TinySoftWire-dev.cpp:65-94 | eight received bits, assembled and sent again, are the same eight bits |
| Bits.FromBitsMSBOfBitsMSB | TinySoftWire-dev.cpp:26-94 | a byte sent MSB-first and assembled by the receiving loop is the same byte |
| Bits.BitsMSBInjective | TinySoftWire-dev.cpp:29-44 | two bytes with the same wire bits are equal |
| Bits.Uint8OfByte | TinySoftWire.cpp:87 | a buffer byte widened to `int` and returned as `uint8_t` is unchanged |
| Bits.Uint8OfMinusOne | TinySoftWire.cpp:82 | the `-1` sentinel returned as `uint8_t` is `0xFF` |
| LineDriver.MaskIsShift | TinySoftWire-dev.h:10-16 | `_BV(p)` is `1 << p` |
| LineDriver.MaskSingleBit | TinySoftWire.h:32-37 | every pin's register bit has exactly one bit set |
| LineDriver.MasksDisjoint | TinySoftWire.h:21-29 | distinct SDA and SCL pins have disjoint register bits, so the registers can be kept one bit per pin |
| LineDriver.ReadLine | TinySoftWire.h:34 | `PINB & _BV(pin)` is either 0 or the pin's bit, nonzero exactly when the line reads high |
| LineDriver.LowWritesEffect | TinySoftWire.h:32 | a LOW macro leaves the line driven low, changes no other pin's bits, and is never output-high between its two writes |
| LineDriver.LowWritesOnly | TinySoftWire.h:32 | a state driven low on the pin and otherwise as before is exactly the LOW macro's final state |
| LineDriver.HighWritesOnly | TinySoftWire.h:33 | a state released on the pin and otherwise as before is exactly the HIGH macro's final state |
| LineDriver.HighWritesEffect | TinySoftWire.h:33 | a HIGH macro leaves the line released and changes no other pin's bits; started from a driven-low line, its first write makes the pin an output at level 1 |
| LineDriver.HighWritesGlitch | TinySoftWire-dev.h:15 | concretely: SDA on PB4 driven low, `SDA_HIGH`'s first write sets bit 4 in both PORTB and DDRB, an output at level 1 |
| LineDriver.ReleaseWritesEffect | TinySoftWire.h:33 | writing DDRB before PORTB never makes the pin output-high, releases the line, and ends in exactly the state the HIGH macro ends in |
| LineDriver.Bus.constructor | TinySoftWire.h:21-29 | SDA and SCL on the given distinct pins, PORTB and DDRB all zero as after reset, empty trace |
| LineDriver.Bus.SdaLow | TinySoftWire.h:32 | SDA driven low and every other pin's PORTB and DDRB bits unchanged, the LOW macro's final state by `LowWritesOnly`; one `SdaLowered` event; neither line left output-high |
| LineDriver.Bus.SdaHigh | TinySoftWire.h:33 | SDA released and every other pin's bits unchanged, the HIGH macro's final state by `HighWritesOnly`; one `SdaReleased` event; neither line left output-high |
| LineDriver.Bus.SclLow | TinySoftWire.h:35 | the same as `SdaLow` for SCL, with the `SclLowered` event |
| LineDriver.Bus.SclHigh | TinySoftWire.h:36 | the same as `SdaHigh` for SCL, with the `SclReleased` event |
| LineDriver.Bus.ReadSda | TinySoftWire.h:34 | returns `PINB & sda` of the next snapshot (all ones once the slave is done), consumes it, and records the level read; registers unchanged |
| LineDriver.Bus.Delay | TinySoftWire.h:18 | one `Delayed` event; nothing else changes |
| LineDriver.Bus.WaitIdle | TinySoftWire-dev.cpp:8 | one `WaitedIdle` event; nothing else changes |
| LineDriver.Bus.WaitScl | TinySoftWire-dev.cpp:50 | one `WaitedScl` event; nothing else changes |
| LineDriver.TakeAppend | TinySoftWire-dev.cpp:70-81 | the first levels the slave presents are read first, and the rest remain |
| LineDriver.Levels | TinySoftWire-dev.h:16 | the SDA level of each PINB snapshot is its SDA bit |
| Wire.BitsOutStep | TinySoftWire-dev.cpp:29-44 | proof helper: the sending loop, one round further, adds that round's bit image |
| Wire.BitsInSnoc | TinySoftWire-dev.cpp:70-81 | proof helper: the receiving loop, one round further, adds that round's sample image |
| Wire.ObserveAppend | TinySoftWire-dev.cpp:96-146 | the observer reads a concatenated trace piece by piece |
| Wire.ObserveBitOut | TinySoftWire-dev.cpp:31-42 | one sending round is exactly one clock pulse carrying its bit |
| Wire.ObserveBitsOut | TinySoftWire-dev.cpp:29-44 | the sending loop gives one clock pulse per bit, in order |
| Wire.ObserveSend | TinySoftWire-dev.cpp:26-55 | `i2c_send(b)`: the eight bits of b MSB-first as clock pulses, then the ACK read during one more pulse with SDA released |
| Wire.ObserveAckIn | TinySoftWire-dev.cpp:46-54 | the ACK clock: one read and one pulse with SDA released |
| Wire.ObserveBitIn | TinySoftWire-dev.cpp:72-80 | one receiving round: a read, then a pulse with SDA released |
| Wire.ObserveBitsIn | TinySoftWire-dev.cpp:69-81 | the receiving loop: one read and one released pulse per bit |
| Wire.ObserveAckOut | TinySoftWire-dev.cpp:83-92 | the ACK clock of `i2c_receive(ack)` carries SDA low exactly when `ack` |
| Wire.ObserveReceive | TinySoftWire-dev.cpp:65-94 | `i2c_receive`: eight reads with released pulses, then the ACK or NAK pulse |
| Wire.ObserveStart | TinySoftWire-dev.cpp:4-13 | from SDA high, `i2c_start` makes exactly one START condition and no pulse |
| Wire.ObserveStop | TinySoftWire-dev.cpp:16-23 | entered with SDA high and SCL low, `i2c_stop` makes no STOP condition (no symbol at all) and leaves the bus idle |
| Wire.ObserveStopCondition | TinySoftWire-dev.cpp:16-23 | SDA lowered first while SCL is low, the same release sequence does make one STOP condition |
| Wire.ExpandAppend | TinySoftWire-dev.cpp:96-146 | the image of consecutive primitives is the concatenation of their images |
| Transaction.AddressBytes | TinySoftWire-dev.cpp:100-121 | the write address is the 7-bit address with R/W bit 0, the read address with R/W bit 1 |
| Transaction.ReceiveAll | TinySoftWire-dev.cpp:123-136 | the receiving loop stores exactly n bytes |
| Transaction.SendAllAcked | TinySoftWire-dev.cpp:107-113 | when the slave acknowledges every byte, all go out acknowledged |
| Transaction.SendAllAckedOnlyIf | TinySoftWire-dev.cpp:107-113 | the data loop reports success only if every byte was acknowledged |
| Transaction.SendAllNak | TinySoftWire-dev.cpp:107-113 | on the first NAK the loop stops: the bytes before it and that byte, nothing more |
| Transaction.ReceiveAllAcks | TinySoftWire-dev.cpp:125-132 | exactly n receive calls, the k-th acknowledged as the ack rule says for the bytes left |
| Transaction.ReceiveReplies | TinySoftWire-dev.cpp:123-136 | against a slave sending `replies`, the loop stores exactly those bytes in order |
| Transaction.ReceiveAllAnyRule | TinySoftWire-dev.cpp:123-136 | the bytes stored do not depend on which bytes are acknowledged |
| Transaction.ReceiveRepliesAnyRule | TinySoftWire.cpp:53-56 | the same for `requestFrom`'s ack rule |
| Transaction.ReadPhaseAfter | TinySoftWire-dev.cpp:117-139 | the read phase only appends its steps to those of the write phase |
| Transaction.CommunicateNothing | TinySoftWire-dev.cpp:96-146 | with nothing to send and nothing to receive, nothing happens on the bus and the result is 0 |
| Transaction.CommunicateCount | TinySoftWire-dev.cpp:140-145 | the result is 0 or the number requested, and equals the number of bytes stored |
| Transaction.WriteAddressNak | TinySoftWire-dev.cpp:102-106 | write address not acknowledged: START, the address, stop; result 0 |
| Transaction.WriteDataNak | TinySoftWire-dev.cpp:107-110 | data byte j not acknowledged: bytes 0..j go out, then stop; result 0 |
| Transaction.ReadAddressNak | TinySoftWire-dev.cpp:117-122 | read address not acknowledged: the write phase, START, the read address, stop; result 0 |
| Transaction.ReadPhaseReplies | TinySoftWire-dev.cpp:117-140 | a slave that acknowledges and sends `replies`: they are stored in order and the result is their number |
| Transaction.AllAcked | TinySoftWire-dev.cpp:96-140 | a full transaction against a cooperating slave: both phases, the replies stored, their number returned |
| Transaction.SuccessIffAcked | TinySoftWire-dev.cpp:96-146 | nonzero reception returns n if and only if both addresses and every data byte are acknowledged |
| Transaction.ObserveAcked | TinySoftWire-dev.cpp:107-113 | acknowledged data bytes are seen as their bits followed by an ACK pulse each |
| Transaction.ObserveReplies | TinySoftWire-dev.cpp:123-136 | received bytes are seen as reads and pulses, ACK on all but the last |
| Transaction.ObservePhase | TinySoftWire-dev.cpp:102-139 | a phase is seen as one START, its address and its bytes, and ends idle with no STOP |
| Transaction.ObserveWriteSteps | TinySoftWire-dev.cpp:102-115 | the acknowledged write phase as seen on the bus |
| Transaction.ObserveReadSteps | TinySoftWire-dev.cpp:117-139 | the acknowledged read phase as seen on the bus |
| Transaction.ObserveAllAcked | TinySoftWire-dev.cpp:96-140 | a full acknowledged transaction shows two START conditions and no STOP |
| Engine.DevBus | TinySoftWire-dev.h:8-16 | a bus with SCL on PB3 and SDA on PB4 |
| Engine.Start | TinySoftWire-dev.cpp:4-13 | `i2c_start` appends exactly the START image and leaves both lines driven low, no other pin changed |
| Engine.Stop | TinySoftWire-dev.cpp:16-23 | `i2c_stop` appends exactly the stop image and leaves both lines released, no other pin changed |
| Engine.ClockOut | TinySoftWire-dev.cpp:31-42 | one round of the sending loop, ending with SDA at the bit and SCL driven low |
| Engine.ClockAckIn | TinySoftWire-dev.cpp:46-54 | returns true exactly when the slave holds SDA low, consuming one level; ends with SDA released and SCL driven low |
| Engine.SendRound | TinySoftWire-dev.cpp:29-44 | the loop's byte is the input shifted k+1 times after round k, the trace holds the first k+1 bits, SDA is left at bit k |
| Engine.ClockOutByte | TinySoftWire-dev.cpp:29-44 | the loop clocks out the eight bits MSB-first and leaves SDA at the last bit, SCL driven low |
| Engine.Send | TinySoftWire-dev.cpp:26-55 | `i2c_send`: the byte's image, and ACK exactly when SDA is low during the ACK clock; ends with SDA released and SCL driven low, no other pin changed |
| Engine.BeginTransmission | TinySoftWire-dev.cpp:58-62 | START then the write address, returning the ACK |
| Engine.ClockIn | TinySoftWire-dev.cpp:72-80 | one receiving round reads the next level and leaves SCL driven low, only SCL's bits changed |
| Engine.ReceiveRound | TinySoftWire-dev.cpp:70-81 | after k+1 rounds the byte is the first k+1 levels assembled MSB-first; only SCL's bits changed |
| Engine.ClockAckOut | TinySoftWire-dev.cpp:83-92 | the ACK clock, with SDA pulled low only when `ack`, then SDA released and SCL driven low |
| Engine.ClockInByte | TinySoftWire-dev.cpp:69-81 | the byte is the next eight levels assembled MSB-first; SCL left driven low and SDA's bits untouched |
| Engine.Receive | TinySoftWire-dev.cpp:65-94 | `i2c_receive(ack)`: that byte and exactly its image; ends with SDA released and SCL driven low, no other pin changed |
| Engine.SendData | TinySoftWire-dev.cpp:109-112 | one data round: on ACK the loop's state moves one byte on, on NAK the outcome is the data loop's |
| Engine.SendBytes | TinySoftWire-dev.cpp:107-113 | the data loop does exactly what `SendAll` says; the registers are untouched when n is 0 |
| Engine.ReceiveNext | TinySoftWire-dev.cpp:127-131 | one receive call, recorded as one step |
| Engine.Store | TinySoftWire-dev.cpp:127-133 | storing at the cursor extends the stored prefix by one byte and leaves the rest |
| Engine.ReceiveStore | TinySoftWire-dev.cpp:125-135 | one round of the receive loop keeps the loop's relation to `ReceiveAll` |
| Engine.ReceiveBytes | TinySoftWire-dev.cpp:123-136 | the receive loop stores exactly `ReceiveAll`'s bytes, leaves the rest of the buffer, and returns n |
| Engine.StartNext | TinySoftWire-dev.cpp:104 | `i2c_start` as one step of a transaction |
| Engine.StopNext | TinySoftWire-dev.cpp:114 | `i2c_stop` as one step of a transaction |
| Engine.SendNext | TinySoftWire-dev.cpp:109 | `i2c_send` as one step of a transaction |
| Engine.OpenNext | TinySoftWire-dev.cpp:104-106 | START and an address as two steps |
| Engine.SendBytesNext | TinySoftWire-dev.cpp:107-113 | the data loop as steps of a transaction |
| Engine.WriteTransfer | TinySoftWire-dev.cpp:100-115 | the write phase does exactly what `WritePhase` says, including every NAK path; both lines end released when it ran |
| Engine.ReadTransfer | TinySoftWire-dev.cpp:117-145 | the read phase does exactly what `ReadPhase` says and stores its bytes; both lines end released when it ran |
| Engine.Communicate | TinySoftWire-dev.cpp:96-146 | `i2c_communicate` returns, stores and puts on the bus exactly what `Transaction.Communicate` says; both lines end released, and no other port B pin changes |
| SoftWire.RequestedSteps | TinySoftWire.cpp:44-62 | `requestFrom` receives min(count, 8) bytes, ACKs only the last, then a stop only when `sendStop`, and never a START or address |
| SoftWire.RequestedReplies | TinySoftWire.cpp:53-56 | against a slave sending at most 8 `replies`, exactly those bytes land in the buffer |
| SoftWire.RequestedClamped | TinySoftWire.cpp:47-62 | proof helper: for counts within the buffer, the clamp does nothing |
| SoftWire.TinySoftWire.constructor | TinySoftWire.cpp:4-6 | empty buffer with index and length 0, on the configured pins, registers as after reset |
| SoftWire.TinySoftWire.BeginTransmission | TinySoftWire.cpp:13-17 | START then the write address, returning the ACK; SDA released and SCL driven low after |
| SoftWire.TinySoftWire.EndTransmission | TinySoftWire.cpp:22-25 | exactly the stop image; both lines released after |
| SoftWire.TinySoftWire.Write | TinySoftWire.cpp:32-35 | one byte's image, returning the ACK; SDA released and SCL driven low after |
| SoftWire.TinySoftWire.RequestFrom | TinySoftWire.cpp:44-67 | the buffer prefix holds the received bytes and the rest is unchanged, index 0, length the clamped count, trace as `Requested` says; lines released after a stop, no other pin changed |
| SoftWire.TinySoftWire.Available | TinySoftWire.cpp:72-75 | the number of bytes not yet read |
| SoftWire.TinySoftWire.Read | TinySoftWire.cpp:80-92 | returns the next unread byte and advances the cursor; with nothing left, returns 0xFF and changes nothing |
| SoftWire.Fetch | TinySoftWire.cpp:53-62 | the loop and the optional stop do what `Requested` says for a count within the buffer |
| SoftWire.FillBuffer | TinySoftWire.cpp:53-56 | the loop stores exactly `ReceiveAll`'s bytes under the ACK-last rule |
| SoftWire.ReceiveInto | TinySoftWire.cpp:55 | one round, acknowledged exactly when it is the last |
| SoftWire.DefaultWire | TinySoftWire.h:21-29 | default pins: SDA on PB4, SCL on PB3 |

## Left out

- `I2C_DELAY` (`_delay_us(4)`): modelled as one `Delayed` event. Timing is not modelled.
- The busy-waits on SDA and SCL (TinySoftWire-dev.cpp:8, 22, 50): each is one event, assumed to end, and consumes no slave input. Clock stretching, a stuck bus and the missing timeout are not modelled.
- `R_SCL`/`SCL` reads exist only inside the busy-waits and are not modelled separately.
- The read macros are written `PINB &= _BV(pin)`, so they also write PINB. On the ATtiny a 1 written to PINB toggles the PORTB bit. This side effect is not modelled: a read returns `PINB & _BV(pin)` and leaves PORTB as it was.
- The slave is an input sequence of PINB snapshots. An empty sequence reads as all ones. Electrical behaviour, arbitration, 10-bit addressing and slave mode are not modelled.
- The `-1` to `uint8_t` conversion in `read` is modelled by `Bits.Uint8`. The 8-bit counters are the `Count` type, and the pointer increments are array indices.
- `#include`, `#pragma message`, the include guards and the prototypes carry no behaviour.
- SoftWire.TinySoftWire.Read: "successive bytes on successive calls" is stated for one call, as a pop from `Remaining()`, and not as a lemma over several calls.
- SoftWire.TinySoftWire.RequestFrom: the `address` parameter is accepted and unused, as in the source; nothing is stated about it.

## Findings

| source | as written | input that shows it | evidently intended | confidence | as-written member | corrected member |
|---|---|---|---|---|---|---|
| TinySoftWire.h:33, 36 and TinySoftWire-dev.h:11, 15 | `W_SDA_HIGH`/`W_SCL_HIGH` set the PORTB bit before clearing the DDRB bit | SDA on PB4 driven low (bit 4 clear in PORTB and set in DDRB), then `SDA_HIGH`: after the first write bit 4 is set in both, so the pin drives the open-drain line high until the second write, against any device holding it low, such as a slave stretching SCL | release the line without ever driving it high: clear DDRB first, then set PORTB | not executed | LineDriver.HighWritesGlitch | LineDriver.ReleaseWritesEffect |

The rest of the model relies only on the register state after a whole macro.
`LineDriver.ReleaseWritesEffect` proves that state identical for both write
orders, so every result about the engines and the class holds for the
corrected macros unchanged.
