/** What `i2c_communicate` does on the bus, as functions of the SDA levels the
    slave presents: a write phase (START, address with R/W = 0, the data bytes,
    STOP) and then a read phase (START, address with R/W = 1, the received bytes,
    STOP), either of them skipped when it has no bytes, and a STOP and a result of
    0 on the first byte the slave does not acknowledge. */
module Transaction {
  import opened Bits
  import opened LineDriver
  import opened Wire

  /** The address byte of the write phase: the 7-bit address followed by R/W = 0
      (section 3.1.10 of UM10204); `(slave_address << 1) & 0xFF`. */
  function WriteAddress(address: bv8): bv8
  {
    address << 1
  }

  /** The address byte of the read phase: `slave_address + 1` after the shift. */
  function ReadAddress(address: bv8): bv8
  {
    WriteAddress(address) + 1
  }

  /** The two address bytes carry the low seven bits of `address` in their top
      seven bits, and differ only in the R/W bit: 0 for writing, 1 for reading.
      The `+ 1` never carries. */
  lemma AddressBytes(address: bv8)
    ensures WriteAddress(address) >> 1 == address & 0x7F
    ensures ReadAddress(address) >> 1 == address & 0x7F
    ensures WriteAddress(address) & 1 == 0 && ReadAddress(address) & 1 == 1
  {
  }

  /** A byte count held in a `uint8_t`, as the lengths and results of
      `i2c_communicate` are. */
  type Count = n: nat | n < 256

  /** `n` acknowledge levels: SDA held low by the slave. */
  function Lows(n: nat): (r: seq<bool>)
    ensures |r| == n && forall i :: 0 <= i < n ==> !r[i]
  {
    seq(n, _ => false)
  }

  /** Every byte of `data` sent and acknowledged. */
  function AckedBytes(data: seq<bv8>): seq<Step>
  {
    if data == [] then [] else [SendStep(data[0], false)] + AckedBytes(data[1..])
  }

  lemma {:induction false} AckedBytesAppend(a: seq<bv8>, b: seq<bv8>)
    ensures AckedBytes(a + b) == AckedBytes(a) + AckedBytes(b)
  {
    if a == [] {
      assert a + b == b;
    } else {
      assert (a + b)[0] == a[0] && (a + b)[1..] == a[1..] + b;
      AckedBytesAppend(a[1..], b);
      Associative([SendStep(a[0], false)], AckedBytes(a[1..]), AckedBytes(b));
    }
  }

  /** One more acknowledged byte. */
  lemma AckedBytesSnoc(data: seq<bv8>, i: nat)
    requires i < |data|
    ensures AckedBytes(data[..i + 1]) == AckedBytes(data[..i]) + [SendStep(data[i], false)]
  {
    assert data[..i + 1] == data[..i] + [data[i]];
    AckedBytesAppend(data[..i], [data[i]]);
    assert [data[i]][1..] == [];
  }

  /** What the data loop of the write phase did: its steps, whether every byte
      was acknowledged, and the levels the slave has left. */
  datatype Sent = Sent(steps: seq<Step>, acked: bool, rest: seq<bool>)

  /** The data loop of the write phase (TinySoftWire-dev.cpp, lines 107 to 113):
      send the bytes in order; on the first one whose acknowledge clock finds SDA
      high, stop sending. */
  function SendAll(data: seq<bv8>, lv: seq<bool>): Sent
  {
    if data == [] then Sent([], true, lv)
    else if Head(lv) then Sent([SendStep(data[0], true)], false, Tail(lv))
    else
      var more := SendAll(data[1..], Tail(lv));
      Sent([SendStep(data[0], false)] + more.steps, more.acked, more.rest)
  }

  /** Which received bytes the master acknowledges, given how many bytes (this one
      included) are still to come. */
  datatype AckRule =
    | AllButLast   // i2c_communicate: ACK each byte, NAK the last (section 3.1.6 of UM10204)
    | LastOnly     // TinySoftWire::requestFrom as written: NAK each byte, ACK the last

  function AckFor(rule: AckRule, remaining: nat): bool
  {
    match rule
    case AllButLast => remaining != 1
    case LastOnly => remaining == 1
  }

  /** What a receiving loop did: its steps, the bytes it assembled in order, and
      the levels the slave has left. */
  datatype Received = Received(steps: seq<Step>, bytes: seq<bv8>, rest: seq<bool>)

  /** A receiving loop of `n` bytes: each byte is assembled from the next eight
      levels, and acknowledged as `rule` says. */
  function ReceiveAll(n: nat, lv: seq<bool>, rule: AckRule): (r: Received)
    ensures |r.bytes| == n
  {
    if n == 0 then Received([], [], lv)
    else
      var bits := Take(lv, 8);
      var more := ReceiveAll(n - 1, Drop(lv, 8), rule);
      Received([ReceiveStep(bits, AckFor(rule, n))] + more.steps, [FromBitsMSB(bits)] + more.bytes, more.rest)
  }

  /** A receiving loop that has done `steps`, assembling `bytes`, and has `left`
      bytes to go against the levels `here`, one byte further. */
  lemma ReceiveAllNext(n: nat, lv: seq<bool>, rule: AckRule, before: seq<Step>, steps: seq<Step>, bytes: seq<bv8>,
                       left: nat, here: seq<bool>)
    requires left > 0
    requires var r := ReceiveAll(left, here, rule);
      before + ReceiveAll(n, lv, rule).steps == steps + r.steps
      && ReceiveAll(n, lv, rule).bytes == bytes + r.bytes && ReceiveAll(n, lv, rule).rest == r.rest
    ensures var bits := Take(here, 8);
      var r := ReceiveAll(left - 1, Drop(here, 8), rule);
      before + ReceiveAll(n, lv, rule).steps == steps + [ReceiveStep(bits, AckFor(rule, left))] + r.steps
      && ReceiveAll(n, lv, rule).bytes == bytes + [FromBitsMSB(bits)] + r.bytes && ReceiveAll(n, lv, rule).rest == r.rest
  {
    var bits := Take(here, 8);
    var r := ReceiveAll(left - 1, Drop(here, 8), rule);
    Associative(steps, [ReceiveStep(bits, AckFor(rule, left))], r.steps);
    Associative(bytes, [FromBitsMSB(bits)], r.bytes);
  }

  datatype Outcome = Outcome(steps: seq<Step>, received: seq<bv8>, count: nat, rest: seq<bool>)

  /** The write phase of `i2c_communicate` (TinySoftWire-dev.cpp, lines 102 to
      115): nothing without data; otherwise START, the write address and the
      data, ended by a STOP whether or not every byte was acknowledged. `acked`
      says whether the read phase follows. */
  function WritePhase(address: bv8, data: seq<bv8>, lv: seq<bool>): Sent
  {
    if |data| > 0 then
      var opening := [StartStep, SendStep(WriteAddress(address), Head(lv))];
      if Head(lv) then Sent(opening + [StopStep], false, Tail(lv))
      else
        var sent := SendAll(data, Tail(lv));
        Sent(opening + sent.steps + [StopStep], sent.acked, sent.rest)
    else Sent([], true, lv)
  }

  /** `i2c_communicate(address, data, |data|, rcv_data, n)` against a slave that
      presents `lv`. */
  function Communicate(address: bv8, data: seq<bv8>, n: nat, lv: seq<bool>): Outcome
  {
    var w := WritePhase(address, data, lv);
    if w.acked then ReadPhase(address, n, w.rest, w.steps)
    else Outcome(w.steps, [], 0, w.rest)
  }

  /** The read phase of `i2c_communicate`, after the steps `before`. */
  function ReadPhase(address: bv8, n: nat, lv: seq<bool>, before: seq<Step>): Outcome
  {
    if n == 0 then Outcome(before, [], 0, lv)
    else
      var opening := [StartStep, SendStep(ReadAddress(address), Head(lv))];
      if Head(lv) then Outcome(before + opening + [StopStep], [], 0, Tail(lv))
      else
        var got := ReceiveAll(n, Tail(lv), AllButLast);
        Outcome(before + opening + got.steps + [StopStep], got.bytes, n, got.rest)
  }

  /** The read phase only prefixes its own steps with the steps before it. */
  lemma ReadPhaseAfter(address: bv8, n: nat, lv: seq<bool>, before: seq<Step>)
    ensures var alone := ReadPhase(address, n, lv, []);
      ReadPhase(address, n, lv, before) == alone.(steps := before + alone.steps)
  {
    var opening := [StartStep, SendStep(ReadAddress(address), Head(lv))];
    assert [] + opening + [StopStep] == opening + [StopStep];
    if n > 0 && !Head(lv) {
      var got := ReceiveAll(n, Tail(lv), AllButLast);
      assert before + opening + got.steps + [StopStep] == before + ([] + opening + got.steps + [StopStep]);
    }
  }

  // ---------------------------------------------------------------------------
  // The slave's side, spelled out

  /** How many acknowledge levels the write phase reads when every byte is
      acknowledged: the address and each data byte, or none without data. */
  function WriteAcks(data: seq<bv8>): nat
  {
    if data == [] then 0 else |data| + 1
  }

  /** The complete write phase when the slave acknowledges everything. */
  function WriteSteps(address: bv8, data: seq<bv8>): seq<Step>
  {
    if data == [] then []
    else [StartStep, SendStep(WriteAddress(address), false)] + AckedBytes(data) + [StopStep]
  }

  /** The levels a slave presents when it sends `replies` in order. */
  function ReplyLevels(replies: seq<bv8>): seq<bool>
  {
    if replies == [] then [] else BitsMSB(replies[0]) + ReplyLevels(replies[1..])
  }

  /** The levels of a slave that acknowledges its read address and sends `replies`. */
  function ReadLevels(replies: seq<bv8>): seq<bool>
  {
    if replies == [] then [] else [false] + ReplyLevels(replies)
  }

  /** Receiving `replies` with an ACK after each byte but the last, which gets a NAK. */
  function ReceiveSteps(replies: seq<bv8>): seq<Step>
  {
    if replies == [] then []
    else [ReceiveStep(BitsMSB(replies[0]), |replies| != 1)] + ReceiveSteps(replies[1..])
  }

  /** The complete read phase when the slave acknowledges its address and sends `replies`. */
  function ReadSteps(address: bv8, replies: seq<bv8>): seq<Step>
  {
    if replies == [] then []
    else [StartStep, SendStep(ReadAddress(address), false)] + ReceiveSteps(replies) + [StopStep]
  }

  /** The first `k + 1` levels are low exactly when the first `k` are and the
      next one is. */
  lemma LowsSnoc(lv: seq<bool>, k: nat)
    ensures Take(lv, k + 1) == Lows(k + 1) <==> (Take(lv, k) == Lows(k) && !Head(Drop(lv, k)))
  {
    TakeSnoc(lv, k);
    var t := Take(lv, k);
    var h := Head(Drop(lv, k));
    assert Lows(k + 1) == Lows(k) + [false];
    if Take(lv, k + 1) == Lows(k + 1) {
      assert (t + [h])[..k] == t;
      assert (Lows(k) + [false])[..k] == Lows(k);
      assert (t + [h])[k] == h;
    }
  }

  lemma TakeLows(k: nat, rest: seq<bool>)
    ensures Take(Lows(k) + rest, k) == Lows(k)
    ensures Drop(Lows(k) + rest, k) == rest
  {
    TakeAppend(Lows(k), rest);
  }

  /** Taking one level off the front of a prefix of all-low levels. */
  lemma TakeStep(lv: seq<bool>, j: nat)
    requires j > 0
    ensures Take(lv, j) == Lows(j) <==> (!Head(lv) && Take(Tail(lv), j - 1) == Lows(j - 1))
    ensures Drop(lv, j) == Drop(Tail(lv), j - 1)
  {
    var t := Take(Tail(lv), j - 1);
    assert Take(lv, j) == [Head(lv)] + t;
    assert Lows(j) == [false] + Lows(j - 1);
    if Take(lv, j) == Lows(j) {
      assert ([Head(lv)] + t)[0] == Head(lv);
      assert ([Head(lv)] + t)[1..] == t;
      assert ([false] + Lows(j - 1))[1..] == Lows(j - 1);
    }
  }

  // ---------------------------------------------------------------------------
  // The data loop of the write phase

  /** When the slave acknowledges the first `|data|` bytes, every byte goes out in
      order, each acknowledged. */
  lemma {:induction false} SendAllAcked(data: seq<bv8>, lv: seq<bool>)
    requires Take(lv, |data|) == Lows(|data|)
    ensures SendAll(data, lv) == Sent(AckedBytes(data), true, Drop(lv, |data|))
  {
    if data != [] {
      TakeStep(lv, |data|);
      SendAllAcked(data[1..], Tail(lv));
    }
  }

  /** The loop's exit: every one of the bytes acknowledged. */
  lemma SendAllDone(data: seq<bv8>, lv: seq<bool>, i: nat)
    requires i == |data| && Take(lv, i) == Lows(i)
    ensures SendAll(data, lv) == Sent(AckedBytes(data[..i]), true, Drop(lv, i))
  {
    SendAllAcked(data, lv);
    assert data[..i] == data;
  }

  /** When the slave acknowledges the first `j` bytes and not byte `j`, those `j`
      bytes go out acknowledged, byte `j` goes out unacknowledged, and nothing after it. */
  lemma {:induction false} SendAllNak(data: seq<bv8>, lv: seq<bool>, j: nat)
    requires j < |data| && Take(lv, j) == Lows(j) && Head(Drop(lv, j))
    ensures SendAll(data, lv) == Sent(AckedBytes(data[..j]) + [SendStep(data[j], true)], false, Drop(lv, j + 1))
  {
    if j == 0 {
      assert data[..0] == [];
    } else {
      TakeStep(lv, j);
      TakeStep(lv, j + 1);
      assert !Head(lv);
      SendAllNak(data[1..], Tail(lv), j - 1);
      var more := SendAll(data[1..], Tail(lv));
      var head := [SendStep(data[0], false)];
      assert SendAll(data, lv) == Sent(head + more.steps, more.acked, more.rest);
      assert data[1..][..j - 1] == data[..j][1..];
      assert data[1..][j - 1] == data[j];
      var acked := AckedBytes(data[..j][1..]);
      var nak := [SendStep(data[j], true)];
      assert more.steps == acked + nak;
      assert AckedBytes(data[..j]) == head + acked;
      Associative(head, acked, nak);
    }
  }

  /** The data loop reports every byte acknowledged only when the slave held SDA
      low for all of their acknowledge clocks. */
  lemma {:induction false} SendAllAckedOnlyIf(data: seq<bv8>, lv: seq<bool>)
    requires SendAll(data, lv).acked
    ensures Take(lv, |data|) == Lows(|data|)
  {
    if data != [] {
      SendAllAckedOnlyIf(data[1..], Tail(lv));
      TakeStep(lv, |data|);
    }
  }

  // ---------------------------------------------------------------------------
  // The receiving loop

  /** The levels of a slave that sends `replies`, its first byte split off. */
  lemma ReplyLevelsCons(replies: seq<bv8>, rest: seq<bool>)
    requires replies != []
    ensures ReplyLevels(replies) + rest == BitsMSB(replies[0]) + (ReplyLevels(replies[1..]) + rest)
  {
    Associative(BitsMSB(replies[0]), ReplyLevels(replies[1..]), rest);
  }

  /** A receiving loop against a slave whose next byte is `b`: its first step
      samples the wire bits of `b` and assembles `b`. */
  lemma ReceiveAllCons(b: bv8, tail: seq<bool>, n: nat, rule: AckRule)
    requires n > 0
    ensures var m := ReceiveAll(n - 1, tail, rule);
      ReceiveAll(n, BitsMSB(b) + tail, rule)
      == Received([ReceiveStep(BitsMSB(b), AckFor(rule, n))] + m.steps, [b] + m.bytes, m.rest)
  {
    TakeAppend(BitsMSB(b), tail);
    FromBitsMSBOfBitsMSB(b);
  }

  lemma Cons<T>(s: seq<T>)
    requires s != []
    ensures [s[0]] + s[1..] == s
  {
  }

  /** A slave that sends `replies` bit by bit gets each of them back, in order:
      the receiving loop inverts `BitsMSB`. */
  lemma {:induction false} ReceiveReplies(replies: seq<bv8>, rest: seq<bool>)
    ensures ReceiveAll(|replies|, ReplyLevels(replies) + rest, AllButLast)
         == Received(ReceiveSteps(replies), replies, rest)
  {
    if replies != [] {
      ReplyLevelsCons(replies, rest);
      ReceiveAllCons(replies[0], ReplyLevels(replies[1..]) + rest, |replies|, AllButLast);
      ReceiveReplies(replies[1..], rest);
      Cons(replies);
    }
  }

  /** A receiving loop of `n` bytes is `n` receive steps and nothing else, the
      `k`-th acknowledged as `rule` says for the `n - k` bytes then to come. */
  lemma {:induction false} ReceiveAllAcks(n: nat, lv: seq<bool>, rule: AckRule)
    ensures var r := ReceiveAll(n, lv, rule);
      |r.steps| == n
      && forall k :: 0 <= k < n ==> r.steps[k].ReceiveStep? && r.steps[k].ack == AckFor(rule, n - k)
  {
    if n > 0 {
      ReceiveAllAcks(n - 1, Drop(lv, 8), rule);
      var more := ReceiveAll(n - 1, Drop(lv, 8), rule).steps;
      var r := ReceiveAll(n, lv, rule).steps;
      assert r == [ReceiveStep(Take(lv, 8), AckFor(rule, n))] + more;
      forall k | 0 < k < n
        ensures r[k].ReceiveStep? && r[k].ack == AckFor(rule, n - k)
      {
        assert r[k] == more[k - 1];
      }
    }
  }

  /** Which bytes a receiving loop acknowledges does not change the bytes it
      assembles or the levels it leaves. */
  lemma {:induction false} ReceiveAllAnyRule(n: nat, lv: seq<bool>, rule: AckRule)
    ensures ReceiveAll(n, lv, rule).bytes == ReceiveAll(n, lv, AllButLast).bytes
    ensures ReceiveAll(n, lv, rule).rest == ReceiveAll(n, lv, AllButLast).rest
  {
    if n > 0 {
      ReceiveAllAnyRule(n - 1, Drop(lv, 8), rule);
    }
  }

  /** Whichever bytes it acknowledges, a receiving loop gets back the bytes the
      slave sends, in order, and leaves what follows them. */
  lemma ReceiveRepliesAnyRule(replies: seq<bv8>, rest: seq<bool>, rule: AckRule)
    ensures var r := ReceiveAll(|replies|, ReplyLevels(replies) + rest, rule);
      r.bytes == replies && r.rest == rest
  {
    ReceiveAllAnyRule(|replies|, ReplyLevels(replies) + rest, rule);
    ReceiveReplies(replies, rest);
  }

  // ---------------------------------------------------------------------------
  // i2c_communicate

  /** Nothing to send and nothing to receive: no bus activity at all, result 0. */
  lemma CommunicateNothing(address: bv8, lv: seq<bool>)
    ensures Communicate(address, [], 0, lv) == Outcome([], [], 0, lv)
  {
  }

  /** The result is 0 or the number of bytes asked for, and it is the number of
      bytes stored. */
  lemma CommunicateCount(address: bv8, data: seq<bv8>, n: nat, lv: seq<bool>)
    ensures var o := Communicate(address, data, n, lv);
      |o.received| == o.count && (o.count == 0 || o.count == n)
  {
  }

  /** The slave does not acknowledge the write address: START, the address, STOP,
      and nothing else; result 0. */
  lemma WriteAddressNak(address: bv8, data: seq<bv8>, n: nat, lv: seq<bool>)
    requires |data| > 0 && Head(lv)
    ensures Communicate(address, data, n, lv)
         == Outcome([StartStep, SendStep(WriteAddress(address), true), StopStep], [], 0, Tail(lv))
  {
  }

  /** The slave acknowledges the address and the first `j` data bytes but not byte
      `j`: that byte is the last to go out, one STOP follows, no read phase runs,
      and the result is 0. */
  lemma WriteDataNak(address: bv8, data: seq<bv8>, n: nat, lv: seq<bool>, j: nat)
    requires j < |data| && Take(lv, j + 1) == Lows(j + 1) && Head(Drop(lv, j + 1))
    ensures Communicate(address, data, n, lv)
         == Outcome([StartStep, SendStep(WriteAddress(address), false)]
                    + AckedBytes(data[..j]) + [SendStep(data[j], true), StopStep],
                    [], 0, Drop(lv, j + 2))
  {
    TakeStep(lv, j + 1);
    TakeStep(lv, j + 2);
    assert !Head(lv);
    SendAllNak(data, Tail(lv), j);
    var opening := [StartStep, SendStep(WriteAddress(address), false)];
    var sent := SendAll(data, Tail(lv));
    assert WritePhase(address, data, lv) == Sent(opening + sent.steps + [StopStep], false, sent.rest);
    Associative(opening, AckedBytes(data[..j]), [SendStep(data[j], true)]);
  }

  /** The write phase succeeds, or there is none, and the slave does not
      acknowledge the read address: START, the read address, STOP; result 0. */
  lemma ReadAddressNak(address: bv8, data: seq<bv8>, n: nat, lv: seq<bool>)
    requires n > 0
    requires Take(lv, WriteAcks(data)) == Lows(WriteAcks(data)) && Head(Drop(lv, WriteAcks(data)))
    ensures Communicate(address, data, n, lv)
         == Outcome(WriteSteps(address, data) + [StartStep, SendStep(ReadAddress(address), true), StopStep],
                    [], 0, Drop(lv, WriteAcks(data) + 1))
  {
    if data != [] {
      TakeStep(lv, |data| + 1);
      TakeStep(lv, |data| + 2);
      SendAllAcked(data, Tail(lv));
      TakeSnoc(Tail(lv), |data|);
    }
  }

  /** The read phase against a slave that acknowledges its address and sends
      `replies`: the bytes come back in order, and the result is their number. */
  lemma ReadPhaseReplies(address: bv8, replies: seq<bv8>, rest: seq<bool>, before: seq<Step>)
    ensures ReadPhase(address, |replies|, ReadLevels(replies) + rest, before)
         == Outcome(before + ReadSteps(address, replies), replies, |replies|, rest)
  {
    if replies != [] {
      Associative([false], ReplyLevels(replies), rest);
      HeadTailCons(false, ReplyLevels(replies) + rest);
      ReceiveReplies(replies, rest);
      var opening := [StartStep, SendStep(ReadAddress(address), false)];
      var got := ReceiveSteps(replies);
      Associative(before, opening + got, [StopStep]);
      Associative(before, opening, got);
    }
  }

  /** The slave acknowledges everything and sends `replies`: the write phase puts
      the address and then the data bytes in order on the bus and ends with STOP
      before the read phase's own START; the read phase acknowledges every byte but
      the last; the bytes come back in order and the result is their number. */
  lemma AllAcked(address: bv8, data: seq<bv8>, replies: seq<bv8>, rest: seq<bool>)
    ensures var lv := Lows(WriteAcks(data)) + ReadLevels(replies) + rest;
      Communicate(address, data, |replies|, lv)
      == Outcome(WriteSteps(address, data) + ReadSteps(address, replies), replies, |replies|, rest)
  {
    var w := WriteAcks(data);
    var tail := ReadLevels(replies) + rest;
    var lv := Lows(w) + ReadLevels(replies) + rest;
    assert lv == Lows(w) + tail;
    TakeLows(w, tail);
    ReadPhaseReplies(address, replies, rest, WriteSteps(address, data));
    if data != [] {
      TakeStep(lv, w);
      SendAllAcked(data, Tail(lv));
      assert Drop(Tail(lv), |data|) == tail;
    } else {
      assert lv == tail;
    }
  }

  /** With something to receive, the result is the number of bytes asked for
      exactly when the slave acknowledged every address and data byte. */
  lemma SuccessIffAcked(address: bv8, data: seq<bv8>, n: nat, lv: seq<bool>)
    requires n > 0
    ensures Communicate(address, data, n, lv).count == n
        <==> Take(lv, WriteAcks(data) + 1) == Lows(WriteAcks(data) + 1)
  {
    var w := WriteAcks(data);
    if data != [] {
      TakeStep(lv, w + 1);
      LowsSnoc(Tail(lv), |data|);
      if !Head(lv) {
        if Take(Tail(lv), |data|) == Lows(|data|) {
          SendAllAcked(data, Tail(lv));
        } else if SendAll(data, Tail(lv)).acked {
          SendAllAckedOnlyIf(data, Tail(lv));
        }
      }
    } else {
      TakeStep(lv, 1);
    }
  }

  // ---------------------------------------------------------------------------
  // The write phase seen from the bus

  /** The symbols an observer reads for one byte sent and answered at `level`. */
  function ByteSymbols(b: bv8, level: bool): seq<Symbol>
  {
    Clocks(BitsMSB(b)) + [Read(level), Clock(true)]
  }

  function AckedSymbols(data: seq<bv8>): seq<Symbol>
  {
    if data == [] then [] else ByteSymbols(data[0], false) + AckedSymbols(data[1..])
  }

  /** The symbols an observer reads while the master receives `replies`: the data
      bits, each read during its clock pulse, then the master's acknowledge clock
      (SDA low for ACK, high for the NAK after the last byte). */
  function ReplySymbols(replies: seq<bv8>): seq<Symbol>
  {
    if replies == [] then []
    else ReadClocks(BitsMSB(replies[0])) + [Clock(|replies| == 1)] + ReplySymbols(replies[1..])
  }

  /** Observing a step at the front of a sequence of steps. */
  lemma ObserveFirstStep(s: Step, more: seq<Step>, st: Lines)
    ensures Observe(Expand([s] + more), st)
         == Observe(StepImage(s), st) + Observe(Expand(more), After(StepImage(s), st))
    ensures After(Expand([s] + more), st) == After(Expand(more), After(StepImage(s), st))
  {
    ExpandAppend([s], more);
    ExpandOne(s);
    ObserveAppend(StepImage(s), Expand(more), st);
  }

  lemma {:induction false} ObserveAcked(data: seq<bv8>, st: Lines)
    requires st == Lines(true, false, false)
    ensures Observe(Expand(AckedBytes(data)), st) == AckedSymbols(data)
    ensures After(Expand(AckedBytes(data)), st) == st
  {
    if data != [] {
      ObserveFirstStep(SendStep(data[0], false), AckedBytes(data[1..]), st);
      ObserveSend(data[0], false, st);
      ObserveAcked(data[1..], st);
    }
  }

  lemma {:induction false} ObserveReplies(replies: seq<bv8>, st: Lines)
    requires st == Lines(true, false, false)
    ensures Observe(Expand(ReceiveSteps(replies)), st) == ReplySymbols(replies)
    ensures After(Expand(ReceiveSteps(replies)), st) == st
  {
    if replies != [] {
      var ack := |replies| != 1;
      ObserveFirstStep(ReceiveStep(BitsMSB(replies[0]), ack), ReceiveSteps(replies[1..]), st);
      ObserveReceive(BitsMSB(replies[0]), ack, st);
      ObserveReplies(replies[1..], st);
    }
  }

  /** START and an acknowledged address byte, from a bus with SDA released. */
  lemma ObserveOpening(address: bv8, st: Lines)
    requires st.sda
    ensures Observe(Expand([StartStep, SendStep(address, false)]), st)
         == [StartCondition] + ByteSymbols(address, false)
    ensures After(Expand([StartStep, SendStep(address, false)]), st) == Lines(true, false, false)
  {
    var low := Lines(false, false, false);
    assert [StartStep, SendStep(address, false)] == [StartStep] + [SendStep(address, false)];
    ObserveFirstStep(StartStep, [SendStep(address, false)], st);
    ObserveStart(st);
    ExpandOne(SendStep(address, false));
    ObserveSend(address, false, low);
  }

  /** STOP as written, from SCL low and SDA released: nothing seen, bus idle. */
  lemma ObserveClosing(st: Lines)
    requires st == Lines(true, false, false)
    ensures Observe(Expand([StopStep]), st) == []
    ensures After(Expand([StopStep]), st) == Idle
  {
    ExpandOne(StopStep);
    ObserveStop(st);
  }

  /** A phase seen from a bus with SDA released: START, the address byte with its
      acknowledge clock, what comes between, and then STOP, which as written puts
      no STOP condition on the bus and leaves it idle. */
  lemma ObservePhase(address: bv8, middle: seq<Step>, st: Lines, symbols: seq<Symbol>)
    requires st.sda
    requires Observe(Expand(middle), Lines(true, false, false)) == symbols
    requires After(Expand(middle), Lines(true, false, false)) == Lines(true, false, false)
    ensures Observe(Expand([StartStep, SendStep(address, false)] + middle + [StopStep]), st)
         == [StartCondition] + ByteSymbols(address, false) + symbols
    ensures After(Expand([StartStep, SendStep(address, false)] + middle + [StopStep]), st) == Idle
  {
    var released := Lines(true, false, false);
    var opening := [StartStep, SendStep(address, false)];
    ExpandAppend(opening + middle, [StopStep]);
    ExpandAppend(opening, middle);
    var e1 := Expand(opening);
    var e2 := Expand(middle);
    var e3 := Expand([StopStep]);
    ObserveAppend(e1 + e2, e3, st);
    ObserveAppend(e1, e2, st);
    ObserveOpening(address, st);
    ObserveClosing(released);
    assert [StartCondition] + ByteSymbols(address, false) + symbols + [] == [StartCondition] + ByteSymbols(address, false) + symbols;
  }

  /** An acknowledged write phase, seen from an idle bus: one START, the address
      byte and the data bytes in order, each followed by its acknowledge clock;
      and, because `i2c_stop` finds SDA already released, no STOP condition: the
      bus is left idle without one. */
  lemma ObserveWriteSteps(address: bv8, data: seq<bv8>)
    requires data != []
    ensures Observe(Expand(WriteSteps(address, data)), Idle)
         == [StartCondition] + ByteSymbols(WriteAddress(address), false) + AckedSymbols(data)
    ensures After(Expand(WriteSteps(address, data)), Idle) == Idle
  {
    ObserveAcked(data, Lines(true, false, false));
    ObservePhase(WriteAddress(address), AckedBytes(data), Idle, AckedSymbols(data));
  }

  /** An acknowledged read phase, seen from an idle bus: one START, the read
      address, the slave's bits read during the clock pulses and the master's
      acknowledge clocks, and again no STOP condition. */
  lemma ObserveReadSteps(address: bv8, replies: seq<bv8>)
    requires replies != []
    ensures Observe(Expand(ReadSteps(address, replies)), Idle)
         == [StartCondition] + ByteSymbols(ReadAddress(address), false) + ReplySymbols(replies)
    ensures After(Expand(ReadSteps(address, replies)), Idle) == Idle
  {
    ObserveReplies(replies, Lines(true, false, false));
    ObservePhase(ReadAddress(address), ReceiveSteps(replies), Idle, ReplySymbols(replies));
  }

  /** A whole acknowledged `i2c_communicate` with both phases, seen from an idle
      bus: two START conditions and not one STOP condition, so the bus never
      leaves the transaction the master opened first. */
  lemma ObserveAllAcked(address: bv8, data: seq<bv8>, replies: seq<bv8>)
    requires data != [] && replies != []
    ensures Observe(Expand(WriteSteps(address, data) + ReadSteps(address, replies)), Idle)
         == [StartCondition] + ByteSymbols(WriteAddress(address), false) + AckedSymbols(data)
          + [StartCondition] + ByteSymbols(ReadAddress(address), false) + ReplySymbols(replies)
  {
    var w := WriteSteps(address, data);
    var r := ReadSteps(address, replies);
    ExpandAppend(w, r);
    ObserveAppend(Expand(w), Expand(r), Idle);
    ObserveWriteSteps(address, data);
    ObserveReadSteps(address, replies);
    var a := [StartCondition] + ByteSymbols(WriteAddress(address), false) + AckedSymbols(data);
    var u := ByteSymbols(ReadAddress(address), false);
    Associative(a, [StartCondition] + u, ReplySymbols(replies));
    Associative(a, [StartCondition], u);
  }
}
