/** Bit order of a byte on the I2C data line: most significant bit first
    (section 3.1.5 of the NXP I2C-bus specification UM10204). */
module Bits {

  /** The eight bits of `b` in the order they travel on SDA: bit 7 first.
      `true` is a 1 bit, i.e. a released (high) data line. */
  function BitsMSB(b: bv8): (s: seq<bool>)
    ensures |s| == 8
  {
    [b & 0x80 != 0, b & 0x40 != 0, b & 0x20 != 0, b & 0x10 != 0,
     b & 0x08 != 0, b & 0x04 != 0, b & 0x02 != 0, b & 0x01 != 0]
  }

  /** The byte assembled from bits arriving most significant first: every new
      bit shifts what was gathered so far one place to the left. */
  function FromBitsMSB(s: seq<bool>): bv8
  {
    if s == [] then 0
    else (FromBitsMSB(s[..|s| - 1]) << 1) | (if s[|s| - 1] then 1 else 0)
  }

  /** `b` shifted left `k` times, one place at a time, as the sending loops do
      (`byte = (byte << 1) & 0xFF` once per round). */
  function ShiftedBy(b: bv8, k: nat): bv8
  {
    if k == 0 then b else (ShiftedBy(b, k - 1) << 1) & 0xFF
  }

  /** One shift to the left moves every wire bit one place earlier. */
  lemma ShiftOnceBits(x: bv8, y: bv8)
    requires y == (x << 1) & 0xFF
    ensures forall j :: 0 <= j < 7 ==> BitsMSB(y)[j] == BitsMSB(x)[j + 1]
  {
    assert BitsMSB(y)[..7] == BitsMSB(x)[1..];
  }

  /** After `k` shifts the wire bits of `b` from place `k` on come first. */
  lemma {:induction false} ShiftedByBits(b: bv8, k: nat)
    requires k < 8
    ensures forall j :: 0 <= j < 8 - k ==> BitsMSB(ShiftedBy(b, k))[j] == BitsMSB(b)[k + j]
  {
    if k > 0 {
      ShiftedByBits(b, k - 1);
      ShiftOnceBits(ShiftedBy(b, k - 1), ShiftedBy(b, k));
    }
  }

  lemma TopBit(x: bv8)
    ensures BitsMSB(x)[0] == (x & 0x80 != 0)
  {
  }

  /** Bit `k` of the wire order is the top bit of `b` once shifted left `k` times,
      which is what the sending loops test every round (`byte & 128`). */
  lemma ShiftedTopBit(b: bv8, k: nat)
    requires k < 8
    ensures (ShiftedBy(b, k) & 0x80 != 0) == BitsMSB(b)[k]
  {
    ShiftedByBits(b, k);
    TopBit(ShiftedBy(b, k));
    assert BitsMSB(ShiftedBy(b, k))[0] == BitsMSB(b)[k + 0];
  }

  /** Receiving one more bit: the byte gathered so far moves one place left and
      the new bit fills the bottom. */
  lemma FromBitsMSBSnoc(s: seq<bool>, bit: bool)
    ensures FromBitsMSB(s + [bit]) == (FromBitsMSB(s) << 1) | (if bit then 1 else 0)
  {
    assert (s + [bit])[..|s|] == s;
  }

  /** Each bit of an assembled byte sits at the place its arrival order gives it:
      of `n` bits, the `k`-th to arrive ends up `n - 1 - k` places from the bottom. */
  lemma {:induction false} FromBitsMSBBit(s: seq<bool>, k: nat)
    requires k < |s| <= 8
    ensures ((FromBitsMSB(s) >> (|s| - 1 - k)) & 1 != 0) == s[k]
  {
    var n := |s|;
    var front := s[..n - 1];
    var bit: bv8 := if s[n - 1] then 1 else 0;
    assert FromBitsMSB(s) == (FromBitsMSB(front) << 1) | bit;
    if k < n - 1 {
      FromBitsMSBBit(front, k);
      assert front[k] == s[k];
      var v := FromBitsMSB(front);
      var d := n - 2 - k;
      assert ((((v << 1) | bit) >> (d + 1)) & 1) == ((v >> d) & 1) by {
        assert d < 7;
        if d == 0 {
        } else if d == 1 {
        } else if d == 2 {
        } else if d == 3 {
        } else if d == 4 {
        } else if d == 5 {
        } else {
        }
      }
    }
  }

  /** Bit `k` of the wire order is the bit `7 - k` places from the bottom. */
  lemma WireBit(v: bv8, k: nat)
    requires k < 8
    ensures BitsMSB(v)[k] == ((v >> (7 - k)) & 1 != 0)
  {
    if k == 0 {
    } else if k == 1 {
    } else if k == 2 {
    } else if k == 3 {
    } else if k == 4 {
    } else if k == 5 {
    } else if k == 6 {
    } else {
    }
  }

  /** Round trip the other way: eight received bits survive assembly unchanged. */
  lemma BitsMSBOfFromBitsMSB(s: seq<bool>)
    requires |s| == 8
    ensures BitsMSB(FromBitsMSB(s)) == s
  {
    var v := FromBitsMSB(s);
    forall k | 0 <= k < 8
      ensures BitsMSB(v)[k] == s[k]
    {
      FromBitsMSBBit(s, k);
      WireBit(v, k);
    }
  }

  /** A byte is determined by its wire bits. */
  lemma BitsMSBInjective(x: bv8, y: bv8)
    requires BitsMSB(x) == BitsMSB(y)
    ensures x == y
  {
    assert BitsMSB(x)[0] == BitsMSB(y)[0];
    assert BitsMSB(x)[1] == BitsMSB(y)[1];
    assert BitsMSB(x)[2] == BitsMSB(y)[2];
    assert BitsMSB(x)[3] == BitsMSB(y)[3];
    assert BitsMSB(x)[4] == BitsMSB(y)[4];
    assert BitsMSB(x)[5] == BitsMSB(y)[5];
    assert BitsMSB(x)[6] == BitsMSB(y)[6];
    assert BitsMSB(x)[7] == BitsMSB(y)[7];
  }

  /** Round trip: assembling the wire bits of `b` gives back `b`. */
  lemma FromBitsMSBOfBitsMSB(b: bv8)
    ensures FromBitsMSB(BitsMSB(b)) == b
  {
    BitsMSBOfFromBitsMSB(BitsMSB(b));
    BitsMSBInjective(FromBitsMSB(BitsMSB(b)), b);
  }

  /** C's conversion of an `int` to `uint8_t`: the value modulo 256. */
  function Uint8(v: int): bv8
  {
    (v % 256) as bv8
  }

  /** A byte widened to `int` and narrowed again is unchanged. */
  lemma Uint8OfByte(b: bv8)
    ensures Uint8(b as int) == b
  {
    var i := b as int;
    assert i % 256 == i;
  }

  /** `-1` narrowed to `uint8_t` is `0xFF`. */
  lemma Uint8OfMinusOne()
    ensures Uint8(-1) == 0xFF
  {
    assert -1 % 256 == 255;
  }
}
