/** What the layers above the DWC2 controller share of it: the DMA window, and the packet size of an endpoint. */
module Dwc2 {
  import opened Arith

  /** The control transfers' part of the window; the video part follows it. */
  const EP0_REGION_BYTES: nat := 1024

  /** The low 11 bits of wMaxPacketSize; the controller takes one packet a micro-frame. */
  function WmaxMps(mpsRaw: nat): (mps: nat)
    ensures mps <= 2047
  {
    mpsRaw % 0x800
  }

  /** The bit of value 2^i. */
  function Bit(x: nat, i: nat): nat {
    x / Pow2(i) % 2
  }

  /** The mask 0x7FF, bit by bit: the low eleven are kept and all others are zero. */
  lemma LowElevenBits(mpsRaw: nat, i: nat)
    ensures Bit(WmaxMps(mpsRaw), i) == if i < 11 then Bit(mpsRaw, i) else 0
  {
    hide Pow2;
    Pow2Of11();
    if i < 11 {
      var q, d, e := mpsRaw / 0x800, Pow2(i), Pow2(10 - i);
      Pow2Add(i, 10 - i);
      calc {
        q * 0x800;
        q * (2 * (d * e));
        { Regroup(q, d, e); }
        2 * (q * e) * d;
      }
      HigherBits(WmaxMps(mpsRaw), q * e, d);
    } else {
      Pow2Monotone(11, i);
      QuotientUnique(WmaxMps(mpsRaw), Pow2(i), 0, WmaxMps(mpsRaw));
    }
  }

  lemma Regroup(q: nat, d: nat, e: nat)
    ensures q * (2 * (d * e)) == 2 * (q * e) * d
  {
  }

  /** An even multiple of d does not show in the bit of value d. */
  lemma HigherBits(x: nat, k: nat, d: nat)
    requires d >= 1
    ensures (2 * k * d + x) / d % 2 == x / d % 2
  {
    Distribute(2 * k, x / d, d);
    QuotientUnique(2 * k * d + x, d, 2 * k + x / d, x % d);
    EvenAddsNothing(k, x / d);
  }

  lemma EvenAddsNothing(k: nat, y: nat)
    ensures (2 * k + y) % 2 == y % 2
  {
  }

  lemma Pow2Of11()
    ensures Pow2(10) == 1024 && Pow2(11) == 2048
  {
    assert Pow2(5) == 32;
    Pow2Add(5, 5);
  }
}
