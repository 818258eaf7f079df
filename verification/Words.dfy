/** 32-bit words as numbers, with the C operators the address arithmetic uses. */
module Words {
  const WORD: nat := 0x1_0000_0000

  type Word = w: nat | w < WORD

  function And(a: nat, b: nat): (r: nat)
    ensures r <= b
  {
    if a == 0 || b == 0 then 0 else 2 * And(a / 2, b / 2) + if a % 2 == 1 && b % 2 == 1 then 1 else 0
  }

  function Or(a: nat, b: nat): nat {
    if a == 0 then b else if b == 0 then a else 2 * Or(a / 2, b / 2) + (if a % 2 == 1 || b % 2 == 1 then 1 else 0)
  }

  function Not(a: Word): Word {
    WORD - 1 - a
  }

  /** A word read as a C `int`. */
  function Signed(a: Word): (r: int)
    ensures -0x8000_0000 <= r < 0x8000_0000 && (r - a) % WORD == 0
  {
    if a < 0x8000_0000 then a else a - WORD
  }

  lemma {:induction false} OrBelow(a: nat, b: nat, k: nat)
    requires a < Power(k) && b < Power(k)
    ensures Or(a, b) < Power(k)
  {
    if a != 0 && b != 0 {
      OrBelow(a / 2, b / 2, k - 1);
    }
  }

  function Power(k: nat): (r: nat)
    ensures r >= 1
  {
    if k == 0 then 1 else 2 * Power(k - 1)
  }

  lemma WordIsPower()
    ensures Power(32) == WORD
  {
    assert Power(8) == 256;
    assert Power(16) == 65536;
    assert Power(24) == 0x100_0000;
  }

  function OrWord(a: Word, b: Word): (r: Word)
  {
    WordIsPower();
    OrBelow(a, b, 32);
    Or(a, b)
  }

  /** All ones from the lowest bit up: the host part of a contiguous mask. */
  ghost predicate Ones(h: nat) {
    h == 0 || (h % 2 == 1 && Ones(h / 2))
  }

  lemma Bits(a: nat, b: nat)
    ensures And(a, b) == 2 * And(a / 2, b / 2) + if a % 2 == 1 && b % 2 == 1 then 1 else 0
    ensures Or(a, b) == 2 * Or(a / 2, b / 2) + if a % 2 == 1 || b % 2 == 1 then 1 else 0
  {
    assert a == 2 * (a / 2) + a % 2 && b == 2 * (b / 2) + b % 2;
  }

  /** Bit `k`, counted from the lowest one. */
  predicate Bit(x: nat, k: nat)
    decreases k
  {
    if k == 0 then x % 2 == 1 else Bit(x / 2, k - 1)
  }

  /** The operators work bit by bit. */
  lemma {:induction false} BitByBit(a: nat, b: nat, k: nat)
    ensures Bit(And(a, b), k) == (Bit(a, k) && Bit(b, k)) && Bit(Or(a, b), k) == (Bit(a, k) || Bit(b, k))
    decreases k
  {
    Halves(a, b);
    hide And, Or;
    if k > 0 {
      BitByBit(a / 2, b / 2, k - 1);
    }
  }

  lemma Halves(a: nat, b: nat)
    ensures And(a, b) / 2 == And(a / 2, b / 2) && (And(a, b) % 2 == 1 <==> a % 2 == 1 && b % 2 == 1)
    ensures Or(a, b) / 2 == Or(a / 2, b / 2) && (Or(a, b) % 2 == 1 <==> a % 2 == 1 || b % 2 == 1)
  {
    Bits(a, b);
    hide And, Or;
  }

  /** A power of two has one bit. */
  lemma {:induction false} BitPower(j: nat, k: nat)
    ensures Bit(Power(j), k) == (j == k)
    decreases j
  {
    if j > 0 && k > 0 {
      BitPower(j - 1, k - 1);
    } else if j == 0 && k > 0 {
      NoBit(k - 1);
    }
  }

  lemma {:induction false} NoBit(k: nat)
    ensures !Bit(0, k)
  {
    if k > 0 {
      NoBit(k - 1);
    }
  }

  lemma {:induction false} BitsTurned(n: nat, a: nat, k: nat)
    requires a < Power(n) && k < n
    ensures Bit(Power(n) - 1 - a, k) == !Bit(a, k)
  {
    assert Power(n) - 1 - a == 2 * (Power(n - 1) - 1 - a / 2) + (1 - a % 2);
    if k > 0 {
      assert (Power(n) - 1 - a) / 2 == Power(n - 1) - 1 - a / 2;
      BitsTurned(n - 1, a / 2, k - 1);
    }
  }

  /** Every bit of a word is turned. */
  lemma NotBits(a: Word, k: nat)
    requires k < 32
    ensures Bit(Not(a), k) == !Bit(a, k)
  {
    WordIsPower();
    BitsTurned(32, a, k);
  }

  /** The lowest bit of a masked address, and the rest of it. */
  lemma MaskedBits(net: nat, i: nat, host: nat)
    ensures And(Or(net, i), host)
      == 2 * And(Or(net / 2, i / 2), host / 2) + (if net % 2 == 1 || i % 2 == 1 then host % 2 else 0)
  {
    var o := Or(net, i);
    Bits(net, i);
    assert o / 2 == Or(net / 2, i / 2) && o % 2 == if net % 2 == 1 || i % 2 == 1 then 1 else 0;
    Bits(o, host);
  }

  /** What a lookup computes from an address it was given is the index that went in. */
  ghost predicate Recovers(net: nat, host: nat) {
    forall i | 0 <= i <= host :: And(Or(net, i), host) == i
  }

  lemma {:induction false} OnesRecover(net: nat, host: nat, i: nat)
    requires Ones(host) && And(net, host) == 0 && i <= host
    ensures And(Or(net, i), host) == i
  {
    MaskedBits(net, i, host);
    Bits(net, host);
    if host != 0 {
      OnesRecover(net / 2, host / 2, i / 2);
    }
  }

  lemma {:induction false} RecoversOnes(net: nat, host: nat)
    requires Recovers(net, host)
    ensures Ones(host) && And(net, host) == 0
  {
    if host != 0 {
      assert host % 2 == 1 by {
        assert And(Or(net, 1), host) == 1;
        MaskedBits(net, 1, host);
      }
      assert net % 2 == 0 by {
        assert And(Or(net, 0), host) == 0;
        MaskedBits(net, 0, host);
      }
      forall i | 0 <= i <= host / 2
        ensures And(Or(net / 2, i), host / 2) == i
      {
        assert And(Or(net, 2 * i), host) == 2 * i;
        MaskedBits(net, 2 * i, host);
      }
      RecoversOnes(net / 2, host / 2);
      Bits(net, host);
    }
  }

  /** Every index survives the trip through an address exactly when the mask is contiguous and the net has no host bits. */
  lemma AddressesRecover(net: nat, host: nat)
    ensures Recovers(net, host) <==> Ones(host) && And(net, host) == 0
  {
    if Recovers(net, host) {
      RecoversOnes(net, host);
    } else if Ones(host) && And(net, host) == 0 {
      forall i | 0 <= i <= host
        ensures And(Or(net, i), host) == i
      {
        OnesRecover(net, host, i);
      }
    }
  }
}
