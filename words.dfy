/**
 * C#'s `ulong` and its `^` operator, as integers.
 *
 * The hash values are 64-bit words combined only with exclusive or. `Xor`
 * computes it bit by bit from the low end, so its algebra (zero is neutral,
 * it is commutative and associative, every word cancels itself) is proved by
 * induction on the words, and it keeps results below 2^64.
 */
module Words {

  /** The values of a C# `ulong`. */
  type ULong = x: int | 0 <= x < 0x1_0000_0000_0000_0000

  function Pow2(k: nat): nat
  {
    if k == 0 then 1 else 2 * Pow2(k - 1)
  }

  /** Bitwise exclusive or: the low bit is the parity of the two low bits, the rest is the `Xor` of the halves. */
  function Xor(a: nat, b: nat): nat
    decreases a + b
  {
    if a == 0 && b == 0 then 0 else 2 * Xor(a / 2, b / 2) + (a + b) % 2
  }

  /** `a ^ b` on two `ulong`s. */
  function XorWord(a: ULong, b: ULong): (r: ULong)
    ensures r == Xor(a, b)
  {
    Pow2Of64();
    XorBound(a, b, 64);
    Xor(a, b)
  }

  lemma {:induction false} XorZero(a: nat)
    ensures Xor(a, 0) == a
  {
    if a != 0 {
      XorZero(a / 2);
    }
  }

  lemma {:induction false} XorSelf(a: nat)
    ensures Xor(a, a) == 0
  {
    if a != 0 {
      XorSelf(a / 2);
    }
  }

  lemma {:induction false} XorComm(a: nat, b: nat)
    ensures Xor(a, b) == Xor(b, a)
    decreases a + b
  {
    if a != 0 || b != 0 {
      XorComm(a / 2, b / 2);
    }
  }

  lemma {:induction false} XorAssoc(a: nat, b: nat, c: nat)
    ensures Xor(Xor(a, b), c) == Xor(a, Xor(b, c))
    decreases a + b + c
  {
    if a != 0 || b != 0 || c != 0 {
      XorAssoc(a / 2, b / 2, c / 2);
      XorHalves(a, b);
      XorHalves(b, c);
      var x, y := Xor(a, b), Xor(b, c);
      XorSplit(x, c, Xor(a / 2, b / 2), (a + b) % 2);
      XorComm(a, y);
      XorSplit(y, a, Xor(b / 2, c / 2), (b + c) % 2);
      XorComm(a / 2, Xor(b / 2, c / 2));
      ParityMoves((a + b) % 2, (b + c) % 2, a, b, c);
    }
  }

  /** The order in which two words are mixed into a third does not matter. */
  lemma XorSwap(a: nat, b: nat, c: nat)
    ensures Xor(Xor(a, b), c) == Xor(Xor(a, c), b)
  {
    XorAssoc(a, b, c);
    XorComm(b, c);
    XorAssoc(a, c, b);
  }

  /** A word common to both sides cancels. */
  lemma XorCancel(a: nat, b: nat, c: nat)
    ensures Xor(Xor(a, b), Xor(a, c)) == Xor(b, c)
  {
    var bc := Xor(b, c);
    XorAssoc(a, b, Xor(a, c));
    XorAssoc(b, a, c);
    XorComm(a, b);
    XorAssoc(a, b, c);
    XorAssoc(a, a, bc);
    XorSelf(a);
    XorComm(0, bc);
    XorZero(bc);
  }

  /** Words below 2^k have their `Xor` below 2^k. */
  lemma {:induction false} XorBound(a: nat, b: nat, k: nat)
    requires a < Pow2(k) && b < Pow2(k)
    ensures Xor(a, b) < Pow2(k)
  {
    if k > 0 && (a != 0 || b != 0) {
      XorBound(a / 2, b / 2, k - 1);
    }
  }

  /** The high bits and the low bit of an `Xor`. */
  lemma XorHalves(a: nat, b: nat)
    ensures Xor(a, b) / 2 == Xor(a / 2, b / 2) && Xor(a, b) % 2 == (a + b) % 2
  {
  }

  /** One unfolding of `Xor(x, c)`, with the halves and low bit of `x` named. */
  lemma XorSplit(x: nat, c: nat, h: nat, p: nat)
    requires x / 2 == h && x % 2 == p
    ensures Xor(x, c) == 2 * Xor(h, c / 2) + (p + c) % 2
  {
    assert Xor(x, c) == 2 * Xor(x / 2, c / 2) + (x + c) % 2;
    ParityShift(x, p, c);
  }

  lemma ParityShift(x: nat, p: nat, c: nat)
    requires x % 2 == p
    ensures (x + c) % 2 == (p + c) % 2
  {
  }

  lemma ParityMoves(p: nat, q: nat, a: nat, b: nat, c: nat)
    requires p == (a + b) % 2 && q == (b + c) % 2
    ensures (p + c) % 2 == (a + q) % 2
  {
  }

  lemma {:induction false} Pow2Add(j: nat, k: nat)
    ensures Pow2(j + k) == Pow2(j) * Pow2(k)
  {
    if j != 0 {
      Pow2Add(j - 1, k);
    }
  }

  lemma Pow2Of64()
    ensures Pow2(64) == 0x1_0000_0000_0000_0000
  {
    assert Pow2(1) == 2;
    Pow2Add(1, 1);
    assert Pow2(2) == 4;
    Pow2Add(2, 2);
    assert Pow2(4) == 16;
    Pow2Add(4, 4);
    assert Pow2(8) == 0x100;
    Pow2Add(8, 8);
    assert Pow2(16) == 0x1_0000;
    Pow2Add(16, 16);
    assert Pow2(32) == 0x1_0000_0000;
    Pow2Add(32, 32);
  }
}
