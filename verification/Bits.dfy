/** Unsigned 64-bit words as numbers, with the bitwise operators defined bit by bit. */
module Bits {
  const WORD_BITS: nat := 64
  const WORD_SIZE: nat := 0x1_0000_0000_0000_0000

  function Pow2(k: nat): (p: nat)
    ensures p >= 1
  {
    if k == 0 then 1 else 2 * Pow2(k - 1)
  }

  predicate Bit(w: nat, k: nat)
    decreases k
  {
    if k == 0 then w % 2 == 1 else Bit(w / 2, k - 1)
  }

  function And(a: nat, b: nat): nat
    decreases a
  {
    if a == 0 then 0 else 2 * And(a / 2, b / 2) + if a % 2 == 1 && b % 2 == 1 then 1 else 0
  }

  function Or(a: nat, b: nat): nat
    decreases a
  {
    if a == 0 then b else 2 * Or(a / 2, b / 2) + if a % 2 + b % 2 > 0 then 1 else 0
  }

  /** The complement of a word. */
  function Not(a: nat): nat
    requires a < WORD_SIZE
  {
    WORD_SIZE - 1 - a
  }

  // ----- bit by bit ---------------------------------------------------------

  lemma {:induction false} BitZero(k: nat)
    ensures !Bit(0, k)
  {
    if k > 0 {
      BitZero(k - 1);
    }
  }

  lemma {:induction false} BitAnd(a: nat, b: nat, k: nat)
    ensures Bit(And(a, b), k) <==> Bit(a, k) && Bit(b, k)
    decreases a
  {
    if a == 0 {
      BitZero(k);
    } else if k > 0 {
      BitAnd(a / 2, b / 2, k - 1);
      assert And(a, b) / 2 == And(a / 2, b / 2);
    }
  }

  lemma {:induction false} BitOr(a: nat, b: nat, k: nat)
    ensures Bit(Or(a, b), k) <==> Bit(a, k) || Bit(b, k)
    decreases a
  {
    if a == 0 {
      BitZero(k);
    } else if k > 0 {
      BitOr(a / 2, b / 2, k - 1);
      assert Or(a, b) / 2 == Or(a / 2, b / 2);
    }
  }

  lemma {:induction false} BitPow2(i: nat, k: nat)
    ensures Bit(Pow2(i), k) <==> i == k
  {
    if i == 0 && k > 0 {
      BitZero(k - 1);
    } else if i > 0 && k > 0 {
      BitPow2(i - 1, k - 1);
    }
  }

  /** Complement within n bits. */
  lemma {:induction false} BitComplement(a: nat, n: nat, k: nat)
    requires a < Pow2(n) && k < n
    ensures Bit(Pow2(n) - 1 - a, k) <==> !Bit(a, k)
  {
    var c := Pow2(n) - 1 - a;
    if k > 0 {
      assert c / 2 == Pow2(n - 1) - 1 - a / 2;
      BitComplement(a / 2, n - 1, k - 1);
    }
  }

  lemma WordBits()
    ensures Pow2(WORD_BITS) == WORD_SIZE
  {
    assert Pow2(2) == 4;
    Pow2Twice(2, 4);
    Pow2Twice(4, 0x10);
    Pow2Twice(8, 0x100);
    Pow2Twice(16, 0x1_0000);
    Pow2Twice(32, 0x1_0000_0000);
  }

  lemma Pow2Twice(i: nat, p: nat)
    requires Pow2(i) == p
    ensures Pow2(i + i) == p * p
  {
    Pow2Sum(i, i);
  }

  lemma {:induction false} Pow2Sum(i: nat, j: nat)
    ensures Pow2(i + j) == Pow2(i) * Pow2(j)
  {
    if i > 0 {
      Pow2Sum(i - 1, j);
    }
  }

  lemma {:induction false} Pow2Grows(i: nat, j: nat)
    requires i <= j
    ensures Pow2(i) <= Pow2(j)
  {
    if i < j {
      Pow2Grows(i, j - 1);
    }
  }

  lemma BitNot(a: nat, k: nat)
    requires a < WORD_SIZE && k < WORD_BITS
    ensures Bit(Not(a), k) <==> !Bit(a, k)
  {
    WordBits();
    BitComplement(a, WORD_BITS, k);
  }

  lemma {:induction false} OrBound(a: nat, b: nat, n: nat)
    requires a < Pow2(n) && b < Pow2(n)
    ensures Or(a, b) < Pow2(n)
    decreases a
  {
    if a > 0 {
      OrBound(a / 2, b / 2, n - 1);
    }
  }

  lemma {:induction false} AndBound(a: nat, b: nat)
    ensures And(a, b) <= a
    decreases a
  {
    if a > 0 {
      AndBound(a / 2, b / 2);
    }
  }

  /** Words with the same bits are equal. */
  lemma {:induction false} BitsDecide(a: nat, b: nat, n: nat)
    requires a < Pow2(n) && b < Pow2(n) && forall k :: 0 <= k < n ==> (Bit(a, k) <==> Bit(b, k))
    ensures a == b
  {
    if n > 0 {
      assert Bit(a, 0) <==> Bit(b, 0);
      forall k | 0 <= k < n - 1 ensures Bit(a / 2, k) <==> Bit(b / 2, k) {
        assert Bit(a, k + 1) <==> Bit(b, k + 1);
      }
      BitsDecide(a / 2, b / 2, n - 1);
    }
  }

  // ----- powers of two ------------------------------------------------------

  /** The test the source uses. */
  predicate IsPowerOf2(n: nat) {
    n > 0 && And(n, n - 1) == 0
  }

  lemma {:induction false} AndSelf(a: nat)
    ensures And(a, a) == a
  {
    if a > 0 {
      AndSelf(a / 2);
    }
  }

  /** The test recognises the powers of two and nothing else. */
  lemma {:induction false} PowerOf2Exact(n: nat) returns (k: nat)
    ensures IsPowerOf2(n) ==> n == Pow2(k)
    ensures (exists i :: n == Pow2(i)) ==> IsPowerOf2(n)
  {
    k := 0;
    if n > 1 {
      if n % 2 == 1 {
        assert (n - 1) / 2 == n / 2;
        AndSelf(n / 2);
        forall i: nat ensures n != Pow2(i) {
        }
      } else {
        assert (n - 1) / 2 == n / 2 - 1;
        k := PowerOf2Exact(n / 2);
        k := k + 1;
        if exists i :: n == Pow2(i) {
          var i: nat :| n == Pow2(i);
          assert n / 2 == Pow2(i - 1);
        }
      }
    } else if n == 1 {
      assert Pow2(0) == 1;
    }
  }

  /** Masking with a power of two less one is the remainder. */
  lemma {:induction false} MaskIsMod(x: nat, k: nat)
    ensures And(x, Pow2(k) - 1) == x % Pow2(k)
    decreases x
  {
    if x > 0 && k > 0 {
      MaskIsMod(x / 2, k - 1);
      MaskStep(x, Pow2(k - 1), Pow2(k));
    } else {
      MaskEnds(x, Pow2(k));
    }
  }

  lemma MaskEnds(x: nat, n: nat)
    requires n > 0 && (x == 0 || n == 1)
    ensures And(x, n - 1) == x % n
  {
    AndZero(x);
    if x == 0 {
      RemainderIs(0, n, 0, 0);
    }
  }

  lemma MaskStep(x: nat, m: nat, n: nat)
    requires x > 0 && m > 0 && n == 2 * m && And(x / 2, m - 1) == (x / 2) % m
    ensures And(x, n - 1) == x % n
  {
    assert (n - 1) / 2 == m - 1 && (n - 1) % 2 == 1;
    HalfMod(x, m);
  }

  lemma {:induction false} AndZero(x: nat)
    ensures And(x, 0) == 0
  {
    if x > 0 {
      AndZero(x / 2);
    }
  }

  lemma HalfMod(x: nat, m: nat)
    requires m > 0
    ensures x % (2 * m) == 2 * ((x / 2) % m) + x % 2
  {
    var q, r := (x / 2) / m, (x / 2) % m;
    assert x / 2 == m * q + r;
    var s := 2 * r + x % 2;
    assert x == (2 * m) * q + s;
    RemainderIs(x, 2 * m, q, s);
  }

  lemma RemainderIs(x: nat, d: nat, q: nat, r: nat)
    requires x == d * q + r && r < d
    ensures x % d == r && x / d == q
  {
    var q', r' := x / d, x % d;
    assert x == d * q' + r';
    assert d * (q - q') == d * q - d * q';
    SmallMultiple(d, q - q');
  }

  lemma SmallMultiple(d: int, e: int)
    requires d >= 0 && -d < d * e < d
    ensures e == 0
  {
    if e >= 1 {
      ProductAtLeast(d, e);
    } else if e <= -1 {
      ProductAtMost(d, e);
    }
  }

  lemma ProductAtLeast(d: nat, e: int)
    requires e >= 1
    ensures d * e >= d
  {
  }

  lemma ProductAtMost(d: int, e: int)
    requires d >= 0 && e <= -1
    ensures d * e <= -d
  {
  }

  /** A power of two that fits in a word divides the size of the word. */
  lemma WordMultiple(k: nat) returns (q: nat)
    requires Pow2(k) < WORD_SIZE
    ensures WORD_SIZE == Pow2(k) * q && q >= 1
  {
    WordBits();
    if k >= WORD_BITS {
      Pow2Grows(WORD_BITS, k);
    }
    Pow2Sum(k, WORD_BITS - k);
    q := Pow2(WORD_BITS - k);
  }
}
