/** Bitsets of 64-bit words with a hint where the search for a clear bit may start: the one of
    the slab allocator, and an earlier one whose hint is not always right. */
module Bitset {
  import opened Bits

  // ----- words --------------------------------------------------------------

  /** word_first_zero: the least clear bit of a word, or -1. */
  function WordFirstZero(w: nat): int
    requires w < WORD_SIZE
  {
    if Not(w) == 0 then -1 else Ctz(Not(w))
  }

  function Ctz(v: nat): nat
    requires v > 0
  {
    if v % 2 == 1 then 0 else 1 + Ctz(v / 2)
  }

  lemma {:induction false} CtzLeast(v: nat, n: nat)
    requires 0 < v < Pow2(n)
    ensures Ctz(v) < n && Bit(v, Ctz(v)) && forall k :: 0 <= k < Ctz(v) ==> !Bit(v, k)
  {
    if v % 2 == 0 {
      CtzLeast(v / 2, n - 1);
      forall k | 0 <= k < Ctz(v) ensures !Bit(v, k) {
        if k > 0 {
          assert !Bit(v / 2, k - 1);
        }
      }
    }
  }

  lemma WordFirstZeroExact(w: nat)
    requires w < WORD_SIZE
    ensures var k := WordFirstZero(w);
            if k < 0 then forall j :: 0 <= j < WORD_BITS ==> Bit(w, j)
            else k < WORD_BITS && !Bit(w, k) && forall j :: 0 <= j < k ==> Bit(w, j)
  {
    WordBits();
    forall j | 0 <= j < WORD_BITS ensures Bit(Not(w), j) <==> !Bit(w, j) {
      BitNot(w, j);
    }
    if Not(w) > 0 {
      CtzLeast(Not(w), WORD_BITS);
    } else {
      forall j | 0 <= j < WORD_BITS ensures Bit(w, j) {
        BitZero(j);
      }
    }
  }

  // ----- sequences of words -------------------------------------------------

  ghost predicate WordsOk(ws: seq<nat>) {
    forall i {:trigger ws[i]} :: 0 <= i < |ws| ==> ws[i] < WORD_SIZE
  }

  predicate Holds(ws: seq<nat>, n: nat)
    requires n / WORD_BITS < |ws|
  {
    Bit(ws[n / WORD_BITS], n % WORD_BITS)
  }

  predicate FullWord(w: nat)
    requires w < WORD_SIZE
  {
    WordFirstZero(w) < 0
  }

  /** Every word below the hint is full. */
  ghost predicate Hinted(ws: seq<nat>, hint: nat)
    requires WordsOk(ws)
  {
    forall i {:trigger ws[i]} :: 0 <= i < hint && i < |ws| ==> FullWord(ws[i])
  }

  /** What the scan from word i finds. */
  function Least(ws: seq<nat>, i: nat): int
    requires i <= |ws| && WordsOk(ws)
    decreases |ws| - i
  {
    if i == |ws| then -1
    else if FullWord(ws[i]) then Least(ws, i + 1)
    else WORD_BITS * i + WordFirstZero(ws[i])
  }

  /** The scan finds the least clear bit at or after word i, and -1 exactly when there is none. */
  lemma {:induction false} LeastExact(ws: seq<nat>, i: nat)
    requires i <= |ws| && WordsOk(ws)
    ensures var r := Least(ws, i);
            && (r < 0 <==> forall n :: WORD_BITS * i <= n < WORD_BITS * |ws| ==> Holds(ws, n))
            && (r >= 0 ==> WORD_BITS * i <= r < WORD_BITS * |ws| && !Holds(ws, r))
            && (forall n :: WORD_BITS * i <= n < r ==> Holds(ws, n))
    decreases |ws| - i
  {
    if i < |ws| {
      LeastExact(ws, i + 1);
      WordFirstZeroExact(ws[i]);
      var k := WordFirstZero(ws[i]);
      forall n | WORD_BITS * i <= n < WORD_BITS * (i + 1) ensures Holds(ws, n) <==> Bit(ws[i], n - WORD_BITS * i) {
        assert n / WORD_BITS == i && n % WORD_BITS == n - WORD_BITS * i;
      }
      if k >= 0 {
        assert !Holds(ws, WORD_BITS * i + k);
      }
    }
  }

  /** Searching from the hint finds what searching from the start finds exactly when every word
      below the hint is full. */
  lemma {:induction false} HintExact(ws: seq<nat>, hint: nat)
    requires hint <= |ws| && WordsOk(ws)
    ensures Least(ws, hint) == Least(ws, 0) <==> Hinted(ws, hint)
  {
    if hint > 0 {
      HintExact(ws, hint - 1);
      LeastExact(ws, hint);
      LeastExact(ws, hint - 1);
      LeastExact(ws, 0);
      WordFirstZeroExact(ws[hint - 1]);
      if Hinted(ws, hint - 1) && !FullWord(ws[hint - 1]) {
        assert Least(ws, 0) == WORD_BITS * (hint - 1) + WordFirstZero(ws[hint - 1]);
      }
      if !Hinted(ws, hint - 1) {
        var i :| 0 <= i < hint - 1 && !FullWord(ws[i]);
        WordFirstZeroExact(ws[i]);
        var n := WORD_BITS * i + WordFirstZero(ws[i]);
        assert n / WORD_BITS == i && n % WORD_BITS == n - WORD_BITS * i;
        assert !Holds(ws, n);
      }
    }
  }

  function SetBit(ws: seq<nat>, n: nat): seq<nat>
    requires n / WORD_BITS < |ws|
  {
    ws[n / WORD_BITS := Or(ws[n / WORD_BITS], Pow2(n % WORD_BITS))]
  }

  function ClearBit(ws: seq<nat>, n: nat): seq<nat>
    requires n / WORD_BITS < |ws| && Pow2(n % WORD_BITS) < WORD_SIZE
  {
    ws[n / WORD_BITS := And(ws[n / WORD_BITS], Not(Pow2(n % WORD_BITS)))]
  }

  lemma OneBit(n: nat)
    ensures Pow2(n % WORD_BITS) < WORD_SIZE
  {
    WordBits();
    Pow2Grows(n % WORD_BITS, WORD_BITS - 1);
  }

  lemma SetBitExact(ws: seq<nat>, n: nat, m: nat)
    requires WordsOk(ws) && n / WORD_BITS < |ws| && m / WORD_BITS < |ws|
    ensures WordsOk(SetBit(ws, n)) && (Holds(SetBit(ws, n), m) <==> m == n || Holds(ws, m))
  {
    var i := n / WORD_BITS;
    OneBit(n);
    WordBits();
    OrBound(ws[i], Pow2(n % WORD_BITS), WORD_BITS);
    BitOr(ws[i], Pow2(n % WORD_BITS), m % WORD_BITS);
    BitPow2(n % WORD_BITS, m % WORD_BITS);
  }

  lemma ClearBitExact(ws: seq<nat>, n: nat, m: nat)
    requires WordsOk(ws) && n / WORD_BITS < |ws| && m / WORD_BITS < |ws|
    ensures Pow2(n % WORD_BITS) < WORD_SIZE && WordsOk(ClearBit(ws, n))
    ensures Holds(ClearBit(ws, n), m) <==> m != n && Holds(ws, m)
  {
    var i, b := n / WORD_BITS, n % WORD_BITS;
    OneBit(n);
    AndBound(ws[i], Not(Pow2(b)));
    BitAnd(ws[i], Not(Pow2(b)), m % WORD_BITS);
    BitNot(Pow2(b), m % WORD_BITS);
    BitPow2(b, m % WORD_BITS);
  }

  lemma FullExact(w: nat)
    requires w < WORD_SIZE
    ensures FullWord(w) <==> forall j :: 0 <= j < WORD_BITS ==> Bit(w, j)
  {
    WordFirstZeroExact(w);
  }

  /** Setting a bit empties no word, so the hint stays right, and so does any lower one. */
  lemma SetKeepsHint(ws: seq<nat>, hint: nat, hint': nat, n: nat)
    requires WordsOk(ws) && n / WORD_BITS < |ws| && Hinted(ws, hint) && hint' <= hint
    ensures WordsOk(SetBit(ws, n)) && Hinted(SetBit(ws, n), hint')
  {
    SetBitExact(ws, n, n);
    forall i | 0 <= i < hint' && i < |ws| ensures FullWord(SetBit(ws, n)[i]) {
      FullExact(ws[i]);
      forall j | 0 <= j < WORD_BITS ensures Bit(SetBit(ws, n)[i], j) {
        BitOr(ws[i], Pow2(n % WORD_BITS), j);
      }
      FullExact(SetBit(ws, n)[i]);
    }
  }

  /** After clearing a bit, a hint at or below its word is right exactly when it was before. */
  lemma ClearKeepsHint(ws: seq<nat>, hint: nat, n: nat)
    requires WordsOk(ws) && n / WORD_BITS < |ws| && hint <= n / WORD_BITS
    ensures Pow2(n % WORD_BITS) < WORD_SIZE && WordsOk(ClearBit(ws, n))
    ensures Hinted(ClearBit(ws, n), hint) <==> Hinted(ws, hint)
  {
    ClearBitExact(ws, n, n);
    forall i | 0 <= i < hint ensures ClearBit(ws, n)[i] == ws[i] {
    }
  }

  lemma {:induction false} Multiple64(k: nat)
    requires k >= 6
    ensures Pow2(k) % WORD_BITS == 0
  {
    if k == 6 {
      assert Pow2(6) == 64;
    } else {
      Multiple64(k - 1);
    }
  }

  lemma {:induction false} Below64(k: nat)
    requires k < 6
    ensures Pow2(k) < WORD_BITS
  {
    assert Pow2(5) == 32;
    Pow2Grows(k, 5);
  }

  lemma WholeWords(size: nat)
    requires IsPowerOf2(size) && size / WORD_BITS > 0
    ensures size % WORD_BITS == 0
  {
    var k := PowerOf2Exact(size);
    if k < 6 {
      Below64(k);
    } else {
      Multiple64(k);
    }
  }

  ghost function Used(ws: seq<nat>, size: nat): (u: set<nat>)
    requires size <= WORD_BITS * |ws|
    ensures forall n: nat :: n in u <==> n < size && Holds(ws, n)
  {
    set n: nat | n < size && Holds(ws, n)
  }

  // ----- the bitset of the slab allocator -----------------------------------

  class Bitset {
    const size: nat
    const words: array<nat>
    var last: nat

    /** The words below the hint are full. */
    ghost predicate Valid()
      reads this, words
    {
      && size == WORD_BITS * words.Length && last < words.Length
      && WordsOk(words[..]) && Hinted(words[..], last)
    }

    ghost function Members(): (u: set<nat>)
      requires Valid()
      reads this, words
    {
      Used(words[..], size)
    }

    constructor (size: nat)
      requires IsPowerOf2(size) && size / WORD_BITS > 0
      ensures Valid() && Members() == {} && this.size == size && fresh(words) && last == 0
    {
      WholeWords(size);
      this.size := size;
      words := new nat[size / WORD_BITS](_ => 0);
      last := 0;
      new;
      forall n: nat | n < size ensures !Holds(words[..], n) {
        BitZero(n % WORD_BITS);
      }
    }

    /** The least clear bit, or -1 exactly when all are set. */
    method FirstZero() returns (r: int)
      requires Valid()
      modifies this
      ensures Valid() && Members() == old(Members())
      ensures r < 0 ==> forall n :: 0 <= n < size ==> n in Members()
      ensures r >= 0 ==> r < size && r !in Members() && forall n :: 0 <= n < r ==> n in Members()
      ensures last == if r < 0 then old(last) else r / WORD_BITS
    {
      var i := 0;
      while i < words.Length
        invariant 0 <= i <= words.Length && Hinted(words[..], i)
        invariant Least(words[..], 0) == Least(words[..], i)
      {
        var bit := WordFirstZero(words[i]);
        if bit >= 0 {
          WordFirstZeroExact(words[i]);
          last := i;
          LeastExact(words[..], 0);
          return WORD_BITS * i + bit;
        }
        i := i + 1;
      }
      LeastExact(words[..], 0);
      return -1;
    }

    /** bitset_op with |= */
    method Add(n: nat)
      requires Valid() && n < size
      modifies this, words
      ensures Valid() && Members() == old(Members()) + {n}
      ensures last == if n / WORD_BITS < old(last) then n / WORD_BITS else old(last)
    {
      var w := n / WORD_BITS;
      SetKeepsHint(words[..], last, if w < last then w else last, n);
      ghost var ws := words[..];
      words[w] := Or(words[w], Pow2(n % WORD_BITS));
      assert words[..] == SetBit(ws, n);
      forall m: nat | m < size ensures Holds(words[..], m) <==> m == n || Holds(ws, m) {
        SetBitExact(ws, n, m);
      }
      if w < last {
        last := w;
      }
    }

    /** bitset_op with &= ~ */
    method Remove(n: nat)
      requires Valid() && n < size
      modifies this, words
      ensures Valid() && Members() == old(Members()) - {n}
      ensures last == if n / WORD_BITS < old(last) then n / WORD_BITS else old(last)
    {
      var w := n / WORD_BITS;
      ClearKeepsHint(words[..], if w < last then w else last, n);
      ghost var ws := words[..];
      words[w] := And(words[w], Not(Pow2(n % WORD_BITS)));
      assert words[..] == ClearBit(ws, n);
      forall m: nat | m < size ensures Holds(words[..], m) <==> m != n && Holds(ws, m) {
        ClearBitExact(ws, n, m);
      }
      if w < last {
        last := w;
      }
    }
  }

  // ----- the earlier bitset -------------------------------------------------

  /** Its clear moves the hint to the word of the cleared bit, wherever the hint was: the new
      hint is right exactly when the words it skips over are full. */
  lemma ClearHintExact(ws: seq<nat>, hint: nat, n: nat)
    requires WordsOk(ws) && n / WORD_BITS < |ws| && Hinted(ws, hint)
    ensures Pow2(n % WORD_BITS) < WORD_SIZE && WordsOk(ClearBit(ws, n))
    ensures Hinted(ClearBit(ws, n), n / WORD_BITS)
       <==> forall i {:trigger ws[i]} :: hint <= i < n / WORD_BITS ==> FullWord(ws[i])
  {
    ClearKeepsHint(ws, n / WORD_BITS, n);
  }

  class EarlyBitset {
    const words: array<nat>
    var last: nat

    ghost predicate Valid()
      reads this, words
    {
      last <= words.Length && WordsOk(words[..])
    }

    /** What it finds, and moves the hint to, is the least clear bit from the hint on. By
        HintExact that is the least clear bit of all exactly when the hint is right. */
    method FirstZero() returns (r: int)
      requires Valid()
      modifies this
      ensures Valid() && r == Least(words[..], old(last))
      ensures last == if r < 0 then old(last) else r / WORD_BITS
      ensures old(Hinted(words[..], last)) ==> Hinted(words[..], last)
    {
      var i := last;
      while i < words.Length
        invariant last <= i <= words.Length && Valid() && last == old(last)
        invariant Least(words[..], last) == Least(words[..], i)
        invariant old(Hinted(words[..], last)) ==> Hinted(words[..], i)
      {
        var bit := WordFirstZero(words[i]);
        if bit >= 0 {
          WordFirstZeroExact(words[i]);
          last := i;
          return WORD_BITS * i + bit;
        }
        i := i + 1;
      }
      return -1;
    }

    method Add(n: nat)
      requires Valid() && n / WORD_BITS < words.Length
      modifies words
      ensures Valid() && words[..] == SetBit(old(words[..]), n)
    {
      SetBitExact(words[..], n, n);
      ghost var ws := words[..];
      words[n / WORD_BITS] := Or(words[n / WORD_BITS], Pow2(n % WORD_BITS));
      assert words[..] == SetBit(ws, n);
    }

    method Remove(n: nat)
      requires Valid() && n / WORD_BITS < words.Length
      modifies this, words
      ensures Valid() && last == n / WORD_BITS
      ensures Pow2(n % WORD_BITS) < WORD_SIZE && words[..] == ClearBit(old(words[..]), n)
    {
      ClearBitExact(words[..], n, n);
      ghost var ws := words[..];
      words[n / WORD_BITS] := And(words[n / WORD_BITS], Not(Pow2(n % WORD_BITS)));
      assert words[..] == ClearBit(ws, n);
      last := n / WORD_BITS;
    }
  }

  /** Two full words; clear bits 0 and 64, set 64 again: the search from the hint says that all
      bits are set while bit 0 is clear. */
  lemma EarlyMisses()
    ensures var full := [WORD_SIZE - 1, WORD_SIZE - 1];
            && WordsOk(full) && Pow2(0) < WORD_SIZE && WordsOk(ClearBit(full, 0))
               && WordsOk(ClearBit(ClearBit(full, 0), 64))
            && var ws := SetBit(ClearBit(ClearBit(full, 0), 64), 64);
               WordsOk(ws) && Least(ws, 64 / WORD_BITS) == -1 && Least(ws, 0) == 0
  {
    var full := [WORD_SIZE - 1, WORD_SIZE - 1];
    OneBit(0);
    ClearBitExact(full, 0, 0);
    var a := ClearBit(full, 0);
    ClearBitExact(a, 64, 64);
    var b := ClearBit(a, 64);
    SetBitExact(b, 64, 64);
    var ws := SetBit(b, 64);
    forall m: nat | m < 128 ensures Holds(ws, m) <==> m != 0 {
      AllBits(m % WORD_BITS);
      ClearBitExact(full, 0, m);
      ClearBitExact(a, 64, m);
      SetBitExact(b, 64, m);
    }
    LeastExact(ws, 0);
    LeastExact(ws, 1);
  }

  lemma AllBits(k: nat)
    requires k < WORD_BITS
    ensures Bit(WORD_SIZE - 1, k)
  {
    BitZero(k);
    BitNot(0, k);
  }
}
