/** The ring buffer whose indices wrap by masking with its power-of-two size. */
module Ring {
  import opened Bits

  /** p + 1 and p - 1 on 64-bit unsigned numbers, masked. */
  function WrapInc(p: nat, size: nat): nat
    requires size > 0
  {
    And(if p + 1 == WORD_SIZE then 0 else p + 1, size - 1)
  }

  function WrapDec(p: nat, size: nat): nat
    requires size > 0
  {
    And(if p == 0 then WORD_SIZE - 1 else p - 1, size - 1)
  }

  /** An index at most one lap ahead, brought back into the ring. */
  function Wrapped(x: nat, size: nat): nat {
    if x < size then x else x - size
  }

  lemma WrappedIsMod(x: nat, size: nat)
    requires x < 2 * size
    ensures x % size == Wrapped(x, size)
  {
    RemainderIs(x, size, if x < size then 0 else 1, Wrapped(x, size));
  }

  lemma IncWraps(p: nat, size: nat)
    requires IsPowerOf2(size) && size < WORD_SIZE && p < size
    ensures WrapInc(p, size) == Wrapped(p + 1, size)
  {
    var k := PowerOf2Exact(size);
    MaskIsMod(p + 1, k);
    WrappedIsMod(p + 1, size);
  }

  lemma DecWraps(p: nat, size: nat)
    requires IsPowerOf2(size) && size < WORD_SIZE && p < size
    ensures WrapDec(p, size) == if p == 0 then size - 1 else p - 1
  {
    var k := PowerOf2Exact(size);
    if p == 0 {
      MaskIsMod(WORD_SIZE - 1, k);
      var q := WordMultiple(k);
      LastOfMultiple(size, q);
    } else {
      MaskIsMod(p - 1, k);
      WrappedIsMod(p - 1, size);
    }
  }

  lemma LastOfMultiple(d: nat, q: nat)
    requires d > 0 && q > 0
    ensures d * q > 0 && (d * q - 1) % d == d - 1
  {
    assert d * q - 1 == d * (q - 1) + (d - 1);
    ProductAtLeast(d, q);
    RemainderIs(d * q - 1, d, q - 1, d - 1);
  }

  /** On the indices of a ring masking is arithmetic modulo the size, also below zero. */
  lemma WrapsExactly(p: nat, size: nat)
    requires IsPowerOf2(size) && size < WORD_SIZE && p < size
    ensures WrapInc(p, size) == (p + 1) % size && WrapDec(p, size) == (p + size - 1) % size
  {
    IncWraps(p, size);
    DecWraps(p, size);
    WrappedIsMod(p + 1, size);
    WrappedIsMod(p + size - 1, size);
  }

  /** One less, as an unsigned 64-bit number. */
  function LenDec(n: nat): nat {
    if n == 0 then WORD_SIZE - 1 else n - 1
  }

  lemma BelowLastWord(size: nat)
    requires IsPowerOf2(size) && size < WORD_SIZE
    ensures size < WORD_SIZE - 1
  {
    var k := PowerOf2Exact(size);
    assert k > 0 ==> Pow2(k) == 2 * Pow2(k - 1);
  }

  /** The n elements from index rd on, going round. */
  ghost function Lap<T>(b: seq<T>, rd: nat, n: nat): (d: seq<T>)
    requires rd < |b| && n <= |b|
    ensures |d| == n && forall i :: 0 <= i < n ==> d[i] == b[Wrapped(rd + i, |b|)]
  {
    seq(n, i requires 0 <= i < n => b[Wrapped(rd + i, |b|)])
  }

  lemma LapBack<T>(b: seq<T>, rd: nat, n: nat, v: T)
    requires rd < |b| && n < |b|
    ensures Lap(b[Wrapped(rd + n, |b|) := v], rd, n + 1) == Lap(b, rd, n) + [v]
    ensures Lap(b, rd, n + 1) == Lap(b, rd, n) + [b[Wrapped(rd + n, |b|)]]
  {
  }

  lemma LapFront<T>(b: seq<T>, rd: nat, n: nat)
    requires rd < |b| && 0 < n <= |b|
    ensures Wrapped(rd + 1, |b|) < |b| && Lap(b, rd, n) == [b[rd]] + Lap(b, Wrapped(rd + 1, |b|), n - 1)
  {
    var d, e := Lap(b, rd, n), Lap(b, Wrapped(rd + 1, |b|), n - 1);
    forall i | 0 <= i < n - 1 ensures d[i + 1] == e[i] {
      assert Wrapped(Wrapped(rd + 1, |b|) + i, |b|) == Wrapped(rd + (i + 1), |b|);
    }
  }

  class Ring<T(0)> {
    var wr: nat
    var rd: nat
    var len: nat
    const size: nat
    const buf: array<T>

    ghost predicate Valid()
      reads this
    {
      && IsPowerOf2(size) && size < WORD_SIZE && buf.Length == size
      && rd < size && len <= size && wr == Wrapped(rd + len, size)
    }

    /** The deque the ring stands for, coldest element first. */
    ghost function Deque(): (d: seq<T>)
      requires Valid()
      reads this, buf
      ensures |d| == len
    {
      Lap(buf[..], rd, len)
    }

    constructor (size: nat)
      requires IsPowerOf2(size) && size < WORD_SIZE
      ensures Valid() && Deque() == [] && this.size == size && fresh(buf)
    {
      this.size := size;
      buf := new T[size];
      wr, rd, len := 0, 0, 0;
    }

    predicate Full()
      reads this
    {
      len == size
    }

    predicate Empty()
      reads this
    {
      len == 0
    }

    /** The element joins the back; in a full ring it leaves the ring with more than it can hold. */
    method WrBack(v: T)
      requires Valid()
      modifies this, buf
      ensures Valid() <==> !old(Full())
      ensures !old(Full()) ==> Deque() == old(Deque()) + [v]
    {
      IncWraps(wr, size);
      if !Full() {
        LapBack(buf[..], rd, len, v);
      }
      ghost var b := buf[..];
      buf[wr] := v;
      assert buf[..] == b[wr := v];
      wr := WrapInc(wr, size);
      len := len + 1;
    }

    /** The back element leaves; in an empty ring the length wraps below zero. */
    method RdBack() returns (v: T)
      requires Valid()
      modifies this
      ensures Valid() <==> !old(Empty())
      ensures !old(Empty()) ==> old(Deque()) == Deque() + [v]
    {
      DecWraps(wr, size);
      BelowLastWord(size);
      if !Empty() {
        LapBack(buf[..], rd, len - 1, buf[0]);
      }
      wr := WrapDec(wr, size);
      v := buf[wr];
      len := LenDec(len);
    }

    /** The front element leaves; in an empty ring the length wraps below zero. */
    method RdFront() returns (v: T)
      requires Valid()
      modifies this
      ensures Valid() <==> !old(Empty())
      ensures !old(Empty()) ==> old(Deque()) == [v] + Deque()
    {
      IncWraps(rd, size);
      BelowLastWord(size);
      if !Empty() {
        LapFront(buf[..], rd, len);
      }
      v := buf[rd];
      rd := WrapInc(rd, size);
      len := LenDec(len);
    }
  }
}
