/** The 64-bit mixing function of the hash table, as a pipeline of seven steps.
    Each step is undone by an explicit step, so the whole function is injective
    on addresses, for every seed. */
module HashFn {
  type Word = bv64

  // ----- pipelines ----------------------------------------------------------

  function Run<T>(steps: seq<T -> T>, x: T): T
    decreases |steps|
  {
    if steps == [] then x else Run(steps[1..], steps[0](x))
  }

  /** The inverses, applied last step first. */
  function RunBack<T>(undo: seq<T -> T>, x: T): T
    decreases |undo|
  {
    if undo == [] then x else undo[0](RunBack(undo[1..], x))
  }

  ghost predicate Undoes<T(!new)>(undo: seq<T -> T>, steps: seq<T -> T>) {
    |undo| == |steps| && forall i, y :: 0 <= i < |steps| ==> undo[i](steps[i](y)) == y
  }

  lemma {:induction false} RunBackUndoesRun<T(!new)>(steps: seq<T -> T>, undo: seq<T -> T>, x: T)
    requires Undoes(undo, steps)
    ensures RunBack(undo, Run(steps, x)) == x
    decreases |steps|
  {
    if steps != [] {
      var rest, back := steps[1..], undo[1..];
      forall i, y | 0 <= i < |rest| ensures back[i](rest[i](y)) == y {
        assert back[i] == undo[i + 1] && rest[i] == steps[i + 1];
      }
      RunBackUndoesRun(rest, back, steps[0](x));
    }
  }

  function RunSeeded(steps: seq<Word -> Word>, seed: Word, x: Word): Word {
    Run(steps, x ^ seed)
  }

  function RunBackSeeded(undo: seq<Word -> Word>, seed: Word, x: Word): Word {
    RunBack(undo, x) ^ seed
  }

  lemma UndoSeed(seed: Word, x: Word)
    ensures (x ^ seed) ^ seed == x
  {
  }

  lemma SeededRoundTrip(steps: seq<Word -> Word>, undo: seq<Word -> Word>, seed: Word, x: Word)
    requires Undoes(undo, steps)
    ensures RunBackSeeded(undo, seed, RunSeeded(steps, seed, x)) == x
  {
    RunBackUndoesRun(steps, undo, x ^ seed);
    UndoSeed(seed, x);
  }

  // ----- the steps of hashfn ------------------------------------------------

  // A complement is written as a distance from the word of all ones and a left
  // shift as a product; a right shift stays a shift.

  lemma BitwiseForms(h: Word)
    ensures !h == 0xffff_ffff_ffff_ffff - h
    ensures h << 21 == h * 0x20_0000
    ensures h << 3 == h * 8 && h << 8 == h * 0x100
    ensures h << 2 == h * 4 && h << 4 == h * 16
    ensures h << 31 == h * 0x8000_0000
  {
  }

  /** ~h + (h << 21) */
  function Spread21(h: Word): Word { (0xffff_ffff_ffff_ffff - h) + h * 0x20_0000 }

  function Fold24(h: Word): Word { h ^ (h >> 24) }

  /** (h + (h << 3)) + (h << 8) */
  function Times265(h: Word): Word { (h + h * 8) + h * 0x100 }

  function Fold14(h: Word): Word { h ^ (h >> 14) }

  /** (h + (h << 2)) + (h << 4) */
  function Times21(h: Word): Word { (h + h * 4) + h * 16 }

  function Fold28(h: Word): Word { h ^ (h >> 28) }

  /** h + (h << 31) */
  function Spread31(h: Word): Word { h + h * 0x8000_0000 }

  const STEPS: seq<Word -> Word> := [Spread21, Fold24, Times265, Fold14, Times21, Fold28, Spread31]

  function Hash(seed: Word, ptr: Word): Word {
    RunSeeded(STEPS, seed, ptr)
  }

  // Their inverses.  The constants are the inverses of 2^21 - 1, 265, 21 and
  // 2^31 + 1 modulo 2^64.

  function Unspread21(h: Word): Word { (h + 1) * 0x7fff_fbff_ffdf_ffff }

  function Unfold24(h: Word): Word { h ^ ((h >> 24) ^ (h >> 48)) }

  function Untimes265(h: Word): Word { h * 0xd38f_f08b_1c03_dd39 }

  function Unfold14(h: Word): Word { h ^ ((h >> 14) ^ ((h >> 28) ^ ((h >> 42) ^ (h >> 56)))) }

  function Untimes21(h: Word): Word { h * 0xcf3c_f3cf_3cf3_cf3d }

  function Unfold28(h: Word): Word { h ^ ((h >> 28) ^ (h >> 56)) }

  function Unspread31(h: Word): Word { h * 0x3fff_ffff_8000_0001 }

  const UNDO: seq<Word -> Word> :=
    [Unspread21, Unfold24, Untimes265, Unfold14, Untimes21, Unfold28, Unspread31]

  function Unhash(seed: Word, h: Word): Word {
    RunBackSeeded(UNDO, seed, h)
  }

  // ----- undoing each step --------------------------------------------------
  // The inverse of a step is first taken on the expression the step computes,
  // where it is plain word arithmetic.

  lemma UndoExpressions(h: Word)
    ensures Unfold24(h ^ (h >> 24)) == h
    ensures Unfold14(h ^ (h >> 14)) == h
    ensures Unfold28(h ^ (h >> 28)) == h
  {
  }

  lemma UndoProducts(h: Word)
    ensures Unspread21(h * 0x1f_ffff - 1) == h
    ensures Untimes265(h * 265) == h
    ensures Untimes21(h * 21) == h
    ensures Unspread31(h * 0x8000_0001) == h
  {
  }

  lemma UndoSpread21(h: Word)
    ensures Spread21(h) == h * 0x1f_ffff - 1
    ensures Unspread21(Spread21(h)) == h
  {
    assert Spread21(h) == h * 0x1f_ffff - 1;
    UndoProducts(h);
  }

  lemma UndoTimes265(h: Word)
    ensures Times265(h) == h * 265
    ensures Untimes265(Times265(h)) == h
  {
    assert Times265(h) == h * 265;
    UndoProducts(h);
  }

  lemma UndoTimes21(h: Word)
    ensures Times21(h) == h * 21
    ensures Untimes21(Times21(h)) == h
  {
    assert Times21(h) == h * 21;
    UndoProducts(h);
  }

  lemma UndoSpread31(h: Word)
    ensures Spread31(h) == h * 0x8000_0001
    ensures Unspread31(Spread31(h)) == h
  {
    assert Spread31(h) == h * 0x8000_0001;
    UndoProducts(h);
  }

  lemma UndoFold24(h: Word)
    ensures Unfold24(Fold24(h)) == h
  {
    assert Fold24(h) == h ^ (h >> 24);
    UndoExpressions(h);
  }

  lemma UndoFold14(h: Word)
    ensures Unfold14(Fold14(h)) == h
  {
    assert Fold14(h) == h ^ (h >> 14);
    UndoExpressions(h);
  }

  lemma UndoFold28(h: Word)
    ensures Unfold28(Fold28(h)) == h
  {
    assert Fold28(h) == h ^ (h >> 28);
    UndoExpressions(h);
  }

  /** The shift-and-add steps are multiplications by odd constants, one with an offset. */
  lemma StepProducts(h: Word)
    ensures Spread21(h) == h * 0x1f_ffff - 1
    ensures Times265(h) == h * 265
    ensures Times21(h) == h * 21
    ensures Spread31(h) == h * 0x8000_0001
  {
    UndoSpread21(h);
    UndoTimes265(h);
    UndoTimes21(h);
    UndoSpread31(h);
  }

  lemma UndoStep(i: nat, h: Word)
    requires i < |STEPS|
    ensures UNDO[i](STEPS[i](h)) == h
  {
    match i
    case 0 => UndoSpread21(h);
    case 1 => UndoFold24(h);
    case 2 => UndoTimes265(h);
    case 3 => UndoFold14(h);
    case 4 => UndoTimes21(h);
    case 5 => UndoFold28(h);
    case _ => UndoSpread31(h);
  }

  // ----- the whole function -------------------------------------------------

  lemma AllStepsUndone()
    ensures Undoes(UNDO, STEPS)
  {
    forall i, y | 0 <= i < |STEPS| ensures UNDO[i](STEPS[i](y)) == y {
      UndoStep(i, y);
    }
  }

  // ----- the assignments of the source ---------------------------------------

  lemma ComplementSum(h: Word)
    ensures !h + (h << 21) == (h << 21) - h - 1
  {
  }

  lemma Spread21Sum(h: Word)
    ensures !h + (h << 21) == h * 0x1f_ffff - 1
  {
    calc {
      !h + (h << 21);
      { ComplementSum(h); }
      (h << 21) - h - 1;
      h * 0x1f_ffff - 1;
    }
  }

  lemma Spread21Form(h: Word)
    ensures Spread21(h) == !h + (h << 21)
  {
    UndoSpread21(h);
    Spread21Sum(h);
  }

  lemma TimesForms(h: Word)
    ensures Times265(h) == (h + (h << 3)) + (h << 8)
    ensures Times21(h) == (h + (h << 2)) + (h << 4)
  {
    BitwiseForms(h);
  }

  lemma Spread31Sum(h: Word)
    ensures h + (h << 31) == h * 0x8000_0001
  {
  }

  lemma Spread31Form(h: Word)
    ensures Spread31(h) == h + (h << 31)
  {
    UndoSpread31(h);
    Spread31Sum(h);
  }

  lemma FoldForms(h: Word)
    ensures Fold24(h) == h ^ (h >> 24) && Fold14(h) == h ^ (h >> 14) && Fold28(h) == h ^ (h >> 28)
  {
  }

  lemma RunFirst<T>(f: T -> T, steps: seq<T -> T>, x: T)
    ensures Run([f] + steps, x) == Run(steps, f(x))
  {
    assert ([f] + steps)[1..] == steps;
  }

  lemma RunSeven<T>(f0: T -> T, f1: T -> T, f2: T -> T, f3: T -> T, f4: T -> T, f5: T -> T, f6: T -> T, x: T)
    ensures Run([f0, f1, f2, f3, f4, f5, f6], x) == f6(f5(f4(f3(f2(f1(f0(x)))))))
  {
    var x2 := f1(f0(x));
    var x3 := f2(x2);
    RunFirst(f0, [f1, f2, f3, f4, f5, f6], x);
    RunFirst(f1, [f2, f3, f4, f5, f6], f0(x));
    RunFirst(f2, [f3, f4, f5, f6], x2);
    RunFirst(f3, [f4, f5, f6], x3);
    RunFirst(f4, [f5, f6], f3(x3));
    RunFirst(f5, [f6], f4(f3(x3)));
    RunFirst(f6, [], f5(f4(f3(x3))));
    assert [f0, f1, f2, f3, f4, f5, f6] == [f0] + [f1, f2, f3, f4, f5, f6];
    assert [f1, f2, f3, f4, f5, f6] == [f1] + [f2, f3, f4, f5, f6];
    assert [f2, f3, f4, f5, f6] == [f2] + [f3, f4, f5, f6];
    assert [f3, f4, f5, f6] == [f3] + [f4, f5, f6];
    assert [f4, f5, f6] == [f4] + [f5, f6];
    assert [f5, f6] == [f5] + [f6];
    assert [f6] == [f6] + [];
  }

  /** The hash is the last of the words that the assignments give one after the other, from the
      address and the seed. */
  lemma HashAssignments(seed: Word, ptr: Word, h0: Word, h1: Word, h2: Word, h3: Word, h4: Word, h5: Word, h6: Word,
                        h7: Word)
    requires h0 == ptr ^ seed
    requires h1 == !h0 + (h0 << 21)
    requires h2 == h1 ^ (h1 >> 24)
    requires h3 == (h2 + (h2 << 3)) + (h2 << 8)
    requires h4 == h3 ^ (h3 >> 14)
    requires h5 == (h4 + (h4 << 2)) + (h4 << 4)
    requires h6 == h5 ^ (h5 >> 28)
    requires h7 == h6 + (h6 << 31)
    ensures Hash(seed, ptr) == h7
  {
    RunSeven(Spread21, Fold24, Times265, Fold14, Times21, Fold28, Spread31, h0);
    Spread21Form(h0);
    FoldForms(h1);
    TimesForms(h2);
    FoldForms(h3);
    TimesForms(h4);
    FoldForms(h5);
    Spread31Form(h6);
  }

  /** hashfn, assignment by assignment. */
  method ComputeHash(seed: Word, ptr: Word) returns (hash: Word)
    ensures hash == Hash(seed, ptr)
  {
    var h0 := ptr ^ seed;
    var h1 := !h0 + (h0 << 21);
    var h2 := h1 ^ (h1 >> 24);
    var h3 := (h2 + (h2 << 3)) + (h2 << 8);
    var h4 := h3 ^ (h3 >> 14);
    var h5 := (h4 + (h4 << 2)) + (h4 << 4);
    var h6 := h5 ^ (h5 >> 28);
    hash := h6 + (h6 << 31);
    HashAssignments(seed, ptr, h0, h1, h2, h3, h4, h5, h6, hash);
  }

  // ----- no two addresses collide --------------------------------------------

  /** Every address is recovered from its hash, whatever the seed. */
  lemma HashRoundTrip(seed: Word, ptr: Word)
    ensures Unhash(seed, Hash(seed, ptr)) == ptr
  {
    AllStepsUndone();
    SeededRoundTrip(STEPS, UNDO, seed, ptr);
  }

  /** So different addresses have different hashes. */
  lemma HashInjective(seed: Word, p: Word, q: Word)
    requires Hash(seed, p) == Hash(seed, q)
    ensures p == q
  {
    HashRoundTrip(seed, p);
    HashRoundTrip(seed, q);
  }
}
