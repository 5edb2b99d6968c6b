/** The fixed pool of objects behind one slab: a stack of free pointers. An object is named by
    its index in the pool. */
module SlabPool {
  ghost predicate Distinct(s: seq<nat>) {
    forall i, j :: 0 <= i < j < |s| ==> s[i] != s[j]
  }

  ghost function Range(n: nat): (r: set<nat>)
    ensures |r| == n && forall i: nat :: i in r <==> i < n
  {
    if n == 0 then {} else Range(n - 1) + {n - 1}
  }

  ghost function Elements(s: seq<nat>): (e: set<nat>)
    ensures forall x :: x in e <==> x in s
  {
    if s == [] then {} else {s[0]} + Elements(s[1..])
  }

  lemma {:induction false} DistinctSize(s: seq<nat>)
    requires Distinct(s)
    ensures |Elements(s)| == |s|
  {
    if s != [] {
      DistinctSize(s[1..]);
      assert s[0] !in Elements(s[1..]);
    }
  }

  /** Every object is either once on the stack or handed out. */
  ghost predicate Split(stack: seq<nat>, out: set<nat>, size: nat) {
    && Distinct(stack) && (forall x :: x in stack ==> x < size && x !in out)
    && (forall x :: x in out ==> x < size) && (forall x: nat :: x < size ==> x in stack || x in out)
  }

  lemma SplitSize(stack: seq<nat>, out: set<nat>, size: nat)
    requires Split(stack, out, size)
    ensures |stack| + |out| == size && (out == {} <==> |stack| == size)
  {
    DistinctSize(stack);
    assert Elements(stack) + out == Range(size) && Elements(stack) !! out;
  }

  lemma PopSplits(stack: seq<nat>, out: set<nat>, size: nat)
    requires Split(stack, out, size) && stack != []
    ensures Split(stack[..|stack| - 1], out + {stack[|stack| - 1]}, size)
  {
    var k := |stack| - 1;
    var t, y := stack[..k], stack[k];
    assert stack == t + [y] && y in stack;
    assert forall i :: 0 <= i < k ==> t[i] == stack[i];
    forall x | x in t ensures x != y {
      var i :| 0 <= i < k && t[i] == x;
      assert stack[i] != stack[k];
    }
    assert forall x :: x in t ==> x in stack;
    assert Distinct(t);
    forall x: nat | x < size ensures x in t || x in out + {y} {
      assert x in stack || x in out;
    }
  }

  lemma PushSplits(stack: seq<nat>, out: set<nat>, size: nat, x: nat)
    requires Split(stack, out, size) && x in out
    ensures Split(stack + [x], out - {x}, size)
  {
    forall y: nat | y < size ensures y in stack + [x] || y in out - {x} {
    }
  }

  class Slab {
    const size: nat
    var free: array<nat>
    var fp: nat
    /** The objects handed out and not yet put back. */
    ghost var out: set<nat>

    ghost predicate Valid()
      reads this, free
    {
      free.Length == size && fp <= size && Split(free[..fp], out, size)
    }

    constructor (size: nat)
      ensures Valid() && this.size == size && out == {} && fresh(free)
    {
      this.size := size;
      free := new nat[size](i => i);
      fp := size;
      out := {};
      new;
      forall x: nat | x < size ensures x in free[..fp] {
        assert free[..fp][x] == x;
      }
    }

    method Empty() returns (empty: bool)
      requires Valid()
      ensures empty <==> |out| == size
    {
      SplitSize(free[..fp], out, size);
      empty := fp == 0;
    }

    method Full() returns (full: bool)
      requires Valid()
      ensures full <==> out == {}
    {
      SplitSize(free[..fp], out, size);
      full := fp == size;
    }

    /** An object nobody else has. The source asks its callers to find the slab not empty. */
    method Get() returns (x: nat)
      requires Valid() && |out| < size
      modifies this
      ensures Valid() && free == old(free) && x < size && x !in old(out) && out == old(out) + {x}
      ensures old(fp) > 0 && fp == old(fp) - 1 && x == free[fp]
    {
      SplitSize(free[..fp], out, size);
      PopSplits(free[..fp], out, size);
      fp := fp - 1;
      x := free[fp];
      out := out + {x};
      assert old(free[..fp])[..fp] == free[..fp];
    }

    /** The object is the next one handed out. */
    method Put(x: nat)
      requires Valid() && x in out
      modifies this, free
      ensures Valid() && free == old(free) && out == old(out) - {x}
      ensures fp == old(fp) + 1 && free[fp - 1] == x && free[..fp - 1] == old(free[..fp])
    {
      SplitSize(free[..fp], out, size);
      PushSplits(free[..fp], out, size, x);
      free[fp] := x;
      fp := fp + 1;
      out := out - {x};
      assert free[..fp] == old(free[..fp]) + [x];
    }
  }
}
