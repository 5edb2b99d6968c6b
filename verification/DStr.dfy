/** The dynamic string: up to 31 characters in the object itself, longer ones in the heap. */
module DStr {
  const SHORT_SIZE: nat := 31
  const NUL: char := '\0'

  predicate NulFree(s: string) {
    forall i :: 0 <= i < |s| ==> s[i] != NUL
  }

  /** Where the first NUL is, or the length. */
  function NulAt(s: string): (i: nat)
    ensures i <= |s| && (i < |s| ==> s[i] == NUL) && NulFree(s[..i])
    ensures NulFree(s) <==> i == |s|
  {
    if s == [] || s[0] == NUL then 0 else
      var i := 1 + NulAt(s[1..]);
      assert forall j :: 1 <= j < i ==> s[j] == s[1..][..i - 1][j - 1];
      assert forall j :: 0 <= j < |s| - 1 ==> s[1..][j] == s[j + 1];
      i
  }

  /** strcpy: up to and including the first NUL. */
  method StrCpy(dst: array<char>, src: array<char>, ghost n: nat)
    requires dst != src && n < src.Length && n < dst.Length && src[n] == NUL && NulFree(src[..n])
    modifies dst
    ensures dst[..n + 1] == src[..n + 1]
  {
    var i := 0;
    assert forall j :: 0 <= j < n ==> src[j] == src[..n][j];
    while src[i] != NUL
      invariant i <= n && dst[..i] == src[..i]
      invariant forall j :: 0 <= j < n ==> src[j] != NUL
      decreases n - i
    {
      dst[i] := src[i];
      i := i + 1;
    }
    dst[i] := NUL;
  }

  class DStr {
    const short: array<char>
    var heap: array?<char>
    var cur: array<char>
    var len: nat
    var cap: nat

    /** Short strings are in the object, longer ones in the heap, and a NUL follows the last
        character. */
    ghost predicate Valid()
      reads this, cur
    {
      && short.Length == SHORT_SIZE + 1 && len <= cap && cur.Length == cap + 1 && cap > 0
      && cur[len] == NUL
      && (if len <= SHORT_SIZE then cur == short && heap == null && cap == SHORT_SIZE else heap == cur && cur != short)
    }

    ghost function Contents(): string
      requires Valid()
      reads this, cur
    {
      cur[..len]
    }

    /** What can be read of the string up to its first NUL. */
    method CStr() returns (s: string)
      requires Valid()
      ensures s == Contents()[..NulAt(Contents())] && (NulFree(Contents()) ==> s == Contents())
    {
      var i := 0;
      ghost var t := Contents();
      ghost var n := NulAt(t);
      assert forall j :: 0 <= j < n ==> cur[j] == t[..n][j];
      assert n < len ==> cur[n] == t[n];
      while cur[i] != NUL
        invariant i <= n
        decreases n - i
      {
        i := i + 1;
      }
      s := cur[..i];
      assert s == t[..n];
    }

    constructor ()
      ensures Valid() && Contents() == [] && fresh(short) && cur == short
    {
      var a := new char[SHORT_SIZE + 1](_ => NUL);
      short, cur, heap := a, a, null;
      len, cap := 0, SHORT_SIZE;
    }

    /** The characters move out of the object with a copy that stops at the first NUL. */
    ghost predicate Truncates()
      requires Valid()
      reads this, cur
    {
      len == cap && cur == short && !NulFree(Contents())
    }

    /** The character joins at the end, whatever it is; only when the string leaves the object
        with a NUL inside are the characters after that NUL lost. */
    method Push(c: char)
      requires Valid()
      modifies this, cur
      ensures Valid() && len == old(len) + 1 && Contents()[old(len)] == c
      ensures !old(Truncates()) ==> Contents() == old(Contents()) + [c]
      ensures old(Truncates()) ==> var n := NulAt(old(Contents())); Contents()[..n + 1] == old(Contents())[..n + 1]
      ensures cap == if old(len) == old(cap) then 2 * old(cap) else old(cap)
      ensures cur == old(cur) || fresh(cur)
    {
      ghost var s := cur[..len];
      ghost var n := NulAt(s);
      if len == cap {
        Grow();
      }
      ghost var t := cur[..len];
      cur[len] := c;
      len := len + 1;
      cur[len] := NUL;
      assert cur[..len] == t + [c];
      assert n < len - 1 ==> cur[..len][..n + 1] == t[..n + 1];
    }

    method Grow()
      requires Valid() && len == cap
      modifies this
      ensures cap == 2 * old(cap) && len == old(len) && cur.Length == cap + 1 && fresh(cur) && heap == cur
      ensures !old(Truncates()) ==> cur[..len] == old(cur[..len])
      ensures old(Truncates()) ==> var n := NulAt(old(cur[..len])); cur[..len][..n + 1] == old(cur[..len])[..n + 1]
    {
      var cap' := cap * 2;
      var bigger := new char[cap' + 1];
      if heap != null {
        for i := 0 to heap.Length
          modifies bigger
          invariant bigger[..i] == heap[..i]
        {
          bigger[i] := heap[i];
        }
      }
      if cur == short {
        ghost var s := cur[..len];
        ghost var n := NulAt(s);
        assert short[..n] == s[..n] && (n < len ==> short[n] == s[n]);
        StrCpy(bigger, short, n);
        assert n < len ==> bigger[..len][..n + 1] == bigger[..n + 1] && s[..n + 1] == short[..n + 1];
        assert n == len ==> bigger[..len] == bigger[..len + 1][..len] && s == short[..len + 1][..len];
      }
      heap, cur, cap := bigger, bigger, cap';
    }

    /** The heap copy, if any, is freed, and the string starts over. */
    method Clear()
      requires Valid()
      modifies this, short
      ensures Valid() && Contents() == [] && cur == short
    {
      heap, cur, len, cap := null, short, 0, SHORT_SIZE;
      for i := 0 to short.Length
        modifies short
        invariant forall j :: 0 <= j < i ==> short[j] == NUL
      {
        short[i] := NUL;
      }
    }
  }
}
