/** The generator of perfect hash tables: it tries one capacity after the other until every key
    has a slot to itself, and stops when the same key occurs twice. */
module Hashgen {
  type Key = string

  datatype Slot = Free | Taken(key: Key)
  datatype Result = Table(slots: seq<Slot>) | Repeat(key: Key)

  // ----- string hashes ------------------------------------------------------

  const SIZE_MAX_PLUS_1: nat := 0x1_0000_0000_0000_0000

  /** Horner's rule with 31, modulo the size of a word. */
  function StrHash(s: string): (h: nat)
    ensures h < SIZE_MAX_PLUS_1
  {
    if s == [] then 0 else (StrHash(s[..|s| - 1]) * 31 + s[|s| - 1] as nat) % SIZE_MAX_PLUS_1
  }

  function Pow31(n: nat): nat {
    if n == 0 then 1 else 31 * Pow31(n - 1)
  }

  /** The sum of s[i] * 31^(|s| - 1 - i), as a number of any size. */
  function Polynomial(s: string): nat {
    if s == [] then 0 else s[0] as nat * Pow31(|s| - 1) + Polynomial(s[1..])
  }

  lemma {:induction false} PolynomialNext(s: string, c: char)
    ensures Polynomial(s + [c]) == Polynomial(s) * 31 + c as nat
  {
    if s == [] {
      assert ([c] + [])[1..] == [];
      assert Pow31(0) == 1;
    } else {
      assert (s + [c])[1..] == s[1..] + [c];
      PolynomialNext(s[1..], c);
      ShiftTerm(s[0] as nat, Pow31(|s| - 1));
    }
  }

  lemma ShiftTerm(x: nat, p: nat)
    ensures x * (31 * p) == (x * p) * 31
  {
  }

  /** Taking the modulus at every step is the same as taking it once. */
  lemma {:induction false} StrHashIsPolynomial(s: string)
    ensures StrHash(s) == Polynomial(s) % SIZE_MAX_PLUS_1
  {
    if s != [] {
      var n := |s| - 1;
      StrHashIsPolynomial(s[..n]);
      assert s == s[..n] + [s[n]];
      PolynomialNext(s[..n], s[n]);
      ModulusOnce(Polynomial(s[..n]), s[n] as nat);
    }
  }

  lemma ModulusOnce(a: nat, c: nat)
    ensures ((a % SIZE_MAX_PLUS_1) * 31 + c) % SIZE_MAX_PLUS_1 == (a * 31 + c) % SIZE_MAX_PLUS_1
  {
  }

  /** The loop computes the sum of s[i] * 31^(|s| - 1 - i) modulo the size of a word. */
  method ComputeStrHash(s: string) returns (hash: nat)
    ensures hash == Polynomial(s) % SIZE_MAX_PLUS_1 && hash == StrHash(s)
  {
    StrHashIsPolynomial(s);
    hash := 0;
    for i := 0 to |s|
      invariant hash == StrHash(s[..i])
    {
      assert s[..i + 1][..i] == s[..i];
      hash := (hash * 31 + s[i] as nat) % SIZE_MAX_PLUS_1;
    }
    assert s[..|s|] == s;
  }

  // ----- what a capacity does to the keys -----------------------------------
  // `h` is the hash function; nothing here depends on which one it is.

  predicate SameSlot(keys: seq<Key>, h: Key -> nat, cap: nat, i: nat, j: nat)
    requires cap > 0 && i < |keys| && j < |keys|
  {
    h(keys[i]) % cap == h(keys[j]) % cap
  }

  /** The first n keys have a slot each. */
  ghost predicate Fits(keys: seq<Key>, h: Key -> nat, cap: nat, n: nat)
    requires cap > 0 && n <= |keys|
  {
    forall i: nat, j: nat {:trigger SameSlot(keys, h, cap, i, j)} :: j < i < n ==> !SameSlot(keys, h, cap, i, j)
  }

  ghost predicate HasRepeat(keys: seq<Key>, n: nat)
    requires n <= |keys|
  {
    exists i, j :: 0 <= j < i < n && keys[i] == keys[j]
  }

  /** The scan at this capacity meets a taken slot with another key in it, and moves on to the
      next capacity. */
  ghost predicate Bumps(keys: seq<Key>, h: Key -> nat, cap: nat)
    requires cap > 0
  {
    exists i: nat, j: nat {:trigger SameSlot(keys, h, cap, i, j)} ::
      j < i < |keys| && Fits(keys, h, cap, i) && SameSlot(keys, h, cap, i, j) && keys[i] != keys[j]
  }

  /** Two different keys have the same hash, and no key is repeated before the later of them. */
  ghost predicate Hopeless(keys: seq<Key>, h: Key -> nat) {
    exists i: nat, j: nat :: j < i < |keys| && keys[i] != keys[j] && h(keys[i]) == h(keys[j]) && !HasRepeat(keys, i)
  }

  function MaxHash(keys: seq<Key>, h: Key -> nat): (m: nat)
    ensures forall i :: 0 <= i < |keys| ==> h(keys[i]) <= m
  {
    if keys == [] then 0 else
      var m := MaxHash(keys[1..], h);
      assert forall i :: 1 <= i < |keys| ==> keys[i] == keys[1..][i - 1];
      if h(keys[0]) > m then h(keys[0]) else m
  }

  function MinHash(keys: seq<Key>, h: Key -> nat): (m: nat)
    ensures forall i :: 0 <= i < |keys| ==> m <= h(keys[i])
  {
    if keys == [] then MaxHash(keys, h) else
      var m := MinHash(keys[1..], h);
      assert forall i :: 1 <= i < |keys| ==> keys[i] == keys[1..][i - 1];
      if |keys| == 1 || h(keys[0]) < m then h(keys[0]) else m
  }

  /** The largest difference between two hashes. */
  function Spread(keys: seq<Key>, h: Key -> nat): int {
    MaxHash(keys, h) - MinHash(keys, h)
  }

  lemma ProductSign(cap: int, e: int)
    requires cap > 0
    ensures if e <= 0 then cap * e <= 0 else cap * e >= cap
  {
    if e > 0 {
      assert cap * e == cap * (e - 1) + cap;
    }
  }

  lemma Multiples(cap: nat, q: nat, r: nat, t: nat)
    requires cap > 0 && cap * q + t < cap * r + t
    ensures cap <= cap * r - cap * q
  {
    ProductSign(cap, r - q);
    Distribute(cap, r, q);
  }

  lemma Distribute(c: int, r: int, q: int)
    ensures c * (r - q) == c * r - c * q
  {
  }

  /** Different numbers with the same remainder are at least the divisor apart. */
  lemma FarApart(a: nat, b: nat, cap: nat)
    requires cap > 0 && a < b && a % cap == b % cap
    ensures cap <= b - a
  {
    assert a == cap * (a / cap) + a % cap && b == cap * (b / cap) + b % cap;
    Multiples(cap, a / cap, b / cap, a % cap);
  }

  /** A capacity at which the search moves on is no more than the spread. */
  lemma BumpIsLow(keys: seq<Key>, h: Key -> nat, cap: nat, i: nat, j: nat)
    requires cap > 0 && !Hopeless(keys, h)
    requires j < i < |keys| && Fits(keys, h, cap, i) && SameSlot(keys, h, cap, i, j) && keys[i] != keys[j]
    ensures cap <= Spread(keys, h)
  {
    var a, b := h(keys[i]), h(keys[j]);
    if a == b {
      var p, q :| 0 <= q < p < i && keys[p] == keys[q];
      assert SameSlot(keys, h, cap, p, q);
    } else if a < b {
      FarApart(a, b, cap);
    } else {
      FarApart(b, a, cap);
    }
  }

  lemma {:induction false} FirstMisfit(keys: seq<Key>, h: Key -> nat, cap: nat, n: nat) returns (i: nat, j: nat)
    requires cap > 0 && n <= |keys| && !Fits(keys, h, cap, n)
    ensures j < i < n && Fits(keys, h, cap, i) && SameSlot(keys, h, cap, i, j)
  {
    if Fits(keys, h, cap, n - 1) {
      i := n - 1;
      j :| 0 <= j < i && SameSlot(keys, h, cap, i, j);
    } else {
      i, j := FirstMisfit(keys, h, cap, n - 1);
    }
  }

  lemma OwnSlots(keys: seq<Key>, h: Key -> nat, cap: nat, n: nat, a: nat, b: nat)
    requires cap > 0 && n <= |keys| && Fits(keys, h, cap, n) && a < n && b < n && a != b
    ensures h(keys[a]) % cap != h(keys[b]) % cap
  {
    assert SameSlot(keys, h, cap, a, b) == SameSlot(keys, h, cap, b, a);
  }

  lemma SoleTenant(keys: seq<Key>, h: Key -> nat, cap: nat, i: nat, q: nat, j: nat)
    requires cap > 0 && i < |keys| && Fits(keys, h, cap, i) && q < i && j < i
    requires SameSlot(keys, h, cap, i, q) && SameSlot(keys, h, cap, i, j)
    ensures q == j
  {
    if q != j {
      OwnSlots(keys, h, cap, i, q, j);
    }
  }

  /** On hopeless keys every capacity is passed over: the search does not end. */
  lemma HopelessNeverEnds(keys: seq<Key>, h: Key -> nat, cap: nat)
    requires cap > 0 && Hopeless(keys, h)
    ensures Bumps(keys, h, cap)
  {
    var i: nat, j: nat :| j < i < |keys| && keys[i] != keys[j] && h(keys[i]) == h(keys[j]) && !HasRepeat(keys, i);
    assert SameSlot(keys, h, cap, i, j);
    var p, q := FirstMisfit(keys, h, cap, i + 1);
    if keys[p] == keys[q] {
      SoleTenant(keys, h, cap, i, q, j);
    }
  }

  // ----- the search ---------------------------------------------------------

  /** The keys placed so far, each in its slot, and nothing else in the table. */
  ghost predicate Holds(slots: seq<Slot>, keys: seq<Key>, h: Key -> nat, n: nat)
    requires n <= |keys|
  {
    && |slots| > 0
    && (forall i {:trigger keys[i]} :: 0 <= i < n ==> slots[h(keys[i]) % |slots|] == Taken(keys[i]))
    && (forall b {:trigger slots[b]} :: 0 <= b < |slots| && slots[b].Taken? ==>
          exists i :: 0 <= i < n && keys[i] == slots[b].key && h(keys[i]) % |slots| == b)
  }

  lemma PlaceNext(slots: seq<Slot>, keys: seq<Key>, h: Key -> nat, n: nat)
    requires n < |keys| && Holds(slots, keys, h, n) && Fits(keys, h, |slots|, n)
    requires slots[h(keys[n]) % |slots|].Free?
    ensures Holds(slots[h(keys[n]) % |slots| := Taken(keys[n])], keys, h, n + 1) && Fits(keys, h, |slots|, n + 1)
  {
  }

  /** A taken slot is the slot of an earlier key. */
  lemma Occupant(slots: seq<Slot>, keys: seq<Key>, h: Key -> nat, n: nat) returns (j: nat)
    requires n < |keys| && Holds(slots, keys, h, n) && slots[h(keys[n]) % |slots|].Taken?
    ensures j < n && SameSlot(keys, h, |slots|, n, j) && keys[j] == slots[h(keys[n]) % |slots|].key
  {
    j :| 0 <= j < n && keys[j] == slots[h(keys[n]) % |slots|].key && h(keys[j]) % |slots| == h(keys[n]) % |slots|;
  }

  lemma FitsNoRepeat(keys: seq<Key>, h: Key -> nat, cap: nat, n: nat)
    requires cap > 0 && n <= |keys| && Fits(keys, h, cap, n)
    ensures !HasRepeat(keys, n)
  {
    forall i: nat, j: nat | j < i < n ensures keys[i] != keys[j] {
      assert !SameSlot(keys, h, cap, i, j);
    }
  }

  /** The scan at one capacity: all keys placed, or a repeated key, or a collision. */
  method Scan(keys: seq<Key>, h: Key -> nat, empty: seq<Slot>) returns (hash: seq<Slot>, i: nat, ghost j: nat)
    requires |empty| > 0 && forall b {:trigger empty[b]} :: 0 <= b < |empty| ==> empty[b] == Free
    ensures i <= |keys| && |hash| == |empty| && Fits(keys, h, |empty|, i)
    ensures i == |keys| ==> Holds(hash, keys, h, |keys|)
    ensures i < |keys| ==> j < i && SameSlot(keys, h, |empty|, i, j) && hash[h(keys[i]) % |empty|] == Taken(keys[j])
  {
    hash := empty;
    i, j := 0, 0;
    while i < |keys|
      invariant i <= |keys| && |hash| == |empty| && Holds(hash, keys, h, i) && Fits(keys, h, |empty|, i)
    {
      var b := h(keys[i]) % |hash|;
      if hash[b] != Free {
        j := Occupant(hash, keys, h, i);
        return;
      }
      PlaceNext(hash, keys, h, i);
      hash := hash[b := Taken(keys[i])];
      i := i + 1;
    }
  }

  /** The search ends exactly when the keys are not hopeless. What it finds is a perfect hash
      of least capacity, or, exactly when a key occurs twice, the one whose second occurrence
      comes first. */
  method Generate(keys: seq<Key>, h: Key -> nat) returns (r: Result)
    requires !Hopeless(keys, h)
    ensures r.Repeat? <==> HasRepeat(keys, |keys|)
    ensures r.Repeat? ==> exists i, j :: 0 <= j < i < |keys| && keys[j] == keys[i] == r.key && !HasRepeat(keys, i)
    ensures r.Table? ==> Holds(r.slots, keys, h, |keys|) && Fits(keys, h, |r.slots|, |keys|)
    ensures r.Table? ==> forall c :: 0 < c < |r.slots| ==> !Fits(keys, h, c, |keys|)
    ensures r.Table? ==> |r.slots| == 1 || |r.slots| <= 1 + Spread(keys, h)
  {
    var cap := 1;
    while true
      invariant cap >= 1 && (cap == 1 || cap <= 1 + Spread(keys, h))
      invariant forall c {:trigger Fits(keys, h, c, |keys|)} :: 0 < c < cap ==> !Fits(keys, h, c, |keys|)
      decreases Spread(keys, h) + 1 - cap
    {
      var hash, i;
      ghost var j;
      hash, i, j := Scan(keys, h, seq(cap, _ => Free));
      if i == |keys| {
        FitsNoRepeat(keys, h, cap, |keys|);
        return Table(hash);
      }
      if hash[h(keys[i]) % cap].key == keys[i] {
        FitsNoRepeat(keys, h, cap, i);
        return Repeat(keys[i]);
      }
      BumpIsLow(keys, h, cap, i, j);
      cap := cap + 1;
    }
  }

  // ----- looking keys up ----------------------------------------------------

  /** Hash, take the slot, and compare once. */
  predicate Lookup(slots: seq<Slot>, h: Key -> nat, k: Key)
    requires |slots| > 0
  {
    slots[h(k) % |slots|] == Taken(k)
  }

  /** In a generated table that accepts exactly the keys. */
  lemma LookupExact(slots: seq<Slot>, keys: seq<Key>, h: Key -> nat, k: Key)
    requires Holds(slots, keys, h, |keys|)
    ensures Lookup(slots, h, k) <==> k in keys
  {
    if k in keys {
      var i :| 0 <= i < |keys| && keys[i] == k;
    }
  }

  /** Two strings with the same hash: the search for a table of them never ends. */
  lemma StrHashHopeless()
    ensures Hopeless(["Aa", "BB"], StrHash)
  {
    var keys := ["Aa", "BB"];
    assert "Aa"[..1] == "A" && "BB"[..1] == "B" && "A"[..0] == [] && "B"[..0] == [];
    assert StrHash("Aa") == 65 * 31 + 97 && StrHash("BB") == 66 * 31 + 66;
    assert keys[1] != keys[0] by { assert keys[1][0] != keys[0][0]; }
    assert !HasRepeat(keys, 1);
  }
}
