/** The chained hash table of pointers, with prime capacities, growth by
    relinking, and a traversal that is bounded by the number of elements. */
module HashTable {
  import HashFn
  import opened Primes

  type Ptr = HashFn.Word

  class Link {
    const hash: nat
    const ptr: Ptr
    var next: Link?

    constructor (hash: nat, ptr: Ptr, next: Link?)
      ensures this.hash == hash && this.ptr == ptr && this.next == next
    {
      this.hash, this.ptr, this.next := hash, ptr, next;
    }
  }

  // ----- chains -------------------------------------------------------------

  datatype List = Nil | Cons(link: Link, rest: List)

  ghost function Elems(s: List): set<Link> {
    if s.Nil? then {} else {s.link} + Elems(s.rest)
  }

  ghost function Ptrs(s: List): set<Ptr> {
    if s.Nil? then {} else {s.link.ptr} + Ptrs(s.rest)
  }

  ghost function Length(s: List): nat {
    if s.Nil? then 0 else 1 + Length(s.rest)
  }

  ghost predicate NoRepeat(s: List) {
    s.Cons? ==> s.link.ptr !in Ptrs(s.rest) && NoRepeat(s.rest)
  }

  ghost function Append(s: List, t: List): List {
    if s.Nil? then t else Cons(s.link, Append(s.rest, t))
  }

  type Nexts = map<Link, Link?>

  ghost predicate Mirrored(m: Nexts)
    reads m.Keys`next
  {
    forall l {:trigger l.next} :: l in m ==> l.next == m[l]
  }

  /** The next links from `at` on spell the list `s`. */
  ghost predicate Chain(m: Nexts, at: Link?, s: List)
    decreases s
  {
    match s
    case Nil => at == null
    case Cons(l, rest) => at == l && l in m && Chain(m, m[l], rest)
  }

  lemma {:induction false} ChainFrame(m: Nexts, m': Nexts, at: Link?, s: List)
    requires Chain(m, at, s) && forall l :: l in Elems(s) && l in m ==> l in m' && m'[l] == m[l]
    ensures Chain(m', at, s)
    decreases s
  {
    if s.Cons? {
      ChainFrame(m, m', m[s.link], s.rest);
    }
  }

  lemma {:induction false} PtrOfElem(s: List, l: Link)
    requires l in Elems(s)
    ensures l.ptr in Ptrs(s)
  {
    if l != s.link {
      PtrOfElem(s.rest, l);
    }
  }

  // ----- buckets ------------------------------------------------------------
  // `h` is the hash function; nothing here depends on which one it is.

  function Slot(h: Ptr -> nat, cap: nat, x: Ptr): (i: nat)
    requires cap > 0
    ensures i < cap
  {
    h(x) % cap
  }

  /** Every link of the list holds the true hash of its pointer and belongs in bucket `b`. */
  ghost predicate InBucket(h: Ptr -> nat, cap: nat, s: List, b: nat)
    requires cap > 0
  {
    s.Cons? ==> s.link.hash == h(s.link.ptr) && Slot(h, cap, s.link.ptr) == b && InBucket(h, cap, s.rest, b)
  }

  ghost predicate BucketsOk(h: Ptr -> nat, c: seq<List>)
    requires |c| > 0
  {
    forall b {:trigger c[b]} :: 0 <= b < |c| ==> InBucket(h, |c|, c[b], b) && NoRepeat(c[b])
  }

  /** All links from bucket `i` on, in the order of the traversal. */
  ghost function From(c: seq<List>, i: nat): List
    requires i <= |c|
    decreases |c| - i
  {
    if i == |c| then Nil else Append(c[i], From(c, i + 1))
  }

  ghost function Members(c: seq<List>): set<Ptr> {
    Ptrs(From(c, 0))
  }

  ghost function Total(c: seq<List>): nat {
    Length(From(c, 0))
  }

  lemma {:induction false} AppendFacts(s: List, t: List)
    ensures Ptrs(Append(s, t)) == Ptrs(s) + Ptrs(t)
    ensures Elems(Append(s, t)) == Elems(s) + Elems(t)
    ensures Length(Append(s, t)) == Length(s) + Length(t)
    ensures NoRepeat(s) && NoRepeat(t) && Ptrs(s) !! Ptrs(t) ==> NoRepeat(Append(s, t))
  {
    if s.Cons? {
      AppendFacts(s.rest, t);
    }
  }

  lemma {:induction false} InBucketPtr(h: Ptr -> nat, cap: nat, s: List, b: nat, x: Ptr)
    requires cap > 0 && InBucket(h, cap, s, b) && x in Ptrs(s)
    ensures Slot(h, cap, x) == b
  {
    if x != s.link.ptr {
      InBucketPtr(h, cap, s.rest, b, x);
    }
  }

  lemma {:induction false} InBucketLink(h: Ptr -> nat, cap: nat, s: List, b: nat, l: Link)
    requires cap > 0 && InBucket(h, cap, s, b) && l in Elems(s)
    ensures l.hash == h(l.ptr) && l.hash % cap == b
  {
    if l != s.link {
      InBucketLink(h, cap, s.rest, b, l);
    }
  }

  /** In good buckets a pointer occurs exactly when its own bucket holds it. */
  lemma {:induction false} FromHolds(h: Ptr -> nat, c: seq<List>, i: nat, x: Ptr)
    requires |c| > 0 && i <= |c| && BucketsOk(h, c)
    ensures var b := Slot(h, |c|, x); x in Ptrs(From(c, i)) <==> b >= i && x in Ptrs(c[b])
    decreases |c| - i
  {
    if i < |c| {
      FromHolds(h, c, i + 1, x);
      AppendFacts(c[i], From(c, i + 1));
      if x in Ptrs(c[i]) {
        InBucketPtr(h, |c|, c[i], i, x);
      }
    }
  }

  /** No pointer occurs twice. */
  lemma {:induction false} FromNoRepeat(h: Ptr -> nat, c: seq<List>, i: nat)
    requires |c| > 0 && i <= |c| && BucketsOk(h, c)
    ensures NoRepeat(From(c, i))
    decreases |c| - i
  {
    if i < |c| {
      FromNoRepeat(h, c, i + 1);
      forall x | x in Ptrs(c[i]) ensures x !in Ptrs(From(c, i + 1)) {
        InBucketPtr(h, |c|, c[i], i, x);
        FromHolds(h, c, i + 1, x);
      }
      AppendFacts(c[i], From(c, i + 1));
    }
  }

  // ----- putting a link in its bucket ---------------------------------------

  /** The link becomes the head of its bucket, as in hash_set and hash_grow. */
  ghost function Put(h: Ptr -> nat, c: seq<List>, l: Link): seq<List>
    requires |c| > 0
  {
    var b := Slot(h, |c|, l.ptr);
    c[b := Cons(l, c[b])]
  }

  lemma {:induction false} FromAfterPut(h: Ptr -> nat, c: seq<List>, l: Link, i: nat)
    requires |c| > 0 && i <= |c|
    ensures var f, f' := From(c, i), From(Put(h, c, l), i);
            if i <= Slot(h, |c|, l.ptr)
            then Ptrs(f') == Ptrs(f) + {l.ptr} && Elems(f') == Elems(f) + {l} && Length(f') == Length(f) + 1
            else f' == f
    decreases |c| - i
  {
    if i < |c| {
      FromAfterPut(h, c, l, i + 1);
      AppendFacts(c[i], From(c, i + 1));
      AppendFacts(Put(h, c, l)[i], From(Put(h, c, l), i + 1));
    }
  }

  lemma PutTotal(h: Ptr -> nat, c: seq<List>, l: Link)
    requires |c| > 0
    ensures Total(Put(h, c, l)) == Total(c) + 1
  {
    FromAfterPut(h, c, l, 0);
  }

  lemma PutOk(h: Ptr -> nat, c: seq<List>, l: Link)
    requires |c| > 0 && BucketsOk(h, c) && l.hash == h(l.ptr) && l.ptr !in Members(c)
    ensures BucketsOk(h, Put(h, c, l))
    ensures Members(Put(h, c, l)) == Members(c) + {l.ptr} && Total(Put(h, c, l)) == Total(c) + 1
    ensures Elems(From(Put(h, c, l), 0)) == Elems(From(c, 0)) + {l}
  {
    FromAfterPut(h, c, l, 0);
    FromHolds(h, c, 0, l.ptr);
  }

  // ----- the table in memory ------------------------------------------------

  /** Bucket by bucket, the links at the heads spell the chains. */
  ghost predicate Spells(m: Nexts, heads: seq<Link?>, c: seq<List>, i: nat)
    requires |heads| == |c|
  {
    forall b {:trigger c[b]} :: i <= b < |c| ==> Chain(m, heads[b], c[b])
  }

  lemma {:induction false} BucketElems(c: seq<List>, i: nat, b: nat)
    requires i <= b < |c|
    ensures Elems(c[b]) <= Elems(From(c, i))
    decreases b - i
  {
    AppendFacts(c[i], From(c, i + 1));
    if i < b {
      BucketElems(c, i + 1, b);
    }
  }

  lemma SpellsFrame(m: Nexts, m': Nexts, heads: seq<Link?>, c: seq<List>, i: nat)
    requires |heads| == |c| && i <= |c| && Spells(m, heads, c, i)
    requires forall l :: l in Elems(From(c, i)) && l in m ==> l in m' && m'[l] == m[l]
    ensures Spells(m', heads, c, i)
  {
    forall b | i <= b < |c| ensures Chain(m', heads[b], c[b]) {
      BucketElems(c, i, b);
      ChainFrame(m, m', heads[b], c[b]);
    }
  }

  lemma PutSpells(h: Ptr -> nat, m: Nexts, heads: seq<Link?>, c: seq<List>, l: Link)
    requires |heads| == |c| > 0 && Spells(m, heads, c, 0) && l !in Elems(From(c, 0))
    ensures var b := Slot(h, |c|, l.ptr);
            Spells(m[l := heads[b]], heads[b := l], Put(h, c, l), 0)
  {
    var b := Slot(h, |c|, l.ptr);
    SpellsFrame(m, m[l := heads[b]], heads, c, 0);
    assert Chain(m[l := heads[b]], heads[b], c[b]);
  }

  /** Make `l` the head of its bucket. */
  method PutLink(tab: array<Link?>, l: Link, h: Ptr -> nat, ghost c: seq<List>, ghost m: Nexts)
    returns (ghost m': Nexts)
    requires tab.Length == |c| > 0 && Mirrored(m) && Spells(m, tab[..], c, 0)
    requires l !in Elems(From(c, 0)) && l.hash == h(l.ptr)
    modifies tab, l`next
    ensures Mirrored(m') && Spells(m', tab[..], Put(h, c, l), 0)
    ensures m'.Keys == m.Keys + {l} && forall k :: k in m && k != l ==> m'[k] == m[k]
  {
    var j := l.hash % tab.Length;
    PutSpells(h, m, tab[..], c, l);
    ghost var heads := tab[..];
    m' := m[l := tab[j]];
    l.next := tab[j];
    tab[j] := l;
    assert tab[..] == heads[j := l];
  }

  // ----- growing ------------------------------------------------------------

  ghost predicate TrueHashes(h: Ptr -> nat, s: List) {
    s.Cons? ==> s.link.hash == h(s.link.ptr) && TrueHashes(h, s.rest)
  }

  /** Some links are in the new buckets `d` and the rest, `pending`, are yet to be
      visited; together they hold `all`, each pointer once. */
  ghost predicate Moving(h: Ptr -> nat, all: set<Ptr>, n: nat, d: seq<List>, pending: List)
    requires |d| > 0
  {
    && BucketsOk(h, d) && NoRepeat(pending) && TrueHashes(h, pending)
    && Ptrs(pending) !! Members(d) && Members(d) + Ptrs(pending) == all && Total(d) + Length(pending) == n
  }

  lemma {:induction false} BucketTrueHashes(h: Ptr -> nat, cap: nat, s: List, b: nat)
    requires cap > 0 && InBucket(h, cap, s, b)
    ensures TrueHashes(h, s)
  {
    if s.Cons? {
      BucketTrueHashes(h, cap, s.rest, b);
    }
  }

  lemma {:induction false} AppendTrueHashes(h: Ptr -> nat, s: List, t: List)
    requires TrueHashes(h, s) && TrueHashes(h, t)
    ensures TrueHashes(h, Append(s, t))
  {
    if s.Cons? {
      AppendTrueHashes(h, s.rest, t);
    }
  }

  lemma {:induction false} FromTrueHashes(h: Ptr -> nat, c: seq<List>, i: nat)
    requires |c| > 0 && i <= |c| && BucketsOk(h, c)
    ensures TrueHashes(h, From(c, i))
    decreases |c| - i
  {
    if i < |c| {
      FromTrueHashes(h, c, i + 1);
      BucketTrueHashes(h, |c|, c[i], i);
      AppendTrueHashes(h, c[i], From(c, i + 1));
    }
  }

  /** Empty buckets hold nothing. */
  lemma {:induction false} EmptyBuckets(c: seq<List>, i: nat)
    requires i <= |c| && forall b :: 0 <= b < |c| ==> c[b] == Nil
    ensures From(c, i) == Nil
    decreases |c| - i
  {
    if i < |c| {
      EmptyBuckets(c, i + 1);
    }
  }

  lemma MoveStarts(h: Ptr -> nat, c: seq<List>, d: seq<List>)
    requires |c| > 0 && |d| > 0 && BucketsOk(h, c) && forall b :: 0 <= b < |d| ==> d[b] == Nil
    ensures Moving(h, Members(c), Total(c), d, From(c, 0))
  {
    FromNoRepeat(h, c, 0);
    FromTrueHashes(h, c, 0);
    EmptyBuckets(d, 0);
  }

  lemma MoveOne(h: Ptr -> nat, all: set<Ptr>, n: nat, d: seq<List>, l: Link, rest: List)
    requires |d| > 0 && Moving(h, all, n, d, Cons(l, rest))
    ensures Moving(h, all, n, Put(h, d, l), rest)
    ensures l !in Elems(From(d, 0)) && l !in Elems(rest) && l.hash == h(l.ptr)
  {
    var s := Cons(l, rest);
    PutOk(h, d, l);
    assert l.ptr in Ptrs(s);
    if l in Elems(From(d, 0)) {
      PtrOfElem(From(d, 0), l);
    }
    if l in Elems(rest) {
      PtrOfElem(rest, l);
    }
  }

  /** What relinking `l` leaves alone: the rest of its old chain and the old buckets from `i` on. */
  lemma RestUntouched(m: Nexts, m': Nexts, l: Link, at: Link?, s: List, heads: seq<Link?>, c: seq<List>, i: nat)
    requires |heads| == |c| && i <= |c| && Chain(m, at, s) && Spells(m, heads, c, i)
    requires l !in Elems(Append(s, From(c, i)))
    requires m'.Keys == m.Keys + {l} && forall k :: k in m && k != l ==> m'[k] == m[k]
    ensures Chain(m', at, s) && Spells(m', heads, c, i)
  {
    AppendFacts(s, From(c, i));
    ChainFrame(m, m', at, s);
    SpellsFrame(m, m', heads, c, i);
  }

  /** One visit of the growing loop: the link `p` at the head of the chain `s` moves to its
      new bucket. */
  method MoveLink(tab': array<Link?>, p: Link, h: Ptr -> nat, ghost all: set<Ptr>, ghost n: nat, ghost d: seq<List>,
                  ghost s: List, ghost heads: seq<Link?>, ghost c: seq<List>, ghost i: nat, ghost m: Nexts)
    returns (next: Link?, ghost d': seq<List>, ghost m': Nexts)
    requires |heads| == |c| && i <= |c| && tab'.Length == |d| > 0
    requires Moving(h, all, n, d, Append(s, From(c, i))) && Chain(m, p, s)
    requires Mirrored(m) && Spells(m, heads, c, i) && Spells(m, tab'[..], d, 0)
    modifies tab', p`next
    ensures d' == Put(h, d, p) && |d'| == |d| && Total(d') == Total(d) + 1
    ensures Moving(h, all, n, d', Append(s.rest, From(c, i))) && Chain(m', next, s.rest)
    ensures Mirrored(m') && m'.Keys == m.Keys
    ensures Spells(m', heads, c, i) && Spells(m', tab'[..], d', 0)
  {
    d' := Put(h, d, p);
    next := p.next;
    MoveOne(h, all, n, d, p, Append(s.rest, From(c, i)));
    m' := PutLink(tab', p, h, d, m);
    RestUntouched(m, m', p, next, s.rest, heads, c, i);
    PutTotal(h, d, p);
  }

  /** The inner loop of the traversal: every link of one old chain moves. */
  method MoveChain(tab': array<Link?>, at: Link?, visited: nat, h: Ptr -> nat, ghost all: set<Ptr>, ghost n: nat,
                   ghost d: seq<List>, ghost chain: List, ghost heads: seq<Link?>, ghost c: seq<List>, ghost i: nat,
                   ghost m: Nexts)
    returns (count: nat, ghost d': seq<List>, ghost m': Nexts)
    requires |heads| == |c| && i <= |c| && tab'.Length == |d| > 0 && visited == Total(d)
    requires Moving(h, all, n, d, Append(chain, From(c, i))) && Chain(m, at, chain)
    requires Mirrored(m) && Spells(m, heads, c, i) && Spells(m, tab'[..], d, 0)
    modifies tab', m.Keys`next
    ensures |d'| == |d| && count == Total(d') && Moving(h, all, n, d', From(c, i))
    ensures Mirrored(m') && m'.Keys == m.Keys
    ensures Spells(m', heads, c, i) && Spells(m', tab'[..], d', 0)
  {
    var p := at;
    ghost var s := chain;
    count, d', m' := visited, d, m;
    while p != null
      invariant |d'| == |d| && count == Total(d')
      invariant Moving(h, all, n, d', Append(s, From(c, i))) && Chain(m', p, s)
      invariant Mirrored(m') && m'.Keys == m.Keys
      invariant Spells(m', heads, c, i) && Spells(m', tab'[..], d', 0)
      decreases s
    {
      p, d', m' := MoveLink(tab', p, h, all, n, d', s, heads, c, i, m');
      s := s.rest;
      count := count + 1;
    }
  }

  /** hash_grow: a table of the next prime capacity at or above twice the old one, holding the
      same links. The loop is bounded by the number of links, never by the old capacity; it
      never indexes past that capacity, and it visits each link once although every visit
      overwrites the link it is standing on. */
  method Grow(tab: array<Link?>, len: nat, h: Ptr -> nat, ghost c: seq<List>, ghost m: Nexts)
    returns (tab': array<Link?>, ghost c': seq<List>, ghost m': Nexts)
    requires tab.Length == |c| > 0 && Mirrored(m) && Spells(m, tab[..], c, 0)
    requires BucketsOk(h, c) && Total(c) == len
    modifies m.Keys`next
    ensures fresh(tab') && tab'.Length == |c'| >= 2 * |c| && Prime(|c'|)
    ensures forall q :: 2 * |c| <= q < |c'| ==> !Prime(q)
    ensures Mirrored(m') && m'.Keys == m.Keys && Spells(m', tab'[..], c', 0)
    ensures BucketsOk(h, c') && Members(c') == Members(c) && Total(c') == len
  {
    var cap := NextPrime(tab.Length * 2);
    tab' := new Link?[cap](_ => null);
    c', m' := seq(cap, _ => Nil), m;
    MoveStarts(h, c, c');
    var i, count := 0, 0;
    while count < len
      invariant i <= |c| && cap == |c'| && count == Total(c')
      invariant Moving(h, Members(c), len, c', From(c, i))
      invariant Mirrored(m') && m'.Keys == m.Keys
      invariant Spells(m', tab[..], c, i) && Spells(m', tab'[..], c', 0)
      decreases |c| - i
    {
      count, c', m' := MoveChain(tab', tab[i], count, h, Members(c), len, c', c[i], tab[..], c, i + 1, m');
      i := i + 1;
    }
  }

  // ----- the table ----------------------------------------------------------

  /** Walk a chain for a pointer. */
  method FindInChain(at: Link?, x: Ptr, ghost s: List, ghost m: Nexts) returns (p: Link?)
    requires Mirrored(m) && Chain(m, at, s)
    ensures p != null <==> x in Ptrs(s)
  {
    p := at;
    ghost var rest := s;
    while p != null
      invariant Chain(m, p, rest)
      invariant x in Ptrs(s) <==> x in Ptrs(rest)
      decreases rest
    {
      if p.ptr == x {
        return;
      }
      rest := rest.rest;
      p := p.next;
    }
  }

  lemma {:induction false} ChainKeys(m: Nexts, at: Link?, s: List)
    requires Chain(m, at, s)
    ensures Elems(s) <= m.Keys
    decreases s
  {
    if s.Cons? {
      ChainKeys(m, m[s.link], s.rest);
    }
  }

  lemma {:induction false} SpellsKeys(m: Nexts, heads: seq<Link?>, c: seq<List>, i: nat)
    requires |heads| == |c| && i <= |c| && Spells(m, heads, c, i)
    ensures Elems(From(c, i)) <= m.Keys
    decreases |c| - i
  {
    if i < |c| {
      SpellsKeys(m, heads, c, i + 1);
      ChainKeys(m, heads[i], c[i]);
      AppendFacts(c[i], From(c, i + 1));
    }
  }

  /** Prepend a new link for a pointer the table does not hold. */
  method Prepend(tab: array<Link?>, hash: nat, x: Ptr, h: Ptr -> nat, ghost c: seq<List>, ghost m: Nexts)
    returns (ghost c': seq<List>, ghost m': Nexts)
    requires tab.Length == |c| > 0 && Mirrored(m) && Spells(m, tab[..], c, 0)
    requires BucketsOk(h, c) && x !in Members(c) && hash == h(x)
    modifies tab
    ensures |c'| == |c| && Mirrored(m') && Spells(m', tab[..], c', 0)
    ensures m.Keys <= m'.Keys && fresh(m'.Keys - m.Keys)
    ensures BucketsOk(h, c') && Members(c') == Members(c) + {x} && Total(c') == Total(c) + 1
  {
    var newln := new Link(hash, x, null);
    SpellsKeys(m, tab[..], c, 0);
    PutOk(h, c, newln);
    m' := PutLink(tab, newln, h, c, m);
    c' := Put(h, c, newln);
  }

  ghost predicate TableOk(h: Ptr -> nat, heads: seq<Link?>, len: nat, c: seq<List>, m: Nexts) {
    && |heads| == |c| && Prime(|c|) && Spells(m, heads, c, 0) && BucketsOk(h, c)
    && len == Total(c) && 4 * (len - 1) <= 3 * |c|
  }

  ghost predicate LeastPrimeFrom(n: nat, p: nat) {
    p >= n && Prime(p) && forall q :: n <= q < p ==> !Prime(q)
  }

  /** hash_set on the fields of a table. It grows exactly when the pointer is new and the table
      is more than three quarters full. */
  method Insert(tab: array<Link?>, len: nat, x: Ptr, h: Ptr -> nat, ghost c: seq<List>, ghost m: Nexts)
    returns (tab': array<Link?>, len': nat, ghost c': seq<List>, ghost m': Nexts)
    requires TableOk(h, tab[..], len, c, m) && Mirrored(m)
    modifies tab, m.Keys`next
    ensures TableOk(h, tab'[..], len', c', m') && Mirrored(m')
    ensures (tab' == tab || fresh(tab')) && m.Keys <= m'.Keys && fresh(m'.Keys - m.Keys)
    ensures Members(c') == Members(c) + {x} && len' == len + (if x in Members(c) then 0 else 1)
    ensures if x !in Members(c) && 4 * len > 3 * tab.Length then LeastPrimeFrom(2 * tab.Length, tab'.Length)
            else tab' == tab
  {
    tab', len', c', m' := tab, len, c, m;
    var hash := h(x);
    FromHolds(h, c, 0, x);
    var p := FindInChain(tab[hash % tab.Length], x, c[hash % tab.Length], m);
    if p == null {
      if 4 * len > 3 * tab.Length {
        tab', c', m' := Grow(tab, len, h, c, m);
      }
      c', m' := Prepend(tab', hash, x, h, c', m');
      len' := len + 1;
    }
  }

  class Hash {
    var tab: array<Link?>
    var len: nat
    const h: Ptr -> nat
    ghost var chains: seq<List>
    ghost var nexts: Nexts

    /** Every link sits in the bucket of its true hash, no pointer occurs twice, `len` is the sum
        of the chain lengths, the capacity is prime and the load stays near three quarters. */
    ghost predicate Valid()
      reads this, tab, nexts.Keys`next
    {
      TableOk(h, tab[..], len, chains, nexts) && Mirrored(nexts)
    }

    ghost function Contents(): set<Ptr>
      reads this
    {
      Members(chains)
    }

    constructor (seed: HashFn.Word)
      ensures Valid() && Contents() == {} && fresh(tab) && fresh(nexts.Keys)
      ensures forall p :: h(p) == HashFn.Hash(seed, p) as nat
      ensures tab.Length == 2
    {
      var cap := NextPrime(0);
      TwoIsPrime();
      h := p => HashFn.Hash(seed, p) as nat;
      tab := new Link?[cap](_ => null);
      len := 0;
      var c := seq(cap, _ => Nil);
      chains, nexts := c, map[];
      EmptyBuckets(c, 0);
    }

    /** Every link sits in the bucket of its hash modulo the capacity. */
    lemma LinksPlaced(b: nat, l: Link)
      requires Valid() && b < tab.Length && l in Elems(chains[b])
      ensures l.hash == h(l.ptr) && l.hash % tab.Length == b
    {
      InBucketLink(h, tab.Length, chains[b], b, l);
    }

    /** hash_has: exactly membership. */
    method Has(x: Ptr) returns (found: bool)
      requires Valid()
      ensures found <==> x in Contents()
    {
      var i := h(x) % tab.Length;
      FromHolds(h, chains, 0, x);
      var p := FindInChain(tab[i], x, chains[i], nexts);
      found := p != null;
    }

    /** hash_set: the pointer joins the set, whether or not the table had to grow. */
    method Set(x: Ptr)
      requires Valid()
      modifies this, tab, nexts.Keys`next
      ensures Valid() && Contents() == old(Contents()) + {x}
      ensures (tab == old(tab) || fresh(tab)) && old(nexts.Keys) <= nexts.Keys && fresh(nexts.Keys - old(nexts.Keys))
      ensures len == old(len) + (if x in old(Contents()) then 0 else 1)
      ensures if x !in old(Contents()) && 4 * old(len) > 3 * old(tab.Length)
              then LeastPrimeFrom(2 * old(tab.Length), tab.Length) else tab == old(tab)
    {
      var tab', len';
      tab', len', chains, nexts := Insert(tab, len, x, h, chains, nexts);
      tab, len := tab', len';
    }

    /** hash_free: the destructor is handed every pointer of the set once, in traversal order. */
    method Free() returns (handed: seq<Ptr>)
      requires Valid()
      ensures |handed| == len && forall x :: x in handed <==> x in Contents()
      ensures forall j, k :: 0 <= j < k < |handed| ==> handed[j] != handed[k]
    {
      handed := [];
      var i, count := 0, 0;
      while count < len
        invariant i <= |chains| && count == |handed|
        invariant handed + InOrder(From(chains, i)) == InOrder(From(chains, 0))
        decreases |chains| - i
      {
        InOrderFacts(From(chains, 0));
        assert i < |chains|;
        var p := tab[i];
        ghost var s := chains[i];
        while p != null
          invariant Chain(nexts, p, s) && count == |handed|
          invariant handed + InOrder(Append(s, From(chains, i + 1))) == InOrder(From(chains, 0))
          decreases s
        {
          handed := handed + [p.ptr];
          count := count + 1;
          s := s.rest;
          p := p.next;
        }
        i := i + 1;
      }
      InOrderFacts(From(chains, 0));
      FromNoRepeat(h, chains, 0);
      assert handed <= InOrder(From(chains, 0));
    }
  }

  lemma TwoIsPrime()
    ensures Prime(2) && !Prime(0) && !Prime(1)
  {
  }

  ghost function InOrder(s: List): seq<Ptr> {
    if s.Nil? then [] else [s.link.ptr] + InOrder(s.rest)
  }

  lemma {:induction false} InOrderFacts(s: List)
    ensures |InOrder(s)| == Length(s) && forall x :: x in InOrder(s) <==> x in Ptrs(s)
    ensures NoRepeat(s) ==> forall j, k :: 0 <= j < k < |InOrder(s)| ==> InOrder(s)[j] != InOrder(s)[k]
  {
    if s.Cons? {
      InOrderFacts(s.rest);
    }
  }
}
