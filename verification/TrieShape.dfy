/** The shape shared by the pointer-set tries: an address is four 16-bit chunks,
    and each node and each kid has the name spelled by the chunks that lead to it. */
module TrieShape {
  type Chunk = x: int | 0 <= x < 0x1_0000

  const ADDR_LEN: nat := 4

  datatype Name = Root | Below(up: Name, chunk: Chunk)

  function Depth(q: Name): nat {
    if q.Root? then 0 else Depth(q.up) + 1
  }

  /** The name that the first `i` chunks of an address spell. */
  function NameOf(a: seq<Chunk>, i: nat): Name
    requires i <= |a|
  {
    if i == 0 then Root else Below(NameOf(a, i - 1), a[i - 1])
  }

  function Spelled(q: Name): (s: seq<Chunk>)
    ensures |s| == Depth(q)
  {
    if q.Root? then [] else Spelled(q.up) + [q.chunk]
  }

  lemma {:induction false} DepthOfName(a: seq<Chunk>, i: nat)
    requires i <= |a|
    ensures Depth(NameOf(a, i)) == i
  {
    if i > 0 {
      DepthOfName(a, i - 1);
    }
  }

  lemma {:induction false} SpelledOfName(a: seq<Chunk>, i: nat)
    requires i <= |a|
    ensures Spelled(NameOf(a, i)) == a[..i]
  {
    if i > 0 {
      SpelledOfName(a, i - 1);
      assert a[..i] == a[..i - 1] + [a[i - 1]];
    }
  }

  lemma {:induction false} NameOfPrefix(a: seq<Chunk>, b: seq<Chunk>, i: nat)
    requires i <= |a| && i <= |b| && a[..i] == b[..i]
    ensures NameOf(a, i) == NameOf(b, i)
  {
    if i > 0 {
      assert a[i - 1] == a[..i][i - 1] == b[..i][i - 1] == b[i - 1];
      assert a[..i - 1] == a[..i][..i - 1] == b[..i][..i - 1] == b[..i - 1];
      NameOfPrefix(a, b, i - 1);
    }
  }

  lemma {:induction false} NameOfSpelled(q: Name)
    ensures NameOf(Spelled(q), Depth(q)) == q
  {
    if q.Below? {
      NameOfSpelled(q.up);
      NameOfPrefix(Spelled(q), Spelled(q.up), Depth(q.up));
    }
  }

  /** The addresses a trie holds: its kids at full depth. */
  ghost function Members<K>(kids: map<Name, K>): set<seq<Chunk>> {
    set q | q in kids && Depth(q) == ADDR_LEN :: Spelled(q)
  }

  lemma MemberExact<K>(kids: map<Name, K>, a: seq<Chunk>)
    requires |a| == ADDR_LEN
    ensures a in Members(kids) <==> NameOf(a, ADDR_LEN) in kids
  {
    var q := NameOf(a, ADDR_LEN);
    DepthOfName(a, ADDR_LEN);
    SpelledOfName(a, ADDR_LEN);
    assert a[..ADDR_LEN] == a;
    if a in Members(kids) {
      var r :| r in kids && Depth(r) == ADDR_LEN && Spelled(r) == a;
      NameOfSpelled(r);
    }
  }

  /** The kids of the node named `p`. */
  ghost function Level<K>(kids: map<Name, K>, p: Name): set<K> {
    set q | q in kids && q.Below? && q.up == p :: kids[q]
  }

  ghost predicate Injective<V>(m: map<Name, V>) {
    forall p, q :: p in m && q in m && m[p] == m[q] ==> p == q
  }

  /** Every node but the root hangs below a kid, and every kid belongs to a node. */
  ghost predicate WellFormed<N, K>(nodes: map<Name, N>, kids: map<Name, K>) {
    && (forall p :: p in nodes ==> p.Root? || p in kids)
    && (forall q :: q in kids ==> q.Below?)
    && (forall q {:trigger Depth(q)} :: q in kids ==> Depth(q) <= ADDR_LEN)
    && (forall q {:trigger q.up} :: q in kids ==> q.up in nodes)
    && Injective(nodes) && Injective(kids)
  }

  /** Kids of different nodes are different kids. */
  lemma LevelsApart<N, K>(nodes: map<Name, N>, kids: map<Name, K>, p: Name, q: Name)
    requires WellFormed(nodes, kids) && p != q
    ensures Level(kids, p) !! Level(kids, q)
  {
  }

  lemma LevelAfterPut<K>(kids: map<Name, K>, p: Name, c: Chunk, k: K, q: Name)
    requires Below(p, c) in kids ==> kids[Below(p, c)] == k
    ensures Level(kids[Below(p, c) := k], q) == if q == p then Level(kids, p) + {k} else Level(kids, q)
  {
    var kids' := kids[Below(p, c) := k];
    forall j | j in Level(kids, q) ensures j in Level(kids', q) {
      var r :| r in kids && r.Below? && r.up == q && kids[r] == j;
      assert r in kids' && kids'[r] == j;
    }
    if q == p {
      assert kids'[Below(p, c)] == k && k in Level(kids', p);
    }
  }

  /** A missing node has no kids, and neither has a node at full depth. */
  lemma NoKidsBelow<N, K>(nodes: map<Name, N>, kids: map<Name, K>, p: Name)
    requires WellFormed(nodes, kids) && (p !in nodes || Depth(p) == ADDR_LEN)
    ensures Level(kids, p) == {}
  {
    forall q | q in kids && q.Below? ensures q.up != p {
      assert Depth(q) == Depth(q.up) + 1;
    }
  }

  /** A kid implies its node, and so every prefix above it. */
  lemma {:induction false} PrefixesPresent<N, K>(nodes: map<Name, N>, kids: map<Name, K>,
                                                 a: seq<Chunk>, n: nat, i: nat)
    requires WellFormed(nodes, kids) && n <= |a| && NameOf(a, n) in kids && i < n
    ensures NameOf(a, i) in nodes && NameOf(a, i + 1) in kids
    decreases n
  {
    if i < n - 1 {
      PrefixesPresent(nodes, kids, a, n - 1, i);
    }
  }

  /** One missing prefix keeps an address out. */
  lemma PrefixMissing<N, K>(nodes: map<Name, N>, kids: map<Name, K>, a: seq<Chunk>, i: nat)
    requires WellFormed(nodes, kids) && |a| == ADDR_LEN && i < ADDR_LEN
    requires NameOf(a, i) !in nodes || NameOf(a, i + 1) !in kids
    ensures a !in Members(kids)
  {
    MemberExact(kids, a);
    if NameOf(a, ADDR_LEN) in kids {
      PrefixesPresent(nodes, kids, a, ADDR_LEN, i);
      assert false;
    }
  }

  /** Exactly the kids named by the first `i` prefixes of `a` have been added. */
  ghost predicate KidsAlong<K>(was: map<Name, K>, now: map<Name, K>, a: seq<Chunk>, i: nat)
    requires i <= |a|
  {
    forall q {:trigger Depth(q)} :: q in now <==> q in was || (1 <= Depth(q) <= i && q == NameOf(a, Depth(q)))
  }

  lemma KidsAlongNext<K>(was: map<Name, K>, before: map<Name, K>, now: map<Name, K>, a: seq<Chunk>, i: nat)
    requires i < |a| && KidsAlong(was, before, a, i)
    requires now.Keys == before.Keys + {NameOf(a, i + 1)}
    ensures KidsAlong(was, now, a, i + 1)
  {
    DepthOfName(a, i + 1);
  }

  lemma MembersAlong<K>(was: map<Name, K>, now: map<Name, K>, a: seq<Chunk>)
    requires |a| == ADDR_LEN && KidsAlong(was, now, a, ADDR_LEN)
    ensures Members(now) == Members(was) + {a}
  {
    var n := NameOf(a, ADDR_LEN);
    DepthOfName(a, ADDR_LEN);
    SpelledOfName(a, ADDR_LEN);
    assert a[..ADDR_LEN] == a;
    forall b | b in Members(was) ensures b in Members(now) {
      var q :| q in was && Depth(q) == ADDR_LEN && Spelled(q) == b;
      assert q in now;
    }
    assert n in now;
    forall b | b in Members(now) ensures b in Members(was) + {a} {
      var q :| q in now && Depth(q) == ADDR_LEN && Spelled(q) == b;
    }
  }
}
