/** The slab allocator over nodes of arr_size slots: nodes with a free slot and one in use are
    available, nodes without a free slot are empty, and nodes without a slot in use rest in a
    ring, hottest last, until they are wanted again or pushed out. */
module SlabV2 {
  import opened Bits
  import B = Bitset
  import opened LinkedList
  import R = Ring
  import opened SlabState

  // ----- nodes in memory ----------------------------------------------------

  /** The nodes, the bitsets and word arrays that belong to each, and the links there are. */
  datatype Mem = Mem(info: Nodes, sets: map<B.Bitset, Node>, words: map<array<nat>, Node>, known: set<Link>)

  ghost predicate NodeOk(m: Mem, n: nat, x: Node)
    requires x in m.info
    reads x, m.sets.Keys, m.words.Keys, m.known`owner
  {
    && x.slots in m.sets && m.sets[x.slots] == x
    && x.slots.words in m.words && m.words[x.slots.words] == x
    && x.link in m.known && x.link.owner == x
    && x.count + |m.info[x].used| == n
    && x.slots.Valid() && x.slots.size == n && x.slots.Members() == m.info[x].used
  }

  ghost predicate NodesOk(m: Mem, n: nat)
    reads m.info.Keys, m.sets.Keys, m.words.Keys, m.known`owner
  {
    forall x {:trigger NodeOk(m, n, x)} :: x in m.info ==> NodeOk(m, n, x)
  }

  ghost function WithInfo(m: Mem, x: Node, f: Info): Mem {
    m.(info := m.info[x := f])
  }

  lemma Missing(n: nat, u: set<nat>) returns (j: nat)
    requires u <= Range(n) && u != Range(n)
    ensures j < n && j !in u
  {
    j :| j in Range(n) && j !in u;
  }

  method FirstFree(b: B.Bitset) returns (i: nat)
    requires b.Valid() && b.Members() <= Range(b.size) && b.Members() != Range(b.size)
    modifies b, b.words
    ensures i < b.size && i !in old(b.Members()) && forall j: nat :: j < i ==> j in old(b.Members())
    ensures b.Valid() && b.Members() == old(b.Members()) + {i}
  {
    ghost var j := Missing(b.size, b.Members());
    i := b.FirstZero();
    b.Add(i);
  }

  /** The bitset of x is new and belongs to it. */
  ghost predicate Owned(m: Mem, m': Mem, x: Node)
    reads x, x.slots
  {
    m'.sets == m.sets[x.slots := x] && m'.words == m.words[x.slots.words := x]
  }

  ghost function TakenInfo(n: nat, u: set<nat>, i: nat): Info {
    Info(if u + {i} == Range(n) then Empty else Avail, u + {i})
  }

  lemma OneMore(n: nat, u: set<nat>, i: nat)
    requires u <= Range(n) && i < n && i !in u
    ensures |u| < n && |u + {i}| == |u| + 1 && (|u| + 1 == n <==> u + {i} == Range(n))
  {
    CountTells(n, u + {i});
  }

  /** node_get: the least free slot of the node, now in use. */
  method TakeSlot(x: Node, n: nat, ghost m: Mem) returns (i: nat, ghost m': Mem)
    requires NodesOk(m, n) && x in m.info && m.info[x].used <= Range(n) && m.info[x].used != Range(n)
    modifies x`count, x.slots, x.slots.words
    ensures i < n && i !in m.info[x].used && forall j: nat :: j < i ==> j in m.info[x].used
    ensures m' == WithInfo(m, x, TakenInfo(n, m.info[x].used, i)) && NodesOk(m', n)
    ensures x.count == 0 <==> m.info[x].used + {i} == Range(n)
  {
    assert NodeOk(m, n, x);
    i := FirstFree(x.slots);
    OneMore(n, m.info[x].used, i);
    x.count := x.count - 1;
    m' := WithInfo(m, x, TakenInfo(n, m.info[x].used, i));
    forall y | y in m'.info ensures NodeOk(m', n, y) {
      assert old(NodeOk(m, n, y));
    }
  }

  ghost function GivenInfo(u: set<nat>, i: nat): Info {
    Info(if u - {i} == {} then Ring else Avail, u - {i})
  }

  lemma OneLess(n: nat, u: set<nat>, i: nat)
    requires u <= Range(n) && i in u
    ensures |u - {i}| == |u| - 1 < n && (|u| - 1 == 0 <==> u - {i} == {}) && (|u| == n <==> u == Range(n))
  {
    CountTells(n, u);
    CountTells(n, u - {i});
  }

  /** node_put: the slot is free again. */
  method GiveSlot(x: Node, i: nat, n: nat, ghost m: Mem) returns (ghost m': Mem)
    requires NodesOk(m, n) && x in m.info && i in m.info[x].used && m.info[x].used <= Range(n)
    modifies x`count, x.slots, x.slots.words
    ensures m' == WithInfo(m, x, GivenInfo(m.info[x].used, i)) && NodesOk(m', n)
    ensures (x.count == n <==> m.info[x].used - {i} == {}) && (x.count == 1 <==> m.info[x].used == Range(n))
  {
    assert NodeOk(m, n, x);
    OneLess(n, m.info[x].used, i);
    x.slots.Remove(i);
    x.count := x.count + 1;
    m' := WithInfo(m, x, GivenInfo(m.info[x].used, i));
    forall y | y in m'.info ensures NodeOk(m', n, y) {
      assert old(NodeOk(m, n, y));
    }
  }

  /** A node from the ring starts over with a cleared bitset. */
  method Refit(x: Node, n: nat, ghost m: Mem) returns (ghost m': Mem)
    requires NodesOk(m, n) && x in m.info && IsPowerOf2(n) && n / WORD_BITS > 0
    modifies x`count, x`slots
    ensures m'.info == m.info[x := Info(Avail, {})] && m'.known == m.known && NodesOk(m', n)
    ensures Owned(m, m', x) && fresh(x.slots) && fresh(x.slots.words)
  {
    assert NodeOk(m, n, x);
    x.count := n;
    x.slots := new B.Bitset(n);
    m' := Mem(m.info[x := Info(Avail, {})], m.sets[x.slots := x], m.words[x.slots.words := x], m.known);
    forall y | y in m'.info ensures NodeOk(m', n, y) {
      if y != x {
        assert old(NodeOk(m, n, y));
      }
    }
  }

  method NewNode(n: nat, ghost m: Mem) returns (x: Node, ghost m': Mem)
    requires NodesOk(m, n) && IsPowerOf2(n) && n / WORD_BITS > 0
    ensures fresh(x) && fresh(x.link) && x.link.next == x.link.prev == x.link
    ensures x !in m.info && m'.info == m.info[x := Info(Avail, {})] && m'.known == m.known + {x.link} && NodesOk(m', n)
    ensures Owned(m, m', x) && fresh(x.slots) && fresh(x.slots.words)
  {
    var b := new B.Bitset(n);
    x := new Node(n, b);
    m' := Mem(m.info[x := Info(Avail, {})], m.sets[b := x], m.words[b.words := x], m.known + {x.link});
    forall y | y in m'.info ensures NodeOk(m', n, y) {
      if y != x {
        assert old(NodeOk(m, n, y));
      }
    }
  }

  // ----- lists in memory ----------------------------------------------------

  /** The links of the nodes of a list, head first. */
  ghost function Chain(h: Link, l: seq<Node>): (c: seq<Link>)
    ensures |c| == |l| + 1 && c[0] == h && forall i :: 0 <= i < |l| ==> c[i + 1] == l[i].link
  {
    [h] + seq(|l|, i requires 0 <= i < |l| => l[i].link)
  }

  lemma ChainWithout(h: Link, l: seq<Node>, x: Node)
    requires x in l
    ensures Without(Chain(h, l), IndexOf(l, x) + 1) == Chain(h, Remove(l, x))
  {
    var a, b := Without(Chain(h, l), IndexOf(l, x) + 1), Chain(h, Remove(l, x));
    assert |a| == |b|;
    forall j | 0 <= j < |a| ensures a[j] == b[j] {
      if j > 0 {
        assert b[j] == Remove(l, x)[j - 1].link;
      }
    }
  }

  lemma ChainWith(h: Link, l: seq<Node>, x: Node)
    ensures With(Chain(h, l), 0, x.link) == Chain(h, [x] + l)
  {
    var a, b := With(Chain(h, l), 0, x.link), Chain(h, [x] + l);
    assert |a| == |b|;
    forall j | 0 <= j < |a| ensures a[j] == b[j] {
      if j > 0 {
        assert b[j] == ([x] + l)[j - 1].link;
      }
    }
  }

  /** list_rm */
  method Unlist(x: Node, ghost h: Link, ghost l: seq<Node>, ghost k: Links) returns (ghost k': Links)
    requires Mirrored(k) && Circle(k, Chain(h, l)) && x in l
    modifies k.Keys`next, k.Keys`prev
    ensures k'.Keys == k.Keys && Mirrored(k') && Circle(k', Chain(h, Remove(l, x)))
    ensures forall y :: y in k && y !in Chain(h, l) ==> k'[y] == k[y]
  {
    ChainWithout(h, l, x);
    k' := ListRm(x.link, k, Chain(h, l), IndexOf(l, x) + 1);
  }

  /** list_add_after the head */
  method Enlist(x: Node, h: Link, ghost l: seq<Node>, ghost k: Links) returns (ghost k': Links)
    requires Mirrored(k) && Circle(k, Chain(h, l)) && x.link in k && x.link !in Chain(h, l)
    modifies k.Keys`next, k.Keys`prev
    ensures k'.Keys == k.Keys && Mirrored(k') && Circle(k', Chain(h, [x] + l))
    ensures forall y :: y in k && y !in Chain(h, [x] + l) ==> k'[y] == k[y]
  {
    ChainWith(h, l, x);
    k' := ListAddAfter(h, x.link, k, Chain(h, l), 0);
  }

  /** The lists of the state, linked from their heads. */
  ghost predicate Linked(s: State, ha: Link, he: Link, k: Links) {
    ha != he && Circle(k, Chain(ha, s.avail)) && Circle(k, Chain(he, s.empty))
  }

  ghost predicate Heads(ha: Link, he: Link)
    reads ha`owner, he`owner
  {
    ha.owner == null && he.owner == null
  }

  /** The two circles have no link in common, and the links of other nodes are in neither. */
  lemma Apart(m: Mem, n: nat, h: Link, l: seq<Node>, x: Node)
    requires NodesOk(m, n) && h.owner == null && x in m.info && x !in l && forall y :: y in l ==> y in m.info
    ensures x.link !in Chain(h, l)
  {
    assert NodeOk(m, n, x);
    forall i | 0 <= i < |l| ensures l[i].link != x.link {
      assert NodeOk(m, n, l[i]);
    }
  }

  lemma CirclesApart(m: Mem, n: nat, ha: Link, a: seq<Node>, he: Link, e: seq<Node>)
    requires NodesOk(m, n) && Heads(ha, he) && ha != he
    requires forall y :: y in a ==> y in m.info && y !in e
    requires forall y :: y in e ==> y in m.info
    ensures forall i, j :: 0 <= i <= |a| && 0 <= j <= |e| ==> Chain(ha, a)[i] != Chain(he, e)[j]
  {
    forall i | 0 <= i < |a| ensures a[i].link.owner == a[i] {
      assert NodeOk(m, n, a[i]);
    }
    forall j | 0 <= j < |e| ensures e[j].link.owner == e[j] {
      assert NodeOk(m, n, e[j]);
    }
    forall i, j | 0 <= i <= |a| && 0 <= j <= |e| ensures Chain(ha, a)[i] != Chain(he, e)[j] {
      if i > 0 {
        assert Chain(ha, a)[i] == a[i - 1].link && a[i - 1] in a;
      }
      if j > 0 {
        assert Chain(he, e)[j] == e[j - 1].link && e[j - 1] in e;
      }
    }
  }

  // ----- one step at a time -------------------------------------------------

  ghost predicate Known(s: State) {
    (forall y :: y in s.avail ==> y in s.info && y !in s.empty) && (forall y :: y in s.empty ==> y in s.info)
  }

  /** The memory holds the state `s`; the ring is spoken of separately. */
  ghost predicate Stage(s: State, m: Mem, k: Links, ha: Link, he: Link, n: nat)
    reads m.info.Keys, m.sets.Keys, m.words.Keys, m.known, ha`owner, he`owner
  {
    && m.info == s.info && m.known == k.Keys && Heads(ha, he)
    && NodesOk(m, n) && Mirrored(k) && Linked(s, ha, he, k)
  }

  /** The head's next is the first node of the list, or the head itself. */
  lemma FirstOf(k: Links, h: Link, l: seq<Node>)
    requires Circle(k, Chain(h, l))
    ensures h in k && k[h].next == if l == [] then h else l[0].link
  {
    assert JoinedAt(k, Chain(h, l), 0);
  }

  /** Adding fresh or unlisted links to the map changes no circle. */
  lemma MoreLinks(s: State, ha: Link, he: Link, k: Links, k': Links)
    requires Linked(s, ha, he, k)
    requires forall y :: y in Chain(ha, s.avail) || y in Chain(he, s.empty) ==> y in k' && k'[y] == k[y]
    ensures Linked(s, ha, he, k')
  {
    CircleFrame(k, k', Chain(ha, s.avail));
    CircleFrame(k, k', Chain(he, s.empty));
  }

  /** A node that is in no list becomes the first available one. */
  method MakeFirst(x: Node, ha: Link, he: Link, n: nat, ghost s: State, ghost m: Mem, ghost k: Links)
    returns (ghost k': Links)
    requires m.known == k.Keys && NodesOk(m, n) && Mirrored(k) && Linked(s, ha, he, k) && Heads(ha, he)
    requires x in m.info && x !in s.avail && x !in s.empty
    requires forall y :: y in s.avail ==> y in m.info && y !in s.empty
    requires forall y :: y in s.empty ==> y in m.info
    modifies k.Keys`next, k.Keys`prev
    ensures k'.Keys == k.Keys && Mirrored(k') && NodesOk(m, n)
    ensures Linked(s.(avail := [x] + s.avail), ha, he, k')
  {
    assert NodeOk(m, n, x);
    Apart(m, n, ha, s.avail, x);
    CirclesApart(m, n, ha, [x] + s.avail, he, s.empty);
    k' := Enlist(x, ha, s.avail, k);
    CircleFrame(k, k', Chain(he, s.empty));
  }

  /** node_new when the ring is empty. */
  method Allocated(n: nat, ha: Link, he: Link, ghost s: State, ghost m: Mem, ghost k: Links)
    returns (x: Node, ghost m': Mem, ghost k': Links)
    requires Stage(s, m, k, ha, he, n) && Known(s) && IsPowerOf2(n) && n / WORD_BITS > 0
    modifies k.Keys`next, k.Keys`prev
    ensures fresh(x) && x !in s.info
    ensures m'.info == s.info[x := Info(Avail, {})] && m'.known == k'.Keys
    ensures NodesOk(m', n) && Mirrored(k') && Linked(s.(avail := [x] + s.avail), ha, he, k')
    ensures fresh(x.link) && k'.Keys == k.Keys + {x.link}
    ensures Owned(m, m', x) && fresh(x.slots) && fresh(x.slots.words)
  {
    x, m' := NewNode(n, m);
    ghost var k1 := k[x.link := Ends(x.link, x.link)];
    LinkedKeys(s, ha, he, k);
    MoreLinks(s, ha, he, k, k1);
    k' := MakeFirst(x, ha, he, n, s, m', k1);
  }

  lemma LinkedKeys(s: State, ha: Link, he: Link, k: Links)
    requires Linked(s, ha, he, k)
    ensures forall y :: y in Chain(ha, s.avail) || y in Chain(he, s.empty) ==> y in k
  {
  }

  /** node_new when the ring has a node: it starts over. */
  method Reused(x: Node, n: nat, ha: Link, he: Link, ghost s: State, ghost m: Mem, ghost k: Links)
    returns (ghost m': Mem, ghost k': Links)
    requires Stage(s, m, k, ha, he, n) && Known(s) && IsPowerOf2(n) && n / WORD_BITS > 0
    requires x in s.info && x !in s.avail && x !in s.empty
    modifies x`count, x`slots, k.Keys`next, k.Keys`prev
    ensures m'.info == s.info[x := Info(Avail, {})] && m'.known == k'.Keys && k'.Keys == k.Keys
    ensures NodesOk(m', n) && Mirrored(k') && Linked(s.(avail := [x] + s.avail), ha, he, k')
    ensures Owned(m, m', x) && fresh(x.slots) && fresh(x.slots.words)
  {
    assert NodeOk(m, n, x);
    k' := Restarted(x, ha, he, s, m, n, k);
    k' := MakeFirst(x, ha, he, n, s, m, k');
    m' := Refit(x, n, m);
  }

  method Restarted(x: Node, ha: Link, he: Link, ghost s: State, ghost m: Mem, ghost n: nat, ghost k: Links)
    returns (ghost k': Links)
    requires NodesOk(m, n) && Heads(ha, he) && Linked(s, ha, he, k) && Mirrored(k) && m.info == s.info && Known(s)
    requires x in m.info && x.link in k && x !in s.avail && x !in s.empty
    modifies x.link`next, x.link`prev
    ensures k'.Keys == k.Keys && Linked(s, ha, he, k') && Mirrored(k') && NodesOk(m, n)
  {
    Apart(m, n, ha, s.avail, x);
    Apart(m, n, he, s.empty, x);
    k' := ListInit(x.link, k);
    LinkedKeys(s, ha, he, k);
    MoreLinks(s, ha, he, k, k');
  }

  /** list_init on the links of a node that was in a list before. */
  method ListInit(l: Link, ghost k: Links) returns (ghost k': Links)
    requires Mirrored(k) && l in k
    modifies l`next, l`prev
    ensures k' == k[l := Ends(l, l)] && Mirrored(k')
  {
    l.next := l;
    l.prev := l;
    k' := k[l := Ends(l, l)];
  }

  lemma SortedKnown(s: State)
    requires Sorted(s)
    ensures Known(s)
  {
  }

  lemma RemovedGone(l: seq<Node>, x: Node)
    requires x in l && forall i, j :: 0 <= i < j < |l| ==> l[i] != l[j]
    ensures x !in Remove(l, x) && forall y :: y in Remove(l, x) ==> y in l
  {
  }

  /** A node of one list becomes the first of the other. */
  method Relist(x: Node, ghost hf: Link, ghost from: seq<Node>, ht: Link, ghost to: seq<Node>, ghost m: Mem,
                ghost n: nat, ghost k: Links)
    returns (ghost k': Links)
    requires NodesOk(m, n) && Mirrored(k) && m.known == k.Keys && Heads(hf, ht) && hf != ht && x in from
    requires Circle(k, Chain(hf, from)) && Circle(k, Chain(ht, to))
    requires forall i, j :: 0 <= i < j < |from| ==> from[i] != from[j]
    requires forall y :: y in from ==> y in m.info && y !in to
    requires forall y :: y in to ==> y in m.info
    modifies k.Keys`next, k.Keys`prev
    ensures k'.Keys == k.Keys && Mirrored(k') && NodesOk(m, n)
    ensures Circle(k', Chain(hf, Remove(from, x))) && Circle(k', Chain(ht, [x] + to))
  {
    assert NodeOk(m, n, x);
    CirclesApart(m, n, hf, from, ht, to);
    var k1 := Unlist(x, hf, from, k);
    CircleFrame(k, k1, Chain(ht, to));
    RemovedGone(from, x);
    CirclesApart(m, n, hf, Remove(from, x), ht, [x] + to);
    Apart(m, n, ht, to, x);
    k' := Enlist(x, ht, to, k1);
    CircleFrame(k1, k', Chain(hf, Remove(from, x)));
  }

  /** A node of a list becomes the first of it. */
  method Front(x: Node, h: Link, ghost l: seq<Node>, ghost ho: Link, ghost other: seq<Node>, ghost m: Mem,
               ghost n: nat, ghost k: Links)
    returns (ghost k': Links)
    requires NodesOk(m, n) && Mirrored(k) && m.known == k.Keys && Heads(h, ho) && h != ho && x in l
    requires Circle(k, Chain(h, l)) && Circle(k, Chain(ho, other))
    requires (forall i, j :: 0 <= i < j < |l| ==> l[i] != l[j]) && forall y :: y in l ==> y in m.info && y !in other
    requires forall y :: y in other ==> y in m.info
    modifies k.Keys`next, k.Keys`prev
    ensures k'.Keys == k.Keys && Mirrored(k') && NodesOk(m, n)
    ensures Circle(k', Chain(h, [x] + Remove(l, x))) && Circle(k', Chain(ho, other))
  {
    assert NodeOk(m, n, x);
    CirclesApart(m, n, h, l, ho, other);
    var k1 := Unlist(x, h, l, k);
    CircleFrame(k, k1, Chain(ho, other));
    RemovedGone(l, x);
    CirclesApart(m, n, h, [x] + Remove(l, x), ho, other);
    Apart(m, n, h, Remove(l, x), x);
    k' := Enlist(x, h, Remove(l, x), k1);
    CircleFrame(k1, k', Chain(ho, other));
  }

  ghost predicate RingHolds(ring: R.Ring<Node?>, q: seq<Node>)
    reads ring, ring.buf
  {
    ring.Valid() && ring.Deque() == q
  }

  /** The rest of a get, once a node with a free slot heads the available ones. */
  method Take(x: Node, ha: Link, he: Link, n: nat, ghost s: State, ghost m: Mem, ghost k: Links,
              ghost ring: R.Ring<Node?>)
    returns (i: nat, ghost m': Mem, ghost k': Links)
    requires Stage(s, m, k, ha, he, n) && Sorted(s) && s.avail != [] && s.avail[0] == x && RingHolds(ring, s.ring)
    requires s.info[x].used <= Range(n) && s.info[x].used != Range(n)
    modifies x`count, x.slots, x.slots.words, k.Keys`next, k.Keys`prev
    ensures i < n && i !in s.info[x].used && forall j: nat :: j < i ==> j in s.info[x].used
    ensures Stage(Taken(s, n, i), m', k', ha, he, n) && RingHolds(ring, Taken(s, n, i).ring)
    ensures k'.Keys == k.Keys && m'.info.Keys == m.info.Keys && m'.sets == m.sets && m'.words == m.words
  {
    SortedKnown(s);
    i, m' := TakeSlot(x, n, m);
    k' := k;
    if x.count == 0 {
      k' := Relist(x, ha, s.avail, he, s.empty, m', n, k);
      assert Remove(s.avail, x) == s.avail[1..];
    }
  }

  /** Everything in memory that belongs to a slab. */
  ghost predicate Footprint(m: Mem, k: Links, ring: R.Ring<Node?>, repr: set<object>) {
    && ring in repr && ring.buf in repr && m.info.Keys <= repr
    && m.sets.Keys <= repr && m.words.Keys <= repr && k.Keys <= repr
  }

  /** node_new: the hottest node of the ring, or a new one, heads the available ones. */
  method Renew(ring: R.Ring<Node?>, ha: Link, he: Link, n: nat, ghost s: State, ghost m: Mem, ghost k: Links)
    returns (x: Node, ghost m': Mem, ghost k': Links)
    requires Stage(s, m, k, ha, he, n) && Known(s) && s.avail == [] && IsPowerOf2(n) && n / WORD_BITS > 0
    requires RingHolds(ring, s.ring) && forall y :: y in s.ring ==> y in s.info && y !in s.empty
    modifies ring, m.info.Keys`count, m.info.Keys`slots, k.Keys`next, k.Keys`prev
    ensures Serves(s, x) && Stage(Opened(s, x), m', k', ha, he, n) && RingHolds(ring, Opened(s, x).ring)
    ensures m'.sets == m.sets[x.slots := x] && m'.words == m.words[x.slots.words := x]
    ensures fresh(x.slots) && fresh(x.slots.words)
    ensures if s.ring == [] then fresh(x) && fresh(x.link) && k'.Keys == k.Keys + {x.link} else k'.Keys == k.Keys
  {
    if !ring.Empty() {
      var y := ring.RdBack();
      assert y == s.ring[|s.ring| - 1];
      x := y;
      m', k' := Reused(x, n, ha, he, s, m, k);
    } else {
      x, m', k' := Allocated(n, ha, he, s, m, k);
    }
    assert [x] + s.avail == [x];
  }

  method RenewIn(ring: R.Ring<Node?>, ha: Link, he: Link, n: nat, ghost s: State, ghost m: Mem, ghost k: Links)
    returns (x: Node, ghost m': Mem, ghost k': Links)
    requires Stage(s, m, k, ha, he, n) && Known(s) && s.avail == [] && IsPowerOf2(n) && n / WORD_BITS > 0
    requires RingHolds(ring, s.ring) && forall y :: y in s.ring ==> y in s.info && y !in s.empty
    modifies ring, m.info.Keys`count, m.info.Keys`slots, k.Keys`next, k.Keys`prev
    ensures Serves(s, x) && Stage(Opened(s, x), m', k', ha, he, n) && RingHolds(ring, Opened(s, x).ring)
    ensures m'.sets == m.sets[x.slots := x] && m'.words == m.words[x.slots.words := x]
    ensures fresh(x.slots) && fresh(x.slots.words)
    ensures (x in s.info || fresh(x)) && (x.link in k || fresh(x.link)) && k'.Keys == k.Keys + {x.link}
  {
    x, m', k' := Renew(ring, ha, he, n, s, m, k);
    if s.ring != [] {
      assert NodeOk(m', n, x);
    }
  }

  lemma SortedRing(s: State)
    requires Sorted(s)
    ensures forall y :: y in s.ring ==> y in s.info && y !in s.empty
  {
  }

  /** The first part of a get: some node with a free slot heads the available ones. */
  method Open(ring: R.Ring<Node?>, ha: Link, he: Link, n: nat, ghost s: State, ghost m: Mem, ghost k: Links,
              ghost repr: set<object>)
    returns (x: Node, ghost m': Mem, ghost k': Links, ghost repr': set<object>)
    requires Stage(s, m, k, ha, he, n) && Sorted(s) && IsPowerOf2(n) && n / WORD_BITS > 0
    requires RingHolds(ring, s.ring) && Footprint(m, k, ring, repr)
    modifies repr
    ensures Serves(s, x) && Stage(Opened(s, x), m', k', ha, he, n) && RingHolds(ring, Opened(s, x).ring)
    ensures Footprint(m', k', ring, repr') && repr <= repr' && fresh(repr' - repr)
  {
    FirstOf(k, ha, s.avail);
    if ha.next != ha {
      x := FirstNode(ha, s.avail, m, n, k);
      m', k', repr' := m, k, repr;
    } else {
      SortedKnown(s);
      SortedRing(s);
      x, m', k' := RenewIn(ring, ha, he, n, s, m, k);
      repr' := repr + {x, x.link, x.slots, x.slots.words};
    }
  }

  /** The hottest end of the ring takes a node; when the ring is full the coldest node goes. */
  method Rest(x: Node, ring: R.Ring<Node?>, ghost q: seq<Node>)
    requires ring.Valid() && ring.Deque() == q && ring.size > 0
    modifies ring, ring.buf
    ensures ring.Valid() && ring.Deque() == (if |q| == ring.size then q[1..] else q) + [x]
  {
    if ring.Full() {
      var y := ring.RdFront();
    }
    ring.WrBack(x);
  }

  lemma NodesLess(m: Mem, n: nat, s: State, r: nat, x: Node)
    requires NodesOk(m, n) && x in s.avail && (|s.ring| == r ==> r > 0) && m.info == s.info[x := Info(Ring, {})]
    ensures NodesOk(m.(info := Retired(s, r, x).info), n)
  {
    var m' := m.(info := Retired(s, r, x).info);
    forall y | y in m'.info ensures NodeOk(m', n, y) {
      assert NodeOk(m, n, y);
    }
  }

  /** node_free: a node with no slot in use leaves the available ones for the ring, and the
      coldest node makes room for it. */
  method Retire(x: Node, ring: R.Ring<Node?>, ghost ha: Link, ghost he: Link, n: nat, ghost s: State, ghost m: Mem,
                ghost k: Links)
    returns (ghost m': Mem, ghost k': Links)
    requires NodesOk(m, n) && Mirrored(k) && m.known == k.Keys && Heads(ha, he) && Linked(s, ha, he, k)
    requires Known(s) && x in s.avail && m.info == s.info[x := Info(Ring, {})]
    requires ring.Valid() && ring.Deque() == s.ring && ring.size > 0
    modifies ring, ring.buf, k.Keys`next, k.Keys`prev
    ensures Stage(Retired(s, ring.size, x), m', k', ha, he, n) && k'.Keys == k.Keys
    ensures ring.Valid() && ring.Deque() == Retired(s, ring.size, x).ring
    ensures m'.sets == m.sets && m'.words == m.words
  {
    k' := Withdraw(x, ha, he, n, s, m, k);
    Rest(x, ring, s.ring);
    NodesLess(m, n, s, ring.size, x);
    m' := m.(info := Retired(s, ring.size, x).info);
  }

  method Withdraw(x: Node, ghost ha: Link, ghost he: Link, ghost n: nat, ghost s: State, ghost m: Mem, ghost k: Links)
    returns (ghost k': Links)
    requires NodesOk(m, n) && Mirrored(k) && m.known == k.Keys && Heads(ha, he) && Linked(s, ha, he, k)
    requires Known(s) && x in s.avail && m.info.Keys == s.info.Keys
    modifies k.Keys`next, k.Keys`prev
    ensures k'.Keys == k.Keys && Mirrored(k') && NodesOk(m, n) && Linked(s.(avail := Remove(s.avail, x)), ha, he, k')
  {
    CirclesApart(m, n, ha, s.avail, he, s.empty);
    k' := Unlist(x, ha, s.avail, k);
    CircleFrame(k, k', Chain(he, s.empty));
  }

  /** The node that the head of a list leads to. */
  method FirstNode(h: Link, ghost l: seq<Node>, ghost m: Mem, ghost n: nat, ghost k: Links) returns (x: Node)
    requires NodesOk(m, n) && Mirrored(k) && Circle(k, Chain(h, l)) && l != [] && l[0] in m.info
    ensures x == l[0]
  {
    FirstOf(k, h, l);
    assert NodeOk(m, n, l[0]);
    x := h.next.owner as Node;
  }

  /** A node that now has more free slots than the first available one becomes the first. */
  method Promote(x: Node, ha: Link, he: Link, ghost n: nat, ghost s: State, ghost m: Mem, ghost k: Links)
    returns (ghost k': Links)
    requires NodesOk(m, n) && Mirrored(k) && m.known == k.Keys && Heads(ha, he) && Linked(s, ha, he, k)
    requires Sorted(s) && x in s.avail && m.info.Keys == s.info.Keys
    modifies k.Keys`next, k.Keys`prev
    ensures k'.Keys == k.Keys && Mirrored(k') && NodesOk(m, n)
    ensures var more := |m.info[x].used| < |m.info[s.avail[0]].used|;
            Linked(if more then s.(avail := [x] + Remove(s.avail, x)) else s, ha, he, k')
  {
    var first := FirstNode(ha, s.avail, m, n, k);
    assert NodeOk(m, n, x) && NodeOk(m, n, first);
    k' := k;
    if x.count > first.count {
      SortedKnown(s);
      k' := Front(x, ha, s.avail, he, s.empty, m, n, k);
    }
  }

  /** The rest of a put, once the slot is free. */
  method Settle(x: Node, ring: R.Ring<Node?>, ha: Link, he: Link, n: nat, ghost s: State, ghost m: Mem, ghost k: Links)
    returns (ghost m': Mem, ghost k': Links)
    requires NodesOk(m, n) && Mirrored(k) && m.known == k.Keys && Heads(ha, he) && Linked(s, ha, he, k) && Sorted(s)
    requires ring.Valid() && ring.Deque() == s.ring && ring.size > 0
    requires x in m.info && m.info == s.info[x := m.info[x]]
    requires m.info[x].place == if m.info[x].used == {} then Ring else Avail
    requires if x in s.info && s.info[x].place == Empty then x in s.empty && m.info[x].used != {} else x in s.avail
    requires x.count == n <==> m.info[x].used == {}
    requires x.count == 1 && x.count != n <==> x in s.info && s.info[x].place == Empty
    modifies ring, ring.buf, k.Keys`next, k.Keys`prev
    ensures var s' := Settled(s, ring.size, x, m.info[x].used);
            Stage(s', m', k', ha, he, n) && ring.Valid() && ring.Deque() == s'.ring
    ensures k'.Keys == k.Keys && m'.sets == m.sets && m'.words == m.words
  {
    m' := m;
    SortedKnown(s);
    if x.count == n {
      m', k' := Retire(x, ring, ha, he, n, s, m', k);
    } else if x.count == 1 {
      k' := Relist(x, he, s.empty, ha, s.avail, m', n, k);
    } else {
      k' := Promote(x, ha, he, n, s, m', k);
    }
  }

  lemma ServedRoom(s: State, n: nat, r: nat, x: Node)
    requires Ok(s, n, r) && n > 0 && Serves(s, x)
    ensures Sorted(Opened(s, x)) && Opened(s, x).avail != [] && Opened(s, x).avail[0] == x
    ensures Opened(s, x).info[x].used == SlotsOf(s, x) && SlotsOf(s, x) <= Range(n) && SlotsOf(s, x) != Range(n)
  {
    OpenedSorted(s, x);
    assert 0 in Range(n);
  }

  /** Take, among everything in memory that belongs to the slab. */
  method TakeWithin(x: Node, ring: R.Ring<Node?>, ha: Link, he: Link, n: nat, ghost s: State, ghost m: Mem,
                    ghost k: Links, ghost repr: set<object>)
    returns (i: nat, ghost m': Mem, ghost k': Links)
    requires Stage(s, m, k, ha, he, n) && Sorted(s) && s.avail != [] && s.avail[0] == x && RingHolds(ring, s.ring)
    requires s.info[x].used <= Range(n) && s.info[x].used != Range(n) && Footprint(m, k, ring, repr)
    modifies repr
    ensures i < n && i !in s.info[x].used && forall j: nat :: j < i ==> j in s.info[x].used
    ensures Stage(Taken(s, n, i), m', k', ha, he, n) && RingHolds(ring, Taken(s, n, i).ring)
    ensures Footprint(m', k', ring, repr)
  {
    assert NodeOk(m, n, x);
    i, m', k' := Take(x, ha, he, n, s, m, k, ring);
  }

  /** What a get does. */
  method GetSlot(ring: R.Ring<Node?>, ha: Link, he: Link, n: nat, ghost s: State, ghost m: Mem, ghost k: Links,
                 ghost repr: set<object>)
    returns (x: Node, i: nat, ghost m': Mem, ghost k': Links, ghost repr': set<object>)
    requires Stage(s, m, k, ha, he, n) && Ok(s, n, ring.size) && IsPowerOf2(n) && n / WORD_BITS > 0
    requires RingHolds(ring, s.ring) && Footprint(m, k, ring, repr)
    modifies repr
    ensures Serves(s, x) && i < n && i !in SlotsOf(s, x) && forall j: nat :: j < i ==> j in SlotsOf(s, x)
    ensures var s' := Taken(Opened(s, x), n, i);
            Stage(s', m', k', ha, he, n) && RingHolds(ring, s'.ring)
    ensures Footprint(m', k', ring, repr') && repr <= repr' && fresh(repr' - repr)
  {
    x, m', k', repr' := Open(ring, ha, he, n, s, m, k, repr);
    ServedRoom(s, n, ring.size, x);
    i, m', k' := TakeWithin(x, ring, ha, he, n, Opened(s, x), m', k', repr');
  }

  /** What a put does. */
  method PutSlot(x: Node, i: nat, ring: R.Ring<Node?>, ha: Link, he: Link, n: nat, ghost s: State, ghost m: Mem,
                 ghost k: Links)
    returns (ghost m': Mem, ghost k': Links)
    requires Stage(s, m, k, ha, he, n) && Ok(s, n, ring.size) && n > 1 && i in SlotsOf(s, x)
    requires ring.Valid() && ring.Deque() == s.ring && ring.size > 0
    modifies x`count, x.slots, x.slots.words, ring, ring.buf, k.Keys`next, k.Keys`prev
    ensures var s' := Returned(s, n, ring.size, x, i);
            Stage(s', m', k', ha, he, n) && ring.Valid() && ring.Deque() == s'.ring
    ensures k'.Keys == k.Keys && m'.sets == m.sets && m'.words == m.words
  {
    PlaceTells(s, n, ring.size, x, i);
    m' := GiveSlot(x, i, n, m);
    m', k' := Settle(x, ring, ha, he, n, s, m', k);
  }

  /** The lists, the ring, the nodes and their bitsets in memory are the state, and the state is
      sound: each node is in exactly one place and its slots in use fit that place. */
  ghost predicate Held(n: nat, ring: R.Ring<Node?>, ha: Link, he: Link, s: State, m: Mem, k: Links, repr: set<object>)
    reads m.info.Keys, m.sets.Keys, m.words.Keys, m.known, ha`owner, he`owner, ring, ring.buf
  {
    && IsPowerOf2(n) && n / WORD_BITS > 0 && ring.size > 0
    && Ok(s, n, ring.size) && RingHolds(ring, s.ring) && Stage(s, m, k, ha, he, n) && Footprint(m, k, ring, repr)
  }

  /** What a slab is made of, beside its constant parts. */
  datatype Parts = Parts(state: State, mem: Mem, links: Links, repr: set<object>)

  ghost predicate GetSpec(s: State, n: nat, x: Node, i: nat, s': State) {
    && Serves(s, x) && i < n && i !in SlotsOf(s, x) && (forall j: nat :: j < i ==> j in SlotsOf(s, x))
    && Opened(s, x).avail != [] && Opened(s, x).avail[0] in Opened(s, x).info && s' == Taken(Opened(s, x), n, i)
    && SlotsOf(s', x) == SlotsOf(s, x) + {i} && GetLists(s, n, x, i, s')
    && forall y :: y in s.info && y != x ==> y in s'.info && SlotsOf(s', y) == SlotsOf(s, y)
  }

  method GetHeld(n: nat, ring: R.Ring<Node?>, ha: Link, he: Link, ghost s: State, ghost m: Mem, ghost k: Links,
                 ghost repr: set<object>)
    returns (x: Node, i: nat, ghost s': State, ghost m': Mem, ghost k': Links, ghost repr': set<object>)
    requires Held(n, ring, ha, he, s, m, k, repr)
    modifies repr
    ensures Held(n, ring, ha, he, s', m', k', repr') && repr <= repr' && fresh(repr' - repr)
    ensures GetSpec(s, n, x, i, s')
  {
    x, i, m', k', repr' := GetSlot(ring, ha, he, n, s, m, k, repr);
    GetOk(s, n, ring.size, x, i);
    GetListsOk(s, n, ring.size, x, i);
    s' := Taken(Opened(s, x), n, i);
  }

  ghost predicate PutSpec(s: State, n: nat, r: nat, x: Node, i: nat, s': State) {
    && Ok(s, n, r) && n > 1 && r > 0 && i in SlotsOf(s, x) && s' == Returned(s, n, r, x, i)
    && SlotsOf(s', x) == SlotsOf(s, x) - {i} && s'.info.Keys <= s.info.Keys && PutLists(s, n, r, x, i, s')
    && forall y :: y in s.info && y != x ==> SlotsOf(s', y) == SlotsOf(s, y)
  }

  method PutHeld(x: Node, i: nat, n: nat, ring: R.Ring<Node?>, ha: Link, he: Link, ghost p: Parts)
    returns (ghost p': Parts)
    requires Held(n, ring, ha, he, p.state, p.mem, p.links, p.repr) && i in SlotsOf(p.state, x)
    modifies p.repr
    ensures Held(n, ring, ha, he, p'.state, p'.mem, p'.links, p'.repr) && p'.repr == p.repr
    ensures PutSpec(p.state, n, ring.size, x, i, p'.state)
  {
    PutOk(p.state, n, ring.size, x, i);
    PutListsOk(p.state, n, ring.size, x, i);
    assert NodeOk(p.mem, n, x);
    ghost var m, k := PutSlot(x, i, ring, ha, he, n, p.state, p.mem, p.links);
    p' := Parts(Returned(p.state, n, ring.size, x, i), m, k, p.repr);
  }

  /** An empty ring, two empty lists and no nodes. */
  method Blank(n: nat, ringSize: nat)
    returns (ring: R.Ring<Node?>, ha: Link, he: Link, ghost m: Mem, ghost k: Links, ghost repr: set<object>)
    requires IsPowerOf2(n) && n / WORD_BITS > 0 && IsPowerOf2(ringSize) && ringSize < WORD_SIZE
    ensures Held(n, ring, ha, he, State([], [], [], map[]), m, k, repr) && fresh(repr) && ring.size == ringSize
  {
    ring := new R.Ring<Node?>(ringSize);
    ha := new Link();
    he := new Link();
    m := Mem(map[], map[], map[], {ha, he});
    k := map[ha := Ends(ha, ha), he := Ends(he, he)];
    repr := {ha, he, ring, ring.buf};
    EmptyCircle(k, ha);
    EmptyCircle(k, he);
  }

  lemma EmptyCircle(k: Links, h: Link)
    requires h in k && k[h] == Ends(h, h)
    ensures Circle(k, Chain(h, []))
  {
    assert JoinedAt(k, Chain(h, []), 0);
  }

  class Slab {
    const arrSize: nat
    const ring: R.Ring<Node?>
    const avail: Link
    const empty: Link
    ghost var parts: Parts

    ghost predicate Valid()
      reads this, parts.mem.info.Keys, parts.mem.sets.Keys, parts.mem.words.Keys, parts.mem.known
      reads avail`owner, empty`owner, ring, ring.buf
    {
      Held(arrSize, ring, avail, empty, parts.state, parts.mem, parts.links, parts.repr) && this !in parts.repr
    }

    constructor (arrSize: nat, ringSize: nat)
      requires IsPowerOf2(arrSize) && arrSize / WORD_BITS > 0 && IsPowerOf2(ringSize) && ringSize < WORD_SIZE
      ensures Valid() && fresh(parts.repr) && parts.state == State([], [], [], map[])
      ensures this.arrSize == arrSize && ring.size == ringSize
    {
      var q, a, e;
      ghost var m, k, r;
      q, a, e, m, k, r := Blank(arrSize, ringSize);
      this.arrSize, ring, avail, empty := arrSize, q, a, e;
      parts := Parts(State([], [], [], map[]), m, k, r);
    }

    /** A slot that no live pointer names, in the first available node, the hottest resting node
        or a new one; every other slot stays as it is. */
    method Get() returns (x: Node, i: nat)
      requires Valid()
      modifies this, parts.repr
      ensures Valid() && old(parts.repr) <= parts.repr && fresh(parts.repr - old(parts.repr))
      ensures GetSpec(old(parts.state), arrSize, x, i, parts.state)
    {
      ghost var s, m, k, r;
      x, i, s, m, k, r := GetHeld(arrSize, ring, avail, empty, parts.state, parts.mem, parts.links, parts.repr);
      parts := Parts(s, m, k, r);
    }

    /** The slot is free again and every other slot stays as it is. */
    method Put(x: Node, i: nat)
      requires Valid() && i in SlotsOf(parts.state, x)
      modifies this, parts.repr
      ensures Valid() && parts.repr == old(parts.repr)
      ensures PutSpec(old(parts.state), arrSize, ring.size, x, i, parts.state)
    {
      ghost var p := PutHeld(x, i, arrSize, ring, avail, empty, parts);
      parts := p;
    }

    /** A get right after a put: which node serves it. */
    method PutThenGet(x: Node, i: nat) returns (y: Node, j: nat)
      requires Valid() && i in SlotsOf(parts.state, x)
      modifies this, parts.repr
      ensures Valid() && ServedNext(old(parts.state), arrSize, x, i, y)
    {
      ghost var s := parts.state;
      Put(x, i);
      ghost var s' := parts.state;
      y, j := Get();
      PutThenServes(s, arrSize, ring.size, x, i, s', y);
    }
  }
}
