/** The pointer set whose trie levels are linked lists sorted by chunk. */
module ListSet {
  import opened TrieShape

  class ListNode {
    var kids: Kid?

    constructor ()
      ensures kids == null
    {
      kids := null;
    }
  }

  class Kid {
    const v: Chunk
    var edge: ListNode?
    var next: Kid?

    constructor (v: Chunk, next: Kid?)
      ensures this.v == v && edge == null && this.next == next
    {
      this.v, edge, this.next := v, null, next;
    }
  }

  // ----- one level ----------------------------------------------------------

  datatype KidList = Nil | Cons(kid: Kid, rest: KidList)

  /** The next fields of a collection of kids, mirrored in a map. */
  type Nexts = map<Kid, Kid?>

  ghost function KidsOf(s: KidList): set<Kid> {
    if s.Nil? then {} else {s.kid} + KidsOf(s.rest)
  }

  /** Strictly ascending chunks. */
  ghost predicate Ascending(s: KidList) {
    s.Cons? ==> (s.rest.Cons? ==> s.kid.v < s.rest.kid.v) && Ascending(s.rest)
  }

  ghost predicate Chain(m: Nexts, at: Kid?, s: KidList)
    decreases s
  {
    match s
    case Nil => at == null
    case Cons(k, rest) => at == k && k in m && Chain(m, m[k], rest)
  }

  ghost predicate SameOn(m: Nexts, m': Nexts, s: set<Kid>) {
    forall k :: k in s && k in m ==> k in m' && m'[k] == m[k]
  }

  lemma {:induction false} ChainFrame(m: Nexts, m': Nexts, at: Kid?, s: KidList)
    requires Chain(m, at, s) && SameOn(m, m', KidsOf(s))
    ensures Chain(m', at, s)
    decreases s
  {
    if s.Cons? {
      ChainFrame(m, m', m[s.kid], s.rest);
    }
  }

  lemma {:induction false} AscendingHead(s: KidList, k: Kid)
    requires Ascending(s) && k in KidsOf(s)
    ensures s.kid.v <= k.v && (k.v == s.kid.v ==> k == s.kid)
  {
    if k != s.kid {
      AscendingHead(s.rest, k);
    }
  }

  /** Where a new kid with chunk c goes: behind the last kid with a smaller chunk. */
  ghost function Pred(s: KidList, c: Chunk): Kid? {
    if s.Nil? || s.kid.v > c then null
    else if Pred(s.rest, c) == null then s.kid else Pred(s.rest, c)
  }

  ghost function After(s: KidList, c: Chunk): Kid? {
    if s.Nil? then null else if s.kid.v > c then s.kid else After(s.rest, c)
  }

  ghost function Insert(s: KidList, k: Kid): KidList {
    if s.Nil? || s.kid.v > k.v then Cons(k, s) else Cons(s.kid, Insert(s.rest, k))
  }

  ghost predicate Lacks(s: KidList, c: Chunk) {
    s.Cons? ==> s.kid.v != c && Lacks(s.rest, c)
  }

  lemma {:induction false} LacksExact(s: KidList, c: Chunk)
    ensures Lacks(s, c) <==> forall k :: k in KidsOf(s) ==> k.v != c
  {
    if s.Cons? {
      LacksExact(s.rest, c);
    }
  }

  /** A sorted list with room for a chunk takes a new kid and stays sorted. */
  lemma {:induction false} InsertSorted(s: KidList, k: Kid)
    requires Ascending(s) && Lacks(s, k.v)
    ensures Ascending(Insert(s, k)) && KidsOf(Insert(s, k)) == KidsOf(s) + {k}
  {
    if s.Cons? && s.kid.v < k.v {
      InsertSorted(s.rest, k);
    }
  }

  lemma {:induction false} PredInList(s: KidList, c: Chunk)
    ensures Pred(s, c) != null ==> Pred(s, c) in KidsOf(s)
  {
    if s.Cons? {
      PredInList(s.rest, c);
    }
  }

  /** Linking the new kid behind its predecessor spells the longer list. */
  lemma {:induction false} InsertChain(m: Nexts, m': Nexts, at: Kid?, s: KidList, k: Kid)
    requires Chain(m, at, s) && Ascending(s) && Lacks(s, k.v) && k !in KidsOf(s)
    requires k in m' && m'[k] == After(s, k.v)
    requires forall j :: j in KidsOf(s) && j in m ==> j in m' && m'[j] == if j == Pred(s, k.v) then k else m[j]
    ensures Chain(m', if Pred(s, k.v) == null then k else at, Insert(s, k))
    decreases s
  {
    if s.Nil? {
    } else if s.kid.v > k.v {
      ChainFrame(m, m', at, s);
    } else {
      PredInList(s.rest, k.v);
      if s.kid in KidsOf(s.rest) {
        AscendingHead(s, s.rest.kid);
        AscendingHead(s.rest, s.kid);
      }
      InsertChain(m, m', m[s.kid], s.rest, k);
    }
  }

  // ----- one level in memory ------------------------------------------------

  ghost predicate HeadsMirrored(heads: map<ListNode, Kid?>)
    reads heads.Keys`kids
  {
    forall n {:trigger n.kids} :: n in heads ==> n.kids == heads[n]
  }

  ghost predicate EdgesMirrored(edges: map<Kid, ListNode?>)
    reads edges.Keys`edge
  {
    forall k {:trigger k.edge} :: k in edges ==> k.edge == edges[k]
  }

  ghost predicate NextsMirrored(m: Nexts)
    reads m.Keys`next
  {
    forall k {:trigger k.next} :: k in m ==> k.next == m[k]
  }

  /** kid_find */
  method KidFind(np: ListNode, chunk: Chunk, ghost s: KidList, ghost m: Nexts) returns (kp: Kid?)
    requires NextsMirrored(m) && Chain(m, np.kids, s)
    ensures kp == FirstWith(s, chunk)
    ensures if kp == null then Lacks(s, chunk) else kp in KidsOf(s) && kp.v == chunk
  {
    kp := np.kids;
    ghost var rest := s;
    while kp != null
      invariant Chain(m, kp, rest) && KidsOf(rest) <= KidsOf(s) && (Lacks(rest, chunk) ==> Lacks(s, chunk))
      invariant FirstWith(rest, chunk) == FirstWith(s, chunk)
      decreases rest
    {
      if kp.v == chunk {
        return;
      }
      rest := rest.rest;
      kp := kp.next;
    }
  }

  /** The first kid of the list with this chunk. */
  ghost function FirstWith(s: KidList, chunk: Chunk): Kid? {
    if s.Nil? then null else if s.kid.v == chunk then s.kid else FirstWith(s.rest, chunk)
  }

  /** The loop of kid_get_or_set: a kid with the chunk, or where a new one goes. */
  method KidSeek(np: ListNode, chunk: Chunk, ghost s: KidList, ghost m: Nexts) returns (prev: Kid?, at: Kid?)
    requires NextsMirrored(m) && Chain(m, np.kids, s) && Ascending(s)
    ensures if at != null && at.v == chunk then at in KidsOf(s)
            else Lacks(s, chunk) && prev == Pred(s, chunk) && at == After(s, chunk)
  {
    prev, at := null, np.kids;
    ghost var rest := s;
    while at != null && at.v < chunk
      invariant Chain(m, at, rest) && KidsOf(rest) <= KidsOf(s) && Ascending(rest)
      invariant Lacks(rest, chunk) ==> Lacks(s, chunk)
      invariant Pred(s, chunk) == if Pred(rest, chunk) == null then prev else Pred(rest, chunk)
      invariant After(s, chunk) == After(rest, chunk)
      decreases rest
    {
      rest := rest.rest;
      prev := at;
      at := at.next;
    }
    if at != null && at.v > chunk {
      LacksExact(rest, chunk);
      forall k | k in KidsOf(rest) ensures k.v != chunk {
        AscendingHead(rest, k);
      }
    }
  }

  /** *kpp = kp */
  method LinkKid(np: ListNode, prev: Kid?, kp: Kid, ghost s: KidList, ghost m: Nexts) returns (ghost m': Nexts)
    requires NextsMirrored(m) && Chain(m, np.kids, s) && Ascending(s) && Lacks(s, kp.v) && kp !in m
    requires prev == Pred(s, kp.v) && kp.next == After(s, kp.v)
    modifies np`kids, m.Keys`next
    ensures NextsMirrored(m') && m'.Keys == m.Keys + {kp} && SameOn(m, m', m.Keys - KidsOf(s))
    ensures Chain(m', np.kids, Insert(s, kp))
  {
    PredInList(s, kp.v);
    ChainKeys(m, np.kids, s);
    if prev == null {
      m' := m[kp := kp.next];
      InsertChain(m, m', np.kids, s, kp);
      np.kids := kp;
    } else {
      m' := m[kp := kp.next][prev := kp];
      InsertChain(m, m', np.kids, s, kp);
      prev.next := kp;
    }
  }

  lemma {:induction false} ChainKeys(m: Nexts, at: Kid?, s: KidList)
    requires Chain(m, at, s)
    ensures KidsOf(s) <= m.Keys
    decreases s
  {
    if s.Cons? {
      ChainKeys(m, m[s.kid], s.rest);
    }
  }

  /** kid_get_or_set: the kid with this chunk, made and linked in order when there is none. */
  method KidGetOrSet(np: ListNode, chunk: Chunk, ghost s: KidList, ghost m: Nexts)
    returns (kp: Kid, ghost s': KidList, ghost m': Nexts)
    requires NextsMirrored(m) && Chain(m, np.kids, s) && Ascending(s)
    modifies np`kids, m.Keys`next
    ensures NextsMirrored(m') && m'.Keys == m.Keys + {kp} && SameOn(m, m', m.Keys - KidsOf(s))
    ensures Chain(m', np.kids, s') && Ascending(s') && KidsOf(s') == KidsOf(s) + {kp} && kp.v == chunk
    ensures if kp in KidsOf(s) then kp in m else Lacks(s, chunk) && fresh(kp) && kp.edge == null
  {
    ChainKeys(m, np.kids, s);
    var prev, at := KidSeek(np, chunk, s, m);
    if at != null && at.v == chunk {
      kp, s', m' := at, s, m;
    } else {
      kp := new Kid(chunk, at);
      m' := LinkKid(np, prev, kp, s, m);
      InsertSorted(s, kp);
      s' := Insert(s, kp);
    }
  }

  // ----- the whole trie, as maps --------------------------------------------

  /** The objects of the trie by name, and their names; the fields of the objects; and the kids
      and the list of each level. */
  datatype Trie = Trie(nodes: map<Name, ListNode>, kids: map<Name, Kid>,
                       nodeNames: map<ListNode, Name>, kidNames: map<Kid, Name>,
                       heads: map<ListNode, Kid?>, edges: map<Kid, ListNode?>, nexts: Nexts,
                       levels: map<Name, set<Kid>>, lists: map<Name, KidList>)

  const EmptyTrie: Trie := Trie(map[], map[], map[], map[], map[], map[], map[], map[], map[])

  ghost function NodeAt(g: Trie, p: Name): ListNode? {
    if p in g.nodes then g.nodes[p] else null
  }

  ghost function KidAt(g: Trie, q: Name): Kid? {
    if q in g.kids then g.kids[q] else null
  }

  /** The kids of one node: the links at `head` spell an ascending list of just these kids. */
  ghost predicate LevelOk(m: Nexts, head: Kid?, s: KidList, level: set<Kid>) {
    Chain(m, head, s) && Ascending(s) && KidsOf(s) == level
  }

  ghost predicate NodeOk(g: Trie, p: Name)
    requires p in g.nodes
  {
    var n := g.nodes[p];
    && (p.Root? || p in g.kids)
    && n in g.heads && n in g.nodeNames && g.nodeNames[n] == p
    && p in g.levels && p in g.lists && g.levels[p] == Level(g.kids, p) && g.levels[p] <= g.nexts.Keys
    && LevelOk(g.nexts, g.heads[n], g.lists[p], g.levels[p])
  }

  ghost predicate KidOk(g: Trie, q: Name)
    requires q in g.kids
  {
    var k := g.kids[q];
    && q.Below? && Depth(q) <= ADDR_LEN && q.up in g.nodes && k.v == q.chunk
    && k in g.edges && k in g.nexts && k in g.kidNames && g.kidNames[k] == q
    && g.edges[k] == NodeAt(g, q)
  }

  ghost predicate NameOk(g: Trie, q: Name) {
    (q in g.nodes ==> NodeOk(g, q)) && (q in g.kids ==> KidOk(g, q))
  }

  ghost predicate KeysOk(g: Trie) {
    g.heads.Keys == g.nodeNames.Keys && g.edges.Keys == g.nexts.Keys == g.kidNames.Keys
  }

  ghost predicate TrieOk(g: Trie) {
    && KeysOk(g)
    && forall q {:trigger NameOk(g, q)} :: NameOk(g, q)
  }

  lemma ShapeOf(g: Trie)
    requires TrieOk(g)
    ensures WellFormed(g.nodes, g.kids)
  {
    forall q ensures q in g.kids ==> q.Below? && Depth(q) <= ADDR_LEN && q.up in g.nodes && g.kids[q] in g.kidNames
                                                    && g.kidNames[g.kids[q]] == q
    {
      assert NameOk(g, q);
    }
    forall p ensures p in g.nodes ==> (p.Root? || p in g.kids) && g.nodes[p] in g.nodeNames
                                                    && g.nodeNames[g.nodes[p]] == p
    {
      assert NameOk(g, p);
    }
  }

  /** A kid of this level with this chunk is the kid named by the longer prefix; without one the
      prefix has no kid. */
  lemma FoundInLevel(g: Trie, p: Name, c: Chunk, kp: Kid?)
    requires TrieOk(g) && p in g.nodes && p in g.lists
    requires if kp == null then Lacks(g.lists[p], c) else kp in KidsOf(g.lists[p]) && kp.v == c
    ensures kp == KidAt(g, Below(p, c))
  {
    assert NameOk(g, p) && NameOk(g, Below(p, c));
    LacksExact(g.lists[p], c);
    assert Below(p, c) in g.kids ==> g.kids[Below(p, c)] in Level(g.kids, p);
    if kp != null {
      var q :| q in g.kids && q.Below? && q.up == p && g.kids[q] == kp;
      assert NameOk(g, q);
    }
  }

  // ----- a new node ---------------------------------------------------------

  ghost function WithNode(g: Trie, p: Name, np: ListNode): Trie {
    g.(nodes := g.nodes[p := np], nodeNames := g.nodeNames[np := p], heads := g.heads[np := null],
       levels := g.levels[p := {}], lists := g.lists[p := Nil],
       edges := if p in g.kids then g.edges[g.kids[p] := np] else g.edges)
  }

  /** A node may be put where there is none, or replace a final leaf. */
  lemma WithNodeOk(g: Trie, p: Name, np: ListNode)
    requires TrieOk(g) && np !in g.heads
    requires (p.Root? || p in g.kids) && (p !in g.nodes || Depth(p) == ADDR_LEN)
    ensures TrieOk(WithNode(g, p, np))
  {
    NoLevel(g, p);
    assert NameOk(g, p);
    forall q ensures NameOk(WithNode(g, p, np), q) {
      assert NameOk(g, q) && NameOk(g, p);
      WithNodeNameOk(g, p, np, q);
    }
    WithNodeKeys(g, p, np);
  }

  lemma NoLevel(g: Trie, p: Name)
    requires TrieOk(g) && (p !in g.nodes || Depth(p) == ADDR_LEN)
    ensures Level(g.kids, p) == {}
  {
    ShapeOf(g);
    NoKidsBelow(g.nodes, g.kids, p);
  }

  lemma WithNodeKeys(g: Trie, p: Name, np: ListNode)
    requires KeysOk(g) && (p in g.kids ==> g.kids[p] in g.edges)
    ensures KeysOk(WithNode(g, p, np))
  {
  }

  lemma WithNodeNameOk(g: Trie, p: Name, np: ListNode, q: Name)
    requires NameOk(g, q) && NameOk(g, p) && np !in g.heads
    requires (p.Root? || p in g.kids) && Level(g.kids, p) == {}
    ensures NameOk(WithNode(g, p, np), q)
  {
    if q in g.kids {
      WithNodeKidOk(g, p, np, q);
    }
    if q in g.nodes && q != p {
      WithNodeNodeOk(g, p, np, q);
    }
  }

  lemma WithNodeKidOk(g: Trie, p: Name, np: ListNode, q: Name)
    requires q in g.kids && KidOk(g, q) && (p in g.kids ==> KidOk(g, p))
    ensures KidOk(WithNode(g, p, np), q)
  {
  }

  lemma WithNodeNodeOk(g: Trie, p: Name, np: ListNode, q: Name)
    requires q in g.nodes && q != p && NodeOk(g, q) && np !in g.heads
    ensures NodeOk(WithNode(g, p, np), q)
  {
  }

  // ----- a new kid ----------------------------------------------------------

  /** After kid_get_or_set at the node `p` returned `k`. */
  ghost function WithKid(g: Trie, p: Name, c: Chunk, k: Kid, head: Kid?, nexts: Nexts, s: KidList): Trie
    requires p in g.nodes && p in g.levels
  {
    g.(kids := g.kids[Below(p, c) := k], kidNames := g.kidNames[k := Below(p, c)],
       heads := g.heads[g.nodes[p] := head], nexts := nexts,
       edges := if k in g.edges then g.edges else g.edges[k := null],
       levels := g.levels[p := g.levels[p] + {k}], lists := g.lists[p := s])
  }

  /** `k` is the kid with this name, or a new kid that may take it. */
  ghost predicate KidNamed(g: Trie, p: Name, c: Chunk, k: Kid) {
    && Depth(p) < ADDR_LEN && k.v == c
    && if Below(p, c) in g.kids then k == g.kids[Below(p, c)] else k !in g.edges
  }

  /** Only the links of one level changed, and `k` joined it. */
  ghost predicate NextsGrew(g: Trie, p: Name, k: Kid, nexts: Nexts)
    requires p in g.levels
  {
    nexts.Keys == g.nexts.Keys + {k} && SameOn(g.nexts, nexts, g.nexts.Keys - g.levels[p])
  }

  lemma WithKidOk(g: Trie, p: Name, c: Chunk, k: Kid, head: Kid?, nexts: Nexts, s: KidList)
    requires TrieOk(g) && p in g.nodes && p in g.levels && KidNamed(g, p, c, k) && NextsGrew(g, p, k, nexts)
    requires LevelOk(nexts, head, s, g.levels[p] + {k})
    ensures TrieOk(WithKid(g, p, c, k, head, nexts, s))
  {
    WithKidKeys(g, p, c, k, head, nexts, s);
    forall q ensures NameOk(WithKid(g, p, c, k, head, nexts, s), q) {
      WithKidNameOk(g, p, c, k, head, nexts, s, q);
    }
  }

  lemma WithKidKeys(g: Trie, p: Name, c: Chunk, k: Kid, head: Kid?, nexts: Nexts, s: KidList)
    requires KeysOk(g) && (forall q :: NameOk(g, q)) && p in g.nodes && p in g.levels
    requires KidNamed(g, p, c, k) && NextsGrew(g, p, k, nexts)
    ensures KeysOk(WithKid(g, p, c, k, head, nexts, s))
  {
    assert NameOk(g, Below(p, c)) && NameOk(g, p);
  }

  lemma WithKidNameOk(g: Trie, p: Name, c: Chunk, k: Kid, head: Kid?, nexts: Nexts, s: KidList, q: Name)
    requires TrieOk(g) && p in g.nodes && p in g.levels && KidNamed(g, p, c, k) && NextsGrew(g, p, k, nexts)
    requires LevelOk(nexts, head, s, g.levels[p] + {k})
    ensures NameOk(WithKid(g, p, c, k, head, nexts, s), q)
  {
    assert NameOk(g, q) && NameOk(g, p) && NameOk(g, Below(p, c));
    if q in g.nodes {
      if q != p {
        OtherLevel(g, p, q, k, nexts);
      }
      WithKidNodeOk(g, p, c, k, head, nexts, s, q);
    }
    if q in g.kids || q == Below(p, c) {
      WithKidKidOk(g, p, c, k, head, nexts, s, q);
    }
  }

  lemma WithKidKidOk(g: Trie, p: Name, c: Chunk, k: Kid, head: Kid?, nexts: Nexts, s: KidList, q: Name)
    requires p in g.nodes && p in g.levels && KidNamed(g, p, c, k) && NextsGrew(g, p, k, nexts)
    requires NameOk(g, Below(p, c)) && (q == Below(p, c) || (q in g.kids && KidOk(g, q)))
    requires g.edges.Keys == g.nexts.Keys == g.kidNames.Keys
    ensures KidOk(WithKid(g, p, c, k, head, nexts, s), q)
  {
  }

  /** Other levels keep their links and their kids. */
  lemma OtherLevel(g: Trie, p: Name, q: Name, k: Kid, nexts: Nexts)
    requires p in g.nodes && q in g.nodes && p != q && TrieOk(g)
    requires p in g.levels && NextsGrew(g, p, k, nexts)
    ensures q in g.levels && g.nodes[q] in g.heads && q in g.lists
    ensures LevelOk(nexts, g.heads[g.nodes[q]], g.lists[q], g.levels[q]) && g.nodes[q] != g.nodes[p]
  {
    ShapeOf(g);
    LevelsApart(g.nodes, g.kids, p, q);
    assert NameOk(g, p) && NameOk(g, q);
    ChainFrame(g.nexts, nexts, g.heads[g.nodes[q]], g.lists[q]);
  }

  lemma WithKidNodeOk(g: Trie, p: Name, c: Chunk, k: Kid, head: Kid?, nexts: Nexts, s: KidList, q: Name)
    requires p in g.nodes && p in g.levels && KidNamed(g, p, c, k) && NextsGrew(g, p, k, nexts)
    requires q in g.nodes && NodeOk(g, q) && NodeOk(g, p)
    requires LevelOk(nexts, head, s, g.levels[p] + {k})
    requires q != p ==> g.nodes[q] != g.nodes[p] && LevelOk(nexts, g.heads[g.nodes[q]], g.lists[q], g.levels[q])
    ensures NodeOk(WithKid(g, p, c, k, head, nexts, s), q)
  {
    LevelAfterPut(g.kids, p, c, k, q);
  }

  // ----- the trie in memory -------------------------------------------------

  ghost predicate Mirrored(g: Trie)
    reads g.heads.Keys`kids, g.edges.Keys`edge, g.nexts.Keys`next
  {
    HeadsMirrored(g.heads) && EdgesMirrored(g.edges) && NextsMirrored(g.nexts)
  }

  /** npp is the edge of `holder`, or the root when `holder` is null. */
  ghost predicate Holder(g: Trie, holder: Kid?, p: Name) {
    if p.Root? then holder == null else p in g.kids && holder == g.kids[p]
  }

  method StoreNode(holder: Kid?, np: ListNode, ghost p: Name, ghost g: Trie)
    requires Mirrored(g) && np !in g.heads && np.kids == null
    requires if holder == null then p !in g.kids else p in g.kids && g.kids[p] == holder && holder in g.edges
    modifies g.edges.Keys`edge
    ensures Mirrored(WithNode(g, p, np))
  {
    if holder != null {
      holder.edge := np;
    }
  }

  /** Put a new, empty node where npp points; the caller stores it when that is the root. */
  method NewNode(holder: Kid?, ghost p: Name, ghost g: Trie) returns (np: ListNode, ghost g': Trie)
    requires TrieOk(g) && Mirrored(g) && Holder(g, holder, p) && (p !in g.nodes || Depth(p) == ADDR_LEN)
    modifies g.edges.Keys`edge
    ensures TrieOk(g') && Mirrored(g') && g' == WithNode(g, p, np) && fresh(np)
  {
    np := new ListNode();
    WithNodeOk(g, p, np);
    assert NameOk(g, p);
    StoreNode(holder, np, p, g);
    g' := WithNode(g, p, np);
  }

  /** kid_get_or_set at the node `p`. */
  method GetOrSet(np: ListNode, c: Chunk, ghost p: Name, ghost g: Trie) returns (k: Kid, ghost g': Trie)
    requires TrieOk(g) && Mirrored(g) && p in g.nodes && np == g.nodes[p] && Depth(p) < ADDR_LEN
    modifies np`kids, g.nexts.Keys`next
    ensures TrieOk(g') && Mirrored(g') && g'.nodes == g.nodes && g'.kids == g.kids[Below(p, c) := k]
    ensures forall n :: n in g'.heads ==> n in g.heads
    ensures forall j :: j in g'.edges ==> j in g.edges || fresh(j)
  {
    ListHere(g, p);
    ghost var s, nexts;
    k, s, nexts := KidGetOrSetWithin(np, c, g.lists[p], g.heads, g.edges, g.nexts);
    GetOrSetOk(g, p, c, k, np.kids, nexts, s);
    g' := WithKid(g, p, c, k, np.kids, nexts, s);
  }

  /** One level as kid_find and kid_get_or_set need it. */
  lemma ListHere(g: Trie, p: Name)
    requires TrieOk(g) && Mirrored(g) && p in g.nodes
    ensures p in g.levels && p in g.lists && g.nodes[p] in g.heads && g.levels[p] <= g.nexts.Keys
    ensures LevelOk(g.nexts, g.nodes[p].kids, g.lists[p], g.levels[p]) && g.edges.Keys == g.nexts.Keys
  {
    assert NameOk(g, p);
  }

  /** kid_get_or_set among the nodes and kids of a trie. */
  method KidGetOrSetWithin(np: ListNode, chunk: Chunk, ghost s: KidList, ghost heads: map<ListNode, Kid?>,
                           ghost edges: map<Kid, ListNode?>, ghost m: Nexts)
    returns (k: Kid, ghost s': KidList, ghost m': Nexts)
    requires NextsMirrored(m) && Chain(m, np.kids, s) && Ascending(s) && edges.Keys == m.Keys
    requires HeadsMirrored(heads) && EdgesMirrored(edges)
    modifies np`kids, m.Keys`next
    ensures NextsMirrored(m') && m'.Keys == m.Keys + {k} && SameOn(m, m', m.Keys - KidsOf(s))
    ensures LevelOk(m', np.kids, s', KidsOf(s) + {k}) && k.v == chunk
    ensures if k in KidsOf(s) then k in edges else Lacks(s, chunk) && fresh(k) && k !in edges
    ensures HeadsMirrored(heads[np := np.kids]) && EdgesMirrored(if k in edges then edges else edges[k := null])
  {
    k, s', m' := KidGetOrSet(np, chunk, s, m);
  }

  /** One kid_get_or_set keeps the trie in order. */
  lemma GetOrSetOk(g: Trie, p: Name, c: Chunk, k: Kid, head: Kid?, nexts: Nexts, s: KidList)
    requires TrieOk(g) && p in g.nodes && p in g.levels && p in g.lists && g.levels[p] == KidsOf(g.lists[p])
    requires k.v == c && Depth(p) < ADDR_LEN && NextsGrew(g, p, k, nexts)
    requires if k in g.levels[p] then k in g.edges else Lacks(g.lists[p], c) && k !in g.edges
    requires LevelOk(nexts, head, s, g.levels[p] + {k})
    ensures TrieOk(WithKid(g, p, c, k, head, nexts, s))
  {
    FoundInLevel(g, p, c, if k in g.levels[p] then k else null);
    WithKidOk(g, p, c, k, head, nexts, s);
  }

  /** The node npp points to, made first when there is none. */
  method EnsureNode(root: ListNode?, holder: Kid?, ghost p: Name, ghost g: Trie)
    returns (np: ListNode, root': ListNode?, ghost g': Trie)
    requires TrieOk(g) && Mirrored(g) && root == NodeAt(g, Root) && Holder(g, holder, p)
    modifies g.edges.Keys`edge
    ensures TrieOk(g') && Mirrored(g') && root' == NodeAt(g', Root) && np == NodeAt(g', p) && g'.kids == g.kids
    ensures np in g'.heads && (forall n :: n in g'.heads ==> n in g.heads || fresh(n))
    ensures g'.edges.Keys == g.edges.Keys
  {
    assert NameOk(g, p);
    var at: ListNode?;
    if holder == null {
      at := root;
    } else {
      assert holder.edge == g.edges[holder];
      at := holder.edge;
    }
    root', g' := root, g;
    if at == null {
      np, g' := NewNode(holder, p, g);
      if holder == null {
        root' := np;
      }
    } else {
      np := at;
    }
  }

  /** Where the walk of add stands after i chunks. */
  ghost predicate Walking(g: Trie, root: ListNode?, holder: Kid?, ptr: seq<Chunk>, i: nat, was: map<Name, Kid>)
    reads g.heads.Keys`kids, g.edges.Keys`edge, g.nexts.Keys`next
  {
    && TrieOk(g) && Mirrored(g) && root == NodeAt(g, Root) && i <= |ptr|
    && Holder(g, holder, NameOf(ptr, i)) && KidsAlong(was, g.kids, ptr, i)
  }

  /** One round of the loop of add. */
  method AddRound(root: ListNode?, holder: Kid?, ptr: seq<Chunk>, i: nat, ghost was: map<Name, Kid>, ghost g: Trie)
    returns (k: Kid, root': ListNode?, ghost g': Trie)
    requires Walking(g, root, holder, ptr, i, was) && i < |ptr| == ADDR_LEN
    modifies g.heads.Keys, g.edges.Keys
    ensures Walking(g', root', k, ptr, i + 1, was)
    ensures forall n :: n in g'.heads ==> n in g.heads || fresh(n)
    ensures forall j :: j in g'.edges ==> j in g.edges || fresh(j)
  {
    DepthOfName(ptr, i);
    var np;
    np, root', g' := EnsureNode(root, holder, NameOf(ptr, i), g);
    k, g' := GetOrSet(np, ptr[i], NameOf(ptr, i), g');
    KidsAlongNext(was, g.kids, g'.kids, ptr, i);
  }

  /** The loop of add. */
  method AddRounds(root: ListNode?, ptr: seq<Chunk>, ghost g: Trie)
    returns (holder: Kid?, root': ListNode?, ghost g': Trie)
    requires Walking(g, root, null, ptr, 0, g.kids) && |ptr| == ADDR_LEN
    modifies g.heads.Keys, g.edges.Keys
    ensures Walking(g', root', holder, ptr, |ptr|, g.kids)
    ensures forall n :: n in g'.heads ==> n in g.heads || fresh(n)
    ensures forall j :: j in g'.edges ==> j in g.edges || fresh(j)
  {
    holder, root', g' := null, root, g;
    var i := 0;
    while i < |ptr|
      invariant Walking(g', root', holder, ptr, i, g.kids)
      invariant forall n :: n in g'.heads ==> n in g.heads || fresh(n)
      invariant forall j :: j in g'.edges ==> j in g.edges || fresh(j)
    {
      holder, root', g' := AddRound(root', holder, ptr, i, g.kids, g');
      i := i + 1;
    }
  }

  /** The whole of add: the loop, then the final leaf. */
  method AddWalk(root: ListNode?, ptr: seq<Chunk>, ghost g: Trie) returns (root': ListNode?, ghost g': Trie)
    requires TrieOk(g) && Mirrored(g) && root == NodeAt(g, Root) && |ptr| == ADDR_LEN
    modifies g.heads.Keys, g.edges.Keys
    ensures TrieOk(g') && Mirrored(g') && root' == NodeAt(g', Root) && Members(g'.kids) == Members(g.kids) + {ptr}
    ensures forall n :: n in g'.heads ==> n in g.heads || fresh(n)
    ensures forall j :: j in g'.edges ==> j in g.edges || fresh(j)
  {
    var holder;
    holder, root', g' := AddRounds(root, ptr, g);
    DepthOfName(ptr, |ptr|);
    var np;
    np, g' := NewNode(holder, NameOf(ptr, |ptr|), g');
    MembersAlong(g.kids, g'.kids, ptr);
  }

  // ----- the set ------------------------------------------------------------

  class ListSet {
    var root: ListNode?
    ghost var trie: Trie

    ghost predicate Valid()
      reads this, trie.heads.Keys, trie.edges.Keys, trie.nexts.Keys
    {
      TrieOk(trie) && root == NodeAt(trie, Root) && Mirrored(trie)
    }

    /** The set of addresses this object stands for. */
    ghost function Contents(): set<seq<Chunk>>
      reads this
    {
      Members(trie.kids)
    }

    constructor ()
      ensures Valid() && Contents() == {} && trie == EmptyTrie
    {
      root := null;
      trie := EmptyTrie;
    }

    /** One round of the walk over the chunks. */
    method Step(np: ListNode?, ptr: seq<Chunk>, i: nat) returns (kp: Kid?)
      requires Valid() && i < |ptr| == ADDR_LEN && np == NodeAt(trie, NameOf(ptr, i))
      ensures kp == null ==> ptr !in Contents()
      ensures kp != null ==> kp == KidAt(trie, NameOf(ptr, i + 1)) && kp.edge == NodeAt(trie, NameOf(ptr, i + 1))
    {
      kp := null;
      ghost var p := NameOf(ptr, i);
      if np != null {
        assert NameOk(trie, p);
        kp := KidFind(np, ptr[i], trie.lists[p], trie.nexts);
        FoundInLevel(trie, p, ptr[i], kp);
      }
      if kp == null {
        ShapeOf(trie);
        PrefixMissing(trie.nodes, trie.kids, ptr, i);
      } else {
        assert NameOk(trie, Below(p, ptr[i])) && kp.edge == trie.edges[kp];
      }
    }

    /** has: true exactly for the members. */
    method Has(ptr: seq<Chunk>) returns (found: bool)
      requires Valid() && |ptr| == ADDR_LEN
      ensures found <==> ptr in Contents()
    {
      var np, i := root, 0;
      while i < ADDR_LEN
        invariant 0 <= i <= ADDR_LEN
        invariant i > 0 ==> NameOf(ptr, i) in trie.kids
        invariant np == NodeAt(trie, NameOf(ptr, i))
      {
        var kp := Step(np, ptr, i);
        if kp == null {
          return false;
        }
        np := kp.edge;
        i := i + 1;
      }
      MemberExact(trie.kids, ptr);
      found := true;
    }

    /** add: afterwards the address is a member and no other membership changed. */
    method Add(ptr: seq<Chunk>)
      requires Valid() && |ptr| == ADDR_LEN
      modifies this, trie.heads.Keys, trie.edges.Keys
      ensures Valid() && Contents() == old(Contents()) + {ptr}
      ensures forall n :: n in trie.heads ==> n in old(trie.heads) || fresh(n)
      ensures forall k :: k in trie.edges ==> k in old(trie.edges) || fresh(k)
    {
      ghost var g;
      var root';
      root', g := AddWalk(root, ptr, trie);
      root, trie := root', g;
    }
  }
}
