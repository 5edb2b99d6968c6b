/** The pointer set whose trie nodes index their 65536 children directly. */
module FixSet {
  import opened TrieShape

  const FIXSET_SIZE: nat := 0x1_0000

  /** AsWritten leaves the node that the last chunk leads to untested; Tested looks at it. */
  datatype Variant = AsWritten | Tested

  class FixNode {
    const kids: array<FixNode?>

    constructor ()
      ensures fresh(kids) && kids.Length == FIXSET_SIZE && forall c :: 0 <= c < FIXSET_SIZE ==> kids[c] == null
    {
      kids := new FixNode?[FIXSET_SIZE](_ => null);
    }
  }

  /** The nodes by the prefix that leads to them, and whose each node and each array is. */
  datatype Trie = Trie(nodes: map<Name, FixNode>, names: map<FixNode, Name>, owners: map<array<FixNode?>, Name>)

  ghost function NodeAt(g: Trie, p: Name): FixNode? {
    if p in g.nodes then g.nodes[p] else null
  }

  ghost predicate NodeOk(g: Trie, p: Name)
    requires p in g.nodes
    reads g.owners.Keys
  {
    var n := g.nodes[p];
    && n in g.names && g.names[n] == p && n.kids in g.owners && g.owners[n.kids] == p
    && Depth(p) <= ADDR_LEN && (p.Below? ==> p.up in g.nodes) && n.kids.Length == FIXSET_SIZE
    && forall c: Chunk {:trigger n.kids[c]} :: n.kids[c] == NodeAt(g, Below(p, c))
  }

  ghost predicate TrieOk(g: Trie)
    reads g.owners.Keys
  {
    forall p {:trigger NodeOk(g, p)} :: p in g.nodes ==> NodeOk(g, p)
  }

  ghost function WithNode(g: Trie, p: Name, np: FixNode): Trie {
    Trie(g.nodes[p := np], g.names[np := p], g.owners[np.kids := p])
  }

  /** A missing node, and one at full depth, has nothing below it. */
  lemma NothingBelow(g: Trie, p: Name)
    requires TrieOk(g) && (p in g.nodes ==> Depth(p) == ADDR_LEN)
    ensures forall q :: q in g.nodes && q.Below? ==> q.up != p
  {
    forall q | q in g.nodes && q.Below? ensures q.up != p {
      assert NodeOk(g, q);
    }
  }

  /** node_new, stored where npp points: in a slot of `holder`, or as the root by the caller. */
  method PutNode(holder: FixNode?, ghost p: Name, c: Chunk, ghost g: Trie) returns (np: FixNode, ghost g': Trie)
    requires TrieOk(g) && Depth(p) <= ADDR_LEN && (p in g.nodes ==> Depth(p) == ADDR_LEN)
    requires if p.Root? then holder == null else p.up in g.nodes && holder == g.nodes[p.up] && c == p.chunk
    modifies g.owners.Keys
    ensures TrieOk(g') && g' == WithNode(g, p, np) && fresh(np) && fresh(np.kids)
  {
    np := new FixNode();
    g' := WithNode(g, p, np);
    NothingBelow(g, p);
    if holder != null {
      assert NodeOk(g, p.up);
      holder.kids[c] := np;
    }
    forall q | q in g'.nodes ensures NodeOk(g', q) {
      if q != p {
        assert old(NodeOk(g, q));
      }
    }
  }

  // ----- which nodes there are ----------------------------------------------

  /** The nodes along the first i chunks of an address have been added, and no others. */
  ghost predicate Along(was: map<Name, FixNode>, now: map<Name, FixNode>, a: seq<Chunk>, i: nat)
    requires i <= |a|
  {
    forall q {:trigger Depth(q)} :: q in now <==> q in was || (Depth(q) < i && q == NameOf(a, Depth(q)))
  }

  lemma AlongNext(was: map<Name, FixNode>, before: map<Name, FixNode>, now: map<Name, FixNode>, a: seq<Chunk>, i: nat)
    requires i < |a| && Along(was, before, a, i) && now.Keys == before.Keys + {NameOf(a, i)}
    ensures Along(was, now, a, i + 1)
  {
    DepthOfName(a, i);
  }

  /** Every node above the full depth has a node below it. */
  ghost predicate Full(nodes: map<Name, FixNode>) {
    forall p {:trigger p in nodes} :: p in nodes && Depth(p) < ADDR_LEN ==> exists c :: Below(p, c) in nodes
  }

  lemma {:induction false} UpPresent(g: Trie, a: seq<Chunk>, n: nat, i: nat)
    requires TrieOk(g) && i <= n <= |a| && NameOf(a, n) in g.nodes
    ensures NameOf(a, i) in g.nodes
    decreases n
  {
    if i < n {
      assert NodeOk(g, NameOf(a, n));
      UpPresent(g, a, n - 1, i);
    }
  }

  /** Adding a whole address keeps every branch at full depth. */
  lemma FullAfter(was: map<Name, FixNode>, now: map<Name, FixNode>, a: seq<Chunk>)
    requires |a| == ADDR_LEN && Full(was)
    requires forall q {:trigger Depth(q)} ::
               q in now <==> q in was || (Depth(q) <= ADDR_LEN && q == NameOf(a, Depth(q)))
    ensures Full(now) && Members(now) == Members(was) + {a}
  {
    forall p | p in now && Depth(p) < ADDR_LEN ensures exists c :: Below(p, c) in now {
      if p in was {
        var c :| Below(p, c) in was;
        assert Depth(Below(p, c)) == Depth(p) + 1;
      } else {
        var q := NameOf(a, Depth(p) + 1);
        DepthOfName(a, Depth(p) + 1);
        assert q == Below(p, a[Depth(p)]) && q in now;
      }
    }
    MembersGrow(was, now, a);
  }

  lemma MembersGrow(was: map<Name, FixNode>, now: map<Name, FixNode>, a: seq<Chunk>)
    requires |a| == ADDR_LEN
    requires forall q {:trigger Depth(q)} ::
               q in now <==> q in was || (Depth(q) <= ADDR_LEN && q == NameOf(a, Depth(q)))
    ensures Members(now) == Members(was) + {a}
  {
    DepthOfName(a, ADDR_LEN);
    forall b | |b| == ADDR_LEN ensures b in Members(now) <==> b in Members(was) || b == a {
      MemberExact(now, b);
      MemberExact(was, b);
      DepthOfName(b, ADDR_LEN);
      SpelledOfName(a, ADDR_LEN);
      SpelledOfName(b, ADDR_LEN);
      assert a[..ADDR_LEN] == a && b[..ADDR_LEN] == b;
    }
    MembersLength(now);
    MembersLength(was);
  }

  lemma MembersLength<K>(kids: map<Name, K>)
    ensures forall b :: b in Members(kids) ==> |b| == ADDR_LEN
  {
  }

  /** Some address of the set agrees with this one on all chunks but the last. */
  ghost predicate HasNeighbour(s: set<seq<Chunk>>, ptr: seq<Chunk>)
    requires |ptr| == ADDR_LEN
  {
    exists a :: a in s && |a| == ADDR_LEN && a[..ADDR_LEN - 1] == ptr[..ADDR_LEN - 1]
  }

  // ----- the set ------------------------------------------------------------

  class FixSet {
    const v: Variant
    var root: FixNode?
    ghost var trie: Trie

    ghost predicate Valid()
      reads this, trie.owners.Keys
    {
      TrieOk(trie) && root == NodeAt(trie, Root) && Full(trie.nodes)
    }

    /** The addresses added so far. */
    ghost function Contents(): set<seq<Chunk>>
      reads this
    {
      Members(trie.nodes)
    }

    constructor (v: Variant)
      ensures Valid() && Contents() == {} && this.v == v && trie.owners == map[]
    {
      this.v, root, trie := v, null, Trie(map[], map[], map[]);
    }

    /** has: as written it is true exactly when some added address agrees on all chunks but the
        last; with the final test it is true exactly for the addresses added. */
    method Has(ptr: seq<Chunk>) returns (found: bool)
      requires Valid() && |ptr| == ADDR_LEN
      ensures v.Tested? ==> (found <==> ptr in Contents())
      ensures v.AsWritten? ==> (found <==> HasNeighbour(Contents(), ptr))
    {
      var np, i := root, 0;
      while i < |ptr|
        invariant 0 <= i <= |ptr| && np == NodeAt(trie, NameOf(ptr, i))
        invariant i > 0 ==> NameOf(ptr, i - 1) in trie.nodes
      {
        if np == null {
          HasExact(trie, ptr);
          MissedPrefix(trie, ptr, i);
          return false;
        }
        assert NodeOk(trie, NameOf(ptr, i));
        np := np.kids[ptr[i]];
        i := i + 1;
      }
      HasExact(trie, ptr);
      assert NameOf(ptr, ADDR_LEN - 1) in trie.nodes;
      found := v.AsWritten? || np != null;
    }

    /** add: the address joins the set. */
    method Add(ptr: seq<Chunk>)
      requires Valid() && |ptr| == ADDR_LEN
      modifies this, trie.owners.Keys
      ensures Valid() && Contents() == old(Contents()) + {ptr}
      ensures forall a :: a in trie.owners ==> a in old(trie.owners) || fresh(a)
    {
      ghost var g;
      var root';
      root', g := AddWalk(root, ptr, trie);
      root, trie := root', g;
    }
  }

  /** What the nodes along an address say about the addresses added. */
  lemma HasExact(g: Trie, ptr: seq<Chunk>)
    requires TrieOk(g) && Full(g.nodes) && |ptr| == ADDR_LEN
    ensures ptr in Members(g.nodes) <==> NameOf(ptr, ADDR_LEN) in g.nodes
    ensures NameOf(ptr, ADDR_LEN - 1) in g.nodes <==> HasNeighbour(Members(g.nodes), ptr)
  {
    MemberExact(g.nodes, ptr);
    var n := ADDR_LEN - 1;
    var p := NameOf(ptr, n);
    DepthOfName(ptr, n);
    if p in g.nodes {
      var c: Chunk :| Below(p, c) in g.nodes;
      var a := ptr[..n] + [c];
      assert a[..n] == ptr[..n];
      NameOfPrefix(a, ptr, n);
      assert NameOf(a, ADDR_LEN) == Below(NameOf(a, n), a[n]);
      MemberExact(g.nodes, a);
    }
    if HasNeighbour(Members(g.nodes), ptr) {
      var a :| a in Members(g.nodes) && |a| == ADDR_LEN && a[..n] == ptr[..n];
      MemberExact(g.nodes, a);
      UpPresent(g, a, ADDR_LEN, n);
      NameOfPrefix(a, ptr, n);
    }
  }

  lemma MissedPrefix(g: Trie, ptr: seq<Chunk>, i: nat)
    requires TrieOk(g) && i < |ptr| == ADDR_LEN && NameOf(ptr, i) !in g.nodes
    ensures NameOf(ptr, ADDR_LEN) !in g.nodes && NameOf(ptr, ADDR_LEN - 1) !in g.nodes
  {
    if NameOf(ptr, ADDR_LEN) in g.nodes {
      UpPresent(g, ptr, ADDR_LEN, i);
    }
    if NameOf(ptr, ADDR_LEN - 1) in g.nodes {
      UpPresent(g, ptr, ADDR_LEN - 1, i);
    }
  }

  /** Where the walk of add stands: npp is the slot of the i-th prefix. */
  ghost predicate Walking(g: Trie, root: FixNode?, holder: FixNode?, ptr: seq<Chunk>, i: nat, was: map<Name, FixNode>)
    reads g.owners.Keys
  {
    && TrieOk(g) && root == NodeAt(g, Root) && i <= |ptr| && Along(was, g.nodes, ptr, i)
    && (if i == 0 then holder == null else NameOf(ptr, i - 1) in g.nodes && holder == g.nodes[NameOf(ptr, i - 1)])
  }

  /** One round of the loop of add. */
  method AddRound(root: FixNode?, holder: FixNode?, ptr: seq<Chunk>, i: nat, ghost was: map<Name, FixNode>,
                  ghost g: Trie)
    returns (np: FixNode, root': FixNode?, ghost g': Trie)
    requires Walking(g, root, holder, ptr, i, was) && i < |ptr| == ADDR_LEN
    modifies g.owners.Keys
    ensures Walking(g', root', np, ptr, i + 1, was)
    ensures forall a :: a in g'.owners ==> a in g.owners || fresh(a)
  {
    ghost var p := NameOf(ptr, i);
    DepthOfName(ptr, i);
    var at: FixNode?;
    if holder == null {
      at := root;
    } else {
      assert NodeOk(g, p.up);
      at := holder.kids[ptr[i - 1]];
    }
    root', g' := root, g;
    if at == null {
      np, g' := PutNode(holder, p, if i == 0 then 0 else ptr[i - 1], g);
      if holder == null {
        root' := np;
      }
    } else {
      np := at;
    }
    AlongNext(was, g.nodes, g'.nodes, ptr, i);
  }

  method AddRounds(root: FixNode?, ptr: seq<Chunk>, ghost g: Trie)
    returns (holder: FixNode?, root': FixNode?, ghost g': Trie)
    requires Walking(g, root, null, ptr, 0, g.nodes) && |ptr| == ADDR_LEN
    modifies g.owners.Keys
    ensures Walking(g', root', holder, ptr, |ptr|, g.nodes)
    ensures forall a :: a in g'.owners ==> a in g.owners || fresh(a)
  {
    holder, root', g' := null, root, g;
    var i := 0;
    while i < |ptr|
      invariant Walking(g', root', holder, ptr, i, g.nodes)
      invariant forall a :: a in g'.owners ==> a in g.owners || fresh(a)
    {
      holder, root', g' := AddRound(root', holder, ptr, i, g.nodes, g');
      i := i + 1;
    }
  }

  /** The whole of add: the loop, then the final leaf. */
  method AddWalk(root: FixNode?, ptr: seq<Chunk>, ghost g: Trie) returns (root': FixNode?, ghost g': Trie)
    requires TrieOk(g) && root == NodeAt(g, Root) && Full(g.nodes) && |ptr| == ADDR_LEN
    modifies g.owners.Keys
    ensures TrieOk(g') && root' == NodeAt(g', Root) && Full(g'.nodes) && Members(g'.nodes) == Members(g.nodes) + {ptr}
    ensures forall a :: a in g'.owners ==> a in g.owners || fresh(a)
  {
    var holder;
    holder, root', g' := AddRounds(root, ptr, g);
    DepthOfName(ptr, |ptr|);
    var np;
    np, g' := PutNode(holder, NameOf(ptr, |ptr|), ptr[|ptr| - 1], g');
    FullAfter(g.nodes, g'.nodes, ptr);
  }

  /** As written, adding one address makes every other with its first three chunks a member. */
  method WrittenFindsOther(a: seq<Chunk>, b: seq<Chunk>) returns (found: bool)
    requires |a| == |b| == ADDR_LEN && a != b && a[..ADDR_LEN - 1] == b[..ADDR_LEN - 1]
    ensures found
  {
    var f := new FixSet(AsWritten);
    f.Add(a);
    assert a in f.Contents();
    found := f.Has(b);
  }
}
