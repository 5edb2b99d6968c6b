/** The pointer set whose trie levels are red-black trees. */
module BstSet {
  import opened RedBlack
  import opened RedBlackRules
  import opened RedBlackWritten
  import opened TrieShape
  import opened BstKids

  lemma {:induction false} EntriesOfTree(m: Store, t: Tree<Kid>, at: Kid?, parent: Kid?)
    requires Spells(m, t, at, parent)
    ensures forall k :: k in Kids(t) ==> (k, k.v as int) in InOrder(t)
    ensures forall e :: e in InOrder(t) ==> e.0 in Kids(t) && e.0.v == e.1
    decreases t
  {
    if t.Node? {
      EntriesOfTree(m, t.left, m[t.kid].left, t.kid);
      EntriesOfTree(m, t.right, m[t.kid].right, t.kid);
      assert forall e :: e in InOrder(t) <==> e in InOrder(t.left) || e == (t.kid, t.v) || e in InOrder(t.right);
    }
  }

  /** In a search tree, the walk finds the kid with this chunk if there is one. */
  lemma WalkFinds(m: Store, t: Tree<Kid>, at: Kid?, c: Chunk)
    requires Spells(m, t, at, null) && Sorted(InOrder(t))
    ensures var f := Descend(Top, t, c).1;
            if f.Node? then f.kid in Kids(t) && f.kid.v == c else forall k :: k in Kids(t) ==> k.v != c
  {
    FindExact(t, c);
    EntriesOfTree(m, t, at, null);
    if Descend(Top, t, c).1.Leaf? {
      forall k | k in Kids(t) ensures k.v != c {
        var i :| 0 <= i < |InOrder(t)| && InOrder(t)[i] == (k, k.v as int);
      }
    }
  }

  // ----- the whole trie, as maps --------------------------------------------

  /** The objects of the trie by name, and their names; the fields of the
      objects; and the kids and the tree of each level. */
  datatype Trie = Trie(nodes: map<Name, TrieNode>, kids: map<Name, Kid>,
                       nodeNames: map<TrieNode, Name>, kidNames: map<Kid, Name>,
                       heads: map<TrieNode, Kid?>, edges: map<Kid, TrieNode?>, links: Store,
                       levels: map<Name, set<Kid>>, trees: map<Name, Tree<Kid>>)

  const EmptyTrie: Trie := Trie(map[], map[], map[], map[], map[], map[], map[], map[], map[])

  ghost function NodeAt(g: Trie, p: Name): TrieNode? {
    if p in g.nodes then g.nodes[p] else null
  }

  ghost function KidAt(g: Trie, q: Name): Kid? {
    if q in g.kids then g.kids[q] else null
  }

  /** The kids of one node: the links at `head` spell a search tree of just these
      kids with a black root, red-black when the fix-up reads `parent` again. */
  ghost predicate LevelOk(w: Variant, m: Store, head: Kid?, t: Tree<Kid>, level: set<Kid>) {
    && Spells(m, t, head, null) && Distinct(t) && Kids(t) == level
    && Sorted(InOrder(t)) && !IsRed(t) && (w.Reread? ==> IsRB(t))
  }

  /** The tree of one level; without a node it has no kids. */
  ghost function TreeOf(g: Trie, p: Name): Tree<Kid> {
    if p in g.nodes && p in g.trees then g.trees[p] else Leaf
  }

  /** On one of the four levels an address passes, the walk for its chunk ends where the fix-up
      as written fails. */
  ghost predicate AddFails(w: Variant, g: Trie, ptr: seq<Chunk>)
    requires |ptr| == ADDR_LEN
  {
    exists i {:trigger FailsAtLevel(w, g, ptr, i)} :: 0 <= i < |ptr| && FailsAtLevel(w, g, ptr, i)
  }

  ghost predicate FailsAtLevel(w: Variant, g: Trie, ptr: seq<Chunk>, i: nat)
    requires i < |ptr|
  {
    w.AsWritten? && WalkFails(TreeOf(g, NameOf(ptr, i)), ptr[i])
  }

  ghost predicate NodeOk(w: Variant, g: Trie, p: Name)
    requires p in g.nodes
  {
    var n := g.nodes[p];
    && (p.Root? || p in g.kids)
    && n in g.heads && n in g.nodeNames && g.nodeNames[n] == p
    && p in g.levels && p in g.trees && g.levels[p] == Level(g.kids, p) && g.levels[p] <= g.links.Keys
    && LevelOk(w, g.links, g.heads[n], g.trees[p], g.levels[p])
  }

  ghost predicate KidOk(g: Trie, q: Name)
    requires q in g.kids
  {
    var k := g.kids[q];
    && q.Below? && Depth(q) <= ADDR_LEN && q.up in g.nodes && k.v == q.chunk
    && k in g.edges && k in g.links && k in g.kidNames && g.kidNames[k] == q
    && g.edges[k] == NodeAt(g, q)
  }

  ghost predicate NameOk(w: Variant, g: Trie, q: Name) {
    (q in g.nodes ==> NodeOk(w, g, q)) && (q in g.kids ==> KidOk(g, q))
  }

  ghost predicate KeysOk(g: Trie) {
    g.heads.Keys == g.nodeNames.Keys && g.edges.Keys == g.links.Keys == g.kidNames.Keys
  }

  ghost predicate TrieOk(w: Variant, g: Trie) {
    && KeysOk(g)
    && forall q {:trigger NameOk(w, g, q)} :: NameOk(w, g, q)
  }

  lemma ShapeOf(w: Variant, g: Trie)
    requires TrieOk(w, g)
    ensures WellFormed(g.nodes, g.kids)
  {
    forall q ensures q in g.kids ==> q.Below? && Depth(q) <= ADDR_LEN && q.up in g.nodes && g.kids[q] in g.kidNames
                                                    && g.kidNames[g.kids[q]] == q
    {
      assert NameOk(w, g, q);
    }
    forall p ensures p in g.nodes ==> (p.Root? || p in g.kids) && g.nodes[p] in g.nodeNames
                                                    && g.nodeNames[g.nodes[p]] == p
    {
      assert NameOk(w, g, p);
    }
  }

  /** The walk over one level finds exactly the kid named by the longer prefix. */
  lemma FindInLevel(w: Variant, g: Trie, p: Name, c: Chunk)
    requires TrieOk(w, g) && p in g.nodes
    ensures p in g.trees && var f := Descend(Top, g.trees[p], c).1;
            KidAt(g, Below(p, c)) == if f.Node? then f.kid else null
  {
    assert NameOk(w, g, p);
    var t := g.trees[p];
    WalkFinds(g.links, t, g.heads[g.nodes[p]], c);
    assert NameOk(w, g, Below(p, c));
    assert Below(p, c) in g.kids ==> g.kids[Below(p, c)] in Level(g.kids, p);
    var f := Descend(Top, t, c).1;
    if f.Node? {
      var q :| q in g.kids && q.Below? && q.up == p && g.kids[q] == f.kid;
      assert NameOk(w, g, q);
    }
  }

  /** The trees of all other levels are the same. */
  ghost predicate OthersKept(g: Trie, g': Trie, p: Name) {
    forall q {:trigger TreeOf(g', q)} :: q != p ==> TreeOf(g', q) == TreeOf(g, q)
  }

  // ----- a new node ---------------------------------------------------------

  ghost function WithNode(g: Trie, p: Name, np: TrieNode): Trie {
    g.(nodes := g.nodes[p := np], nodeNames := g.nodeNames[np := p], heads := g.heads[np := null],
       levels := g.levels[p := {}], trees := g.trees[p := Leaf],
       edges := if p in g.kids then g.edges[g.kids[p] := np] else g.edges)
  }

  /** A node may be put where there is none, or replace a final leaf. */
  lemma WithNodeOk(w: Variant, g: Trie, p: Name, np: TrieNode)
    requires TrieOk(w, g) && np !in g.heads
    requires (p.Root? || p in g.kids) && (p !in g.nodes || Depth(p) == ADDR_LEN)
    ensures TrieOk(w, WithNode(g, p, np))
  {
    NoLevel(w, g, p);
    assert NameOk(w, g, p);
    forall q ensures NameOk(w, WithNode(g, p, np), q) {
      assert NameOk(w, g, q) && NameOk(w, g, p);
      WithNodeNameOk(w, g, p, np, q);
    }
  }

  lemma NoLevel(w: Variant, g: Trie, p: Name)
    requires TrieOk(w, g) && (p !in g.nodes || Depth(p) == ADDR_LEN)
    ensures Level(g.kids, p) == {}
  {
    ShapeOf(w, g);
    NoKidsBelow(g.nodes, g.kids, p);
  }

  lemma WithNodeKeeps(g: Trie, p: Name, np: TrieNode)
    requires p !in g.nodes
    ensures OthersKept(g, WithNode(g, p, np), p) && TreeOf(WithNode(g, p, np), p) == TreeOf(g, p)
  {
  }

  lemma WithNodeNameOk(w: Variant, g: Trie, p: Name, np: TrieNode, q: Name)
    requires NameOk(w, g, q) && NameOk(w, g, p) && np !in g.heads
    requires (p.Root? || p in g.kids) && Level(g.kids, p) == {}
    ensures NameOk(w, WithNode(g, p, np), q)
  {
    if q in g.kids {
      WithNodeKidOk(w, g, p, np, q);
    }
    if q in g.nodes && q != p {
      WithNodeNodeOk(w, g, p, np, q);
    }
  }

  lemma WithNodeKidOk(w: Variant, g: Trie, p: Name, np: TrieNode, q: Name)
    requires q in g.kids && KidOk(g, q) && (p in g.kids ==> KidOk(g, p))
    ensures KidOk(WithNode(g, p, np), q)
  {
  }

  lemma WithNodeNodeOk(w: Variant, g: Trie, p: Name, np: TrieNode, q: Name)
    requires q in g.nodes && q != p && NodeOk(w, g, q) && np !in g.heads
    ensures NodeOk(w, WithNode(g, p, np), q)
  {
  }

  // ----- a new kid ----------------------------------------------------------

  /** After kid_get_or_set at the node `p` returned `k`: its level has the first
      kid `head`, and the links of that level changed. */
  ghost function WithKid(g: Trie, p: Name, c: Chunk, k: Kid, head: Kid?, links: Store, t: Tree<Kid>): Trie
    requires p in g.nodes && p in g.levels
  {
    g.(kids := g.kids[Below(p, c) := k], kidNames := g.kidNames[k := Below(p, c)],
       heads := g.heads[g.nodes[p] := head], links := links,
       edges := if k in g.edges then g.edges else g.edges[k := null],
       levels := g.levels[p := g.levels[p] + {k}], trees := g.trees[p := t])
  }

  /** `k` is the kid with this name, or a new kid that may take it. */
  ghost predicate KidNamed(g: Trie, p: Name, c: Chunk, k: Kid) {
    && Depth(p) < ADDR_LEN && k.v == c
    && if Below(p, c) in g.kids then k == g.kids[Below(p, c)] else k !in g.edges
  }

  /** Only the links of one level changed, and `k` joined it. */
  ghost predicate LinksGrew(g: Trie, p: Name, k: Kid, links: Store)
    requires p in g.levels
  {
    links.Keys == g.links.Keys + {k} && SameOn(g.links, links, g.links.Keys - g.levels[p])
  }

  lemma WithKidOk(w: Variant, g: Trie, p: Name, c: Chunk, k: Kid, head: Kid?, links: Store, t: Tree<Kid>)
    requires TrieOk(w, g) && p in g.nodes && p in g.levels && KidNamed(g, p, c, k) && LinksGrew(g, p, k, links)
    requires LevelOk(w, links, head, t, g.levels[p] + {k})
    ensures TrieOk(w, WithKid(g, p, c, k, head, links, t))
  {
    WithKidKeys(w, g, p, c, k, head, links, t);
    forall q ensures NameOk(w, WithKid(g, p, c, k, head, links, t), q) {
      WithKidNameOk(w, g, p, c, k, head, links, t, q);
    }
  }

  lemma WithKidKeeps(g: Trie, p: Name, c: Chunk, k: Kid, head: Kid?, links: Store, t: Tree<Kid>)
    requires p in g.nodes && p in g.levels
    ensures OthersKept(g, WithKid(g, p, c, k, head, links, t), p)
  {
  }

  lemma WithKidKeys(w: Variant, g: Trie, p: Name, c: Chunk, k: Kid, head: Kid?, links: Store, t: Tree<Kid>)
    requires KeysOk(g) && (forall q :: NameOk(w, g, q)) && p in g.nodes && p in g.levels
    requires KidNamed(g, p, c, k) && LinksGrew(g, p, k, links)
    ensures KeysOk(WithKid(g, p, c, k, head, links, t))
  {
    assert NameOk(w, g, Below(p, c)) && NameOk(w, g, p);
  }

  lemma WithKidNameOk(w: Variant, g: Trie, p: Name, c: Chunk, k: Kid, head: Kid?, links: Store, t: Tree<Kid>, q: Name)
    requires TrieOk(w, g) && p in g.nodes && p in g.levels && KidNamed(g, p, c, k) && LinksGrew(g, p, k, links)
    requires LevelOk(w, links, head, t, g.levels[p] + {k})
    ensures NameOk(w, WithKid(g, p, c, k, head, links, t), q)
  {
    assert NameOk(w, g, q) && NameOk(w, g, p) && NameOk(w, g, Below(p, c));
    if q in g.nodes {
      if q != p {
        OtherLevel(w, g, p, q, k, links);
      }
      WithKidNodeOk(w, g, p, c, k, head, links, t, q);
    }
    if q in g.kids || q == Below(p, c) {
      WithKidKidOk(w, g, p, c, k, head, links, t, q);
    }
  }

  lemma WithKidKidOk(w: Variant, g: Trie, p: Name, c: Chunk, k: Kid, head: Kid?, links: Store, t: Tree<Kid>, q: Name)
    requires p in g.nodes && p in g.levels && KidNamed(g, p, c, k) && LinksGrew(g, p, k, links)
    requires NameOk(w, g, Below(p, c)) && (q == Below(p, c) || (q in g.kids && KidOk(g, q)))
    requires g.edges.Keys == g.links.Keys == g.kidNames.Keys
    ensures KidOk(WithKid(g, p, c, k, head, links, t), q)
  {
  }

  /** Other levels keep their links and their kids. */
  lemma OtherLevel(w: Variant, g: Trie, p: Name, q: Name, k: Kid, links: Store)
    requires p in g.nodes && q in g.nodes && p != q && TrieOk(w, g)
    requires p in g.levels && LinksGrew(g, p, k, links)
    ensures q in g.levels && g.nodes[q] in g.heads && q in g.trees
    ensures LevelOk(w, links, g.heads[g.nodes[q]], g.trees[q], g.levels[q]) && g.nodes[q] != g.nodes[p]
  {
    ShapeOf(w, g);
    LevelsApart(g.nodes, g.kids, p, q);
    assert NameOk(w, g, p) && NameOk(w, g, q);
    SpellsFrame(g.links, links, g.trees[q], g.heads[g.nodes[q]], null);
  }

  lemma WithKidNodeOk(w: Variant, g: Trie, p: Name, c: Chunk, k: Kid, head: Kid?, links: Store, t: Tree<Kid>, q: Name)
    requires p in g.nodes && p in g.levels && KidNamed(g, p, c, k) && LinksGrew(g, p, k, links)
    requires q in g.nodes && NodeOk(w, g, q) && NodeOk(w, g, p)
    requires LevelOk(w, links, head, t, g.levels[p] + {k})
    requires q != p ==> g.nodes[q] != g.nodes[p] && LevelOk(w, links, g.heads[g.nodes[q]], g.trees[q], g.levels[q])
    ensures NodeOk(w, WithKid(g, p, c, k, head, links, t), q)
  {
    LevelAfterPut(g.kids, p, c, k, q);
  }

  /** What kid_get_or_set returned is the kid with this name, or a new kid. */
  lemma NamedByWalk(w: Variant, g: Trie, p: Name, c: Chunk, k: Kid)
    requires TrieOk(w, g) && p in g.nodes && p in g.trees && Depth(p) < ADDR_LEN && k.v == c
    requires var f := Descend(Top, g.trees[p], c).1; if f.Node? then k == f.kid else k !in g.edges
    ensures KidNamed(g, p, c, k)
  {
    FindInLevel(w, g, p, c);
  }

  lemma FailsExactly(w: Variant, g: Trie, p: Name, c: Chunk, k: Kid)
    requires TrieOk(w, g) && p in g.nodes
    ensures p in g.trees && TreeOf(g, p) == g.trees[p]
    ensures Insert(w, g.trees[p], c, k).Done? <==> w.Reread? || !WalkFails(TreeOf(g, p), c)
  {
    assert NameOk(w, g, p);
    InsertFailsExact(w, g.trees[p], c, k);
  }

  /** An insert that does not fail keeps a level in order. */
  lemma InsertedLevel(w: Variant, m: Store, links: Store, head: Kid?, t: Tree<Kid>, c: Chunk, k: Kid, t': Tree<Kid>,
                      level: set<Kid>)
    requires Sorted(InOrder(t)) && !IsRed(t) && (w.Reread? ==> IsRB(t)) && Insert(w, t, c, k) == Done(t')
    requires Spells(m, t', head, null) && Distinct(t') && Kids(t') == level && SameOn(m, links, level)
    ensures LevelOk(w, links, head, t', level)
  {
    InsertInOrder(w, t, c, k);
    InsertFailsExact(w, t, c, k);
    if w.Reread? {
      InsertKeepsRB(t, c, k);
    }
    SpellsFrame(m, links, t', head, null);
  }

  /** One successful kid_get_or_set keeps the trie in order. */
  lemma GetOrSetOk(w: Variant, g: Trie, p: Name, c: Chunk, k: Kid, head: Kid?, links: Store, t: Tree<Kid>, m: Store)
    requires TrieOk(w, g) && p in g.nodes && p in g.levels && p in g.trees
    requires KidNamed(g, p, c, k) && LinksGrew(g, p, k, links) && Insert(w, g.trees[p], c, k) == Done(t)
    requires var level := g.levels[p] + {k};
             Spells(m, t, head, null) && Distinct(t) && Kids(t) == level && SameOn(m, links, level)
    ensures TrieOk(w, WithKid(g, p, c, k, head, links, t))
  {
    assert NameOk(w, g, p);
    InsertedLevel(w, m, links, head, g.trees[p], c, k, t, g.levels[p] + {k});
    WithKidOk(w, g, p, c, k, head, links, t);
  }

  // ----- the fields of the objects ------------------------------------------

  ghost predicate Mirrored(g: Trie)
    reads g.heads.Keys`kids, g.edges.Keys`edge
    reads g.links.Keys`left, g.links.Keys`right, g.links.Keys`parent, g.links.Keys`color
  {
    HeadsMirrored(g.heads) && EdgesMirrored(g.edges) && LinksMirrored(g.links)
  }

  /** One level as kid_find and kid_get_or_set need it. */
  lemma LevelHere(w: Variant, g: Trie, p: Name)
    requires TrieOk(w, g) && Mirrored(g) && p in g.nodes
    ensures p in g.levels && p in g.trees && g.nodes[p] in g.heads && g.levels[p] <= g.links.Keys
    ensures TreeAt(g.levels[p], g.trees[p], g.nodes[p].kids)
  {
    assert NameOk(w, g, p);
    SpellsFrame(g.links, StoreOf(g.levels[p]), g.trees[p], g.nodes[p].kids, null);
  }

  /** npp is the edge of `holder`, or the root when `holder` is null. */
  ghost predicate Holder(g: Trie, holder: Kid?, p: Name) {
    if p.Root? then holder == null else p in g.kids && holder == g.kids[p]
  }

  method StoreNode(holder: Kid?, np: TrieNode, ghost p: Name, ghost g: Trie)
    requires Mirrored(g) && np !in g.heads && np.kids == null
    requires if holder == null then p !in g.kids else p in g.kids && g.kids[p] == holder && holder in g.edges
    modifies g.edges.Keys`edge
    ensures Mirrored(WithNode(g, p, np))
  {
    if holder != null {
      holder.edge := np;
    }
  }

  /** Put a new, empty node where npp points; the caller stores it when that is the root. */
  method NewNode(w: Variant, holder: Kid?, ghost p: Name, ghost g: Trie) returns (np: TrieNode, ghost g': Trie)
    requires TrieOk(w, g) && Mirrored(g) && Holder(g, holder, p) && (p !in g.nodes || Depth(p) == ADDR_LEN)
    modifies g.edges.Keys`edge
    ensures TrieOk(w, g') && Mirrored(g') && g' == WithNode(g, p, np) && fresh(np)
  {
    np := new TrieNode();
    WithNodeOk(w, g, p, np);
    assert NameOk(w, g, p);
    StoreNode(holder, np, p, g);
    g' := WithNode(g, p, np);
  }

  /** kid_get_or_set at the node `p`: false when the fix-up read a missing grandparent. */
  method GetOrSet(w: Variant, np: TrieNode, c: Chunk, ghost p: Name, ghost g: Trie)
    returns (ok: bool, k: Kid, ghost g': Trie)
    requires TrieOk(w, g) && Mirrored(g) && p in g.nodes && np == g.nodes[p] && Depth(p) < ADDR_LEN
    modifies np`kids, g.links.Keys`left, g.links.Keys`right, g.links.Keys`parent, g.links.Keys`color
    ensures ok <==> w.Reread? || !WalkFails(TreeOf(g, p), c)
    ensures ok ==> TrieOk(w, g') && Mirrored(g') && g'.nodes == g.nodes && g'.kids == g.kids[Below(p, c) := k]
    ensures ok ==> OthersKept(g, g', p)
    ensures ok ==> (forall n :: n in g'.heads ==> n in g.heads)
    ensures ok ==> (forall j :: j in g'.edges ==> j in g.edges || fresh(j))
  {
    LevelHere(w, g, p);
    ghost var level, t, links := g.levels[p], Leaf, map[];
    ok, k, t, links := KidGetOrSetWithin(w, np, c, g.trees[p], level, g.heads, g.edges, g.links);
    NamedByWalk(w, g, p, c, k);
    FailsExactly(w, g, p, c, k);
    g' := g;
    if ok {
      GetOrSetOk(w, g, p, c, k, np.kids, links, t, StoreOf(level + {k}));
      WithKidKeeps(g, p, c, k, np.kids, links, t);
      g' := WithKid(g, p, c, k, np.kids, links, t);
    }
  }

  /** The node npp points to, made first when there is none. */
  method EnsureNode(w: Variant, root: TrieNode?, holder: Kid?, ghost p: Name, ghost g: Trie)
    returns (np: TrieNode, root': TrieNode?, ghost g': Trie)
    requires TrieOk(w, g) && Mirrored(g) && root == NodeAt(g, Root) && Holder(g, holder, p)
    modifies g.edges.Keys`edge
    ensures TrieOk(w, g') && Mirrored(g') && root' == NodeAt(g', Root) && np == NodeAt(g', p) && g'.kids == g.kids
    ensures OthersKept(g, g', p) && TreeOf(g', p) == TreeOf(g, p)
    ensures np in g'.heads && (forall n :: n in g'.heads ==> n in g.heads || fresh(n))
    ensures g'.edges.Keys == g.edges.Keys
  {
    assert NameOk(w, g, p);
    var at: TrieNode?;
    if holder == null {
      at := root;
    } else {
      assert holder.edge == g.edges[holder];
      at := holder.edge;
    }
    root', g' := root, g;
    if at == null {
      np, g' := NewNode(w, holder, p, g);
      WithNodeKeeps(g, p, np);
      if holder == null {
        root' := np;
      }
    } else {
      np := at;
    }
  }

  /** Where the walk of add stands after i chunks. */
  ghost predicate Walking(w: Variant, g: Trie, root: TrieNode?, holder: Kid?, ptr: seq<Chunk>, i: nat,
                          was: map<Name, Kid>)
    reads g.heads.Keys`kids, g.edges.Keys`edge
    reads g.links.Keys`left, g.links.Keys`right, g.links.Keys`parent, g.links.Keys`color
  {
    && TrieOk(w, g) && Mirrored(g) && root == NodeAt(g, Root) && i <= |ptr|
    && Holder(g, holder, NameOf(ptr, i)) && KidsAlong(was, g.kids, ptr, i)
  }

  /** One round of the loop of add, among the nodes and kids of a growing trie. */
  method AddRound(w: Variant, root: TrieNode?, holder: Kid?, ptr: seq<Chunk>, i: nat, ghost was: map<Name, Kid>,
                  ghost g: Trie)
    returns (ok: bool, k: Kid, root': TrieNode?, ghost g': Trie)
    requires Walking(w, g, root, holder, ptr, i, was) && i < |ptr| == ADDR_LEN
    modifies g.heads.Keys, g.edges.Keys
    ensures ok <==> !FailsAtLevel(w, g, ptr, i)
    ensures ok ==> Walking(w, g', root', k, ptr, i + 1, was) && OthersKept(g, g', NameOf(ptr, i))
    ensures ok ==> (forall n :: n in g'.heads ==> n in g.heads || fresh(n))
    ensures ok ==> (forall j :: j in g'.edges ==> j in g.edges || fresh(j))
  {
    DepthOfName(ptr, i);
    var np;
    np, root', g' := EnsureNode(w, root, holder, NameOf(ptr, i), g);
    ok, k, g' := GetOrSet(w, np, ptr[i], NameOf(ptr, i), g');
    if ok {
      KidsAlongNext(was, g.kids, g'.kids, ptr, i);
    }
  }

  /** No level above failed, and on those below the trees are still what they were. */
  ghost predicate FailsOnlyBelow(w: Variant, was: Trie, g: Trie, ptr: seq<Chunk>, i: nat)
    requires i <= |ptr|
  {
    && (forall j {:trigger FailsAtLevel(w, was, ptr, j)} :: 0 <= j < i ==> !FailsAtLevel(w, was, ptr, j))
    && forall j {:trigger NameOf(ptr, j)} :: i <= j < |ptr| ==> TreeOf(g, NameOf(ptr, j)) == TreeOf(was, NameOf(ptr, j))
  }

  lemma RoundFails(w: Variant, was: Trie, g: Trie, g': Trie, ptr: seq<Chunk>, i: nat, ok: bool)
    requires i < |ptr| == ADDR_LEN && FailsOnlyBelow(w, was, g, ptr, i) && (ok <==> !FailsAtLevel(w, g, ptr, i))
    requires ok ==> OthersKept(g, g', NameOf(ptr, i))
    ensures if ok then FailsOnlyBelow(w, was, g', ptr, i + 1) else AddFails(w, was, ptr)
  {
    assert FailsAtLevel(w, was, ptr, i) == FailsAtLevel(w, g, ptr, i);
    if ok {
      forall j | i + 1 <= j < |ptr| ensures TreeOf(g', NameOf(ptr, j)) == TreeOf(was, NameOf(ptr, j)) {
        DepthOfName(ptr, i);
        DepthOfName(ptr, j);
      }
    }
  }

  /** The loop of add. */
  method AddRounds(w: Variant, root: TrieNode?, ptr: seq<Chunk>, ghost g: Trie)
    returns (ok: bool, holder: Kid?, root': TrieNode?, ghost g': Trie)
    requires Walking(w, g, root, null, ptr, 0, g.kids) && |ptr| == ADDR_LEN
    modifies g.heads.Keys, g.edges.Keys
    ensures ok <==> !AddFails(w, g, ptr)
    ensures ok ==> Walking(w, g', root', holder, ptr, |ptr|, g.kids)
    ensures ok ==> (forall n :: n in g'.heads ==> n in g.heads || fresh(n))
    ensures ok ==> (forall j :: j in g'.edges ==> j in g.edges || fresh(j))
  {
    holder, root', g', ok := null, root, g, true;
    var i := 0;
    while ok && i < |ptr|
      invariant 0 <= i <= |ptr| && (ok ==> FailsOnlyBelow(w, g, g', ptr, i)) && (!ok ==> AddFails(w, g, ptr))
      invariant ok ==> Walking(w, g', root', holder, ptr, i, g.kids)
      invariant ok ==> forall n :: n in g'.heads ==> n in g.heads || fresh(n)
      invariant ok ==> forall j :: j in g'.edges ==> j in g.edges || fresh(j)
    {
      ghost var before := g';
      ok, holder, root', g' := AddRound(w, root', holder, ptr, i, g.kids, g');
      RoundFails(w, g, before, g', ptr, i, ok);
      i := i + 1;
    }
  }

  /** The whole of add: the loop, then the final leaf. */
  method AddWalk(w: Variant, root: TrieNode?, ptr: seq<Chunk>, ghost g: Trie)
    returns (ok: bool, root': TrieNode?, ghost g': Trie)
    requires TrieOk(w, g) && Mirrored(g) && root == NodeAt(g, Root) && |ptr| == ADDR_LEN
    modifies g.heads.Keys, g.edges.Keys
    ensures ok <==> !AddFails(w, g, ptr)
    ensures ok ==> TrieOk(w, g') && Mirrored(g') && root' == NodeAt(g', Root)
                   && Members(g'.kids) == Members(g.kids) + {ptr}
    ensures ok ==> (forall n :: n in g'.heads ==> n in g.heads || fresh(n))
    ensures ok ==> (forall j :: j in g'.edges ==> j in g.edges || fresh(j))
  {
    var holder;
    ok, holder, root', g' := AddRounds(w, root, ptr, g);
    if ok {
      DepthOfName(ptr, |ptr|);
      var np;
      np, g' := NewNode(w, holder, NameOf(ptr, |ptr|), g');
      MembersAlong(g.kids, g'.kids, ptr);
    }
  }

  // ----- the set ------------------------------------------------------------

  class BstSet {
    const w: Variant
    var root: TrieNode?
    ghost var trie: Trie

    ghost predicate Valid()
      reads this, trie.heads.Keys, trie.edges.Keys, trie.links.Keys
    {
      TrieOk(w, trie) && root == NodeAt(trie, Root) && Mirrored(trie)
    }

    /** The set of addresses this object stands for. */
    ghost function Contents(): set<seq<Chunk>>
      reads this
    {
      Members(trie.kids)
    }

    constructor (w: Variant)
      ensures Valid() && Contents() == {} && this.w == w && trie == EmptyTrie
    {
      this.w := w;
      root := null;
      trie := EmptyTrie;
    }

    /** One round of the walk over the chunks: the kid one level down, or null
        when the node or the kid is missing. */
    method Step(np: TrieNode?, ptr: seq<Chunk>, i: nat) returns (kp: Kid?)
      requires Valid() && i < |ptr| == ADDR_LEN && np == NodeAt(trie, NameOf(ptr, i))
      ensures kp == null ==> ptr !in Contents()
      ensures kp != null ==> kp == KidAt(trie, NameOf(ptr, i + 1)) && kp.edge == NodeAt(trie, NameOf(ptr, i + 1))
    {
      kp := null;
      ghost var p := NameOf(ptr, i);
      if np != null {
        LevelHere(w, trie, p);
        FindInLevel(w, trie, p, ptr[i]);
        kp := KidFind(np, ptr[i], trie.trees[p], trie.levels[p]);
      }
      if kp == null {
        ShapeOf(w, trie);
        PrefixMissing(trie.nodes, trie.kids, ptr, i);
      } else {
        assert NameOk(w, trie, Below(p, ptr[i])) && kp.edge == trie.edges[kp];
      }
    }

    /** has: true exactly for the members. */
    method Has(ptr: seq<Chunk>) returns (found: bool)
      requires Valid() && |ptr| == ADDR_LEN
      ensures found <==> ptr in Contents()
    {
      var np, i := root, 0;
      while i < ADDR_LEN
        invariant 0 <= i <= ADDR_LEN
        invariant i > 0 ==> NameOf(ptr, i) in trie.kids
        invariant np == NodeAt(trie, NameOf(ptr, i))
      {
        var kp := Step(np, ptr, i);
        if kp == null {
          return false;
        }
        np := kp.edge;
        i := i + 1;
      }
      MemberExact(trie.kids, ptr);
      found := true;
    }

    /** add: afterwards the address is a member and no other membership changed.
        It fails exactly when the fix-up as written reads a missing grandparent on some level. */
    method Add(ptr: seq<Chunk>) returns (ok: bool)
      requires Valid() && |ptr| == ADDR_LEN
      modifies this, trie.heads.Keys, trie.edges.Keys
      ensures ok <==> !AddFails(w, old(trie), ptr)
      ensures ok ==> Valid() && Contents() == old(Contents()) + {ptr}
      ensures ok ==> forall n :: n in trie.heads ==> n in old(trie.heads) || fresh(n)
      ensures ok ==> forall k :: k in trie.edges ==> k in old(trie.edges) || fresh(k)
    {
      ghost var g;
      var root';
      ok, root', g := AddWalk(w, root, ptr, trie);
      if ok {
        root, trie := root', g;
      }
    }
  }
}
