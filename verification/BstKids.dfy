/** The kids of one trie node as the program keeps them: records with left,
    right and parent links, searched, rotated and recolored in place.  Each
    method is proved against the tree functions of module RedBlack. */
module BstKids {
  import opened RedBlack
  import opened RedBlackWritten
  import opened TrieShape

  class TrieNode {
    var kids: Kid?

    constructor ()
      ensures kids == null
    {
      kids := null;
    }
  }

  class Kid {
    const v: Chunk
    var edge: TrieNode?
    var parent: Kid?
    var left: Kid?
    var right: Kid?
    var color: Color

    constructor (v: Chunk, parent: Kid?)
      ensures this.v == v && this.parent == parent && color == Red
      ensures edge == null && left == null && right == null
    {
      this.v := v;
      this.parent := parent;
      edge, left, right, color := null, null, null, Red;
    }
  }

  // ----- what the links spell -----------------------------------------------

  /** The mutable fields of a kid, as a value; `edge` is not part of the tree. */
  datatype Links = Links(left: Kid?, right: Kid?, parent: Kid?, color: Color) {
    function Side(s: Side): Kid? {
      if s.L? then left else right
    }

    function WithSide(s: Side, k: Kid?): Links {
      if s.L? then this.(left := k) else this.(right := k)
    }
  }

  type Store = map<Kid, Links>

  ghost function StoreOf(kids: set<Kid>): (m: Store)
    reads kids`left, kids`right, kids`parent, kids`color
    ensures m.Keys == kids
  {
    map k | k in kids :: Links(k.left, k.right, k.parent, k.color)
  }

  // The fields of a collection of objects, mirrored in a map.

  ghost predicate HeadsMirrored(heads: map<TrieNode, Kid?>)
    reads heads.Keys`kids
  {
    forall n {:trigger n.kids} :: n in heads ==> n.kids == heads[n]
  }

  ghost predicate EdgesMirrored(edges: map<Kid, TrieNode?>)
    reads edges.Keys`edge
  {
    forall k {:trigger k.edge} :: k in edges ==> k.edge == edges[k]
  }

  ghost predicate LinksMirrored(links: Store)
    reads links.Keys`left, links.Keys`right, links.Keys`parent, links.Keys`color
  {
    forall k {:trigger k.color} :: k in links ==> links[k] == Links(k.left, k.right, k.parent, k.color)
  }

  ghost function Kids(t: Tree<Kid>): set<Kid> {
    match t
    case Leaf => {}
    case Node(_, l, k, _, r) => Kids(l) + {k} + Kids(r)
  }

  ghost function PathKids(path: Path<Kid>): set<Kid> {
    match path
    case Top => {}
    case Up(_, _, k, _, sib, rest) => {k} + Kids(sib) + PathKids(rest)
  }

  ghost function All(path: Path<Kid>, t: Tree<Kid>): set<Kid> {
    PathKids(path) + Kids(t)
  }

  ghost predicate Distinct(t: Tree<Kid>) {
    t.Node? ==>
      && t.kid !in Kids(t.left) && t.kid !in Kids(t.right) && Kids(t.left) !! Kids(t.right)
      && Distinct(t.left) && Distinct(t.right)
  }

  ghost predicate PathDistinct(path: Path<Kid>, below: set<Kid>) {
    && below !! PathKids(path)
    && (path.Up? ==>
          && path.kid !in Kids(path.sib) && Distinct(path.sib)
          && PathDistinct(path.rest, below + {path.kid} + Kids(path.sib)))
  }

  /** The links at `at` spell the tree `t`, below the kid `parent`. */
  ghost predicate Spells(m: Store, t: Tree<Kid>, at: Kid?, parent: Kid?)
    decreases t
  {
    match t
    case Leaf => at == null
    case Node(c, l, k, v, r) =>
      && at == k && k in m && m[k].color == c && k.v == v && m[k].parent == parent
      && Spells(m, l, m[k].left, k) && Spells(m, r, m[k].right, k)
  }

  ghost function ParentOf(path: Path<Kid>): Kid? {
    if path.Top? then null else path.kid
  }

  /** The links from `root` down to `at` spell the path. */
  ghost predicate PathSpells(m: Store, path: Path<Kid>, at: Kid?, root: Kid?)
    decreases path
  {
    match path
    case Top => at == root
    case Up(side, c, k, v, sib, rest) =>
      && k in m && m[k].color == c && k.v == v && m[k].parent == ParentOf(rest)
      && m[k].Side(side) == at && Spells(m, sib, m[k].Side(Other(side)), k)
      && PathSpells(m, rest, k, root)
  }

  ghost predicate Placed(m: Store, path: Path<Kid>, t: Tree<Kid>, root: Kid?, at: Kid?) {
    && Distinct(t) && PathDistinct(path, Kids(t))
    && Spells(m, t, at, ParentOf(path)) && PathSpells(m, path, at, root)
  }

  /** The kids of one trie node are `repr`, and their links spell `t`. */
  ghost predicate TreeAt(repr: set<Kid>, t: Tree<Kid>, root: Kid?)
    reads repr`left, repr`right, repr`parent, repr`color
  {
    Spells(StoreOf(repr), t, root, null) && Distinct(t) && Kids(t) == repr
  }

  ghost predicate SameOn(m: Store, m': Store, s: set<Kid>) {
    forall k :: k in s && k in m ==> k in m' && m'[k] == m[k]
  }

  lemma {:induction false} SpellsFrame(m: Store, m': Store, t: Tree<Kid>, at: Kid?, parent: Kid?)
    requires Spells(m, t, at, parent) && SameOn(m, m', Kids(t))
    ensures Spells(m', t, at, parent)
    decreases t
  {
    if t.Node? {
      SpellsFrame(m, m', t.left, m[t.kid].left, t.kid);
      SpellsFrame(m, m', t.right, m[t.kid].right, t.kid);
    }
  }

  lemma {:induction false} PathSpellsFrame(m: Store, m': Store, path: Path<Kid>, at: Kid?, root: Kid?)
    requires PathSpells(m, path, at, root) && SameOn(m, m', PathKids(path))
    ensures PathSpells(m', path, at, root)
    decreases path
  {
    if path.Up? {
      SpellsFrame(m, m', path.sib, m[path.kid].Side(Other(path.side)), path.kid);
      PathSpellsFrame(m, m', path.rest, path.kid, root);
    }
  }

  lemma {:induction false} PlugPlaced(m: Store, path: Path<Kid>, t: Tree<Kid>, root: Kid?, at: Kid?)
    requires Placed(m, path, t, root, at)
    ensures Spells(m, Plug(path, t), root, null) && Distinct(Plug(path, t))
    ensures Kids(Plug(path, t)) == All(path, t)
    decreases path
  {
    if path.Up? {
      var n := Join(path.side, path.color, path.kid, path.v, t, path.sib);
      assert Kids(n) == Kids(t) + {path.kid} + Kids(path.sib);
      PlugPlaced(m, path.rest, n, root, path.kid);
    }
  }

  lemma {:induction false} RootOnPath(m: Store, path: Path<Kid>, at: Kid?, root: Kid?)
    requires PathSpells(m, path, at, root) && path.Up?
    ensures root in PathKids(path)
    decreases path
  {
    if path.rest.Up? {
      RootOnPath(m, path.rest, path.kid, root);
    }
  }

  // ----- rotations ----------------------------------------------------------

  lemma JoinKids(side: Side, c: Color, k: Kid, v: int, t: Tree<Kid>, sib: Tree<Kid>)
    ensures Kids(Join(side, c, k, v, t, sib)) == Kids(t) + {k} + Kids(sib)
  {
  }

  lemma RotateSets(side: Side, t: Tree<Kid>)
    requires t.Node? && Child(t, Other(side)).Node? && Distinct(t)
    ensures Kids(Rotate(side, t)) == Kids(t) && Distinct(Rotate(side, t))
  {
    var u := Child(t, Other(side));
    assert Distinct(u);
    var low := Join(side, t.color, t.kid, t.v, Child(t, side), Child(u, side));
    JoinKids(side, t.color, t.kid, t.v, Child(t, side), Child(u, side));
    JoinKids(side, u.color, u.kid, u.v, Child(u, side), Child(u, Other(side)));
    JoinKids(side, u.color, u.kid, u.v, low, Child(u, Other(side)));
    assert Distinct(low);
    assert Rotate(side, t) == Join(side, u.color, u.kid, u.v, low, Child(u, Other(side)));
  }

  /** The other link of the parent is not the kid itself, so comparing with one side is enough. */
  lemma SideOfParent(m: Store, path: Path<Kid>, t: Tree<Kid>, root: Kid?, x: Kid)
    requires Placed(m, path, t, root, x) && path.Up?
    ensures m[path.kid].Side(path.side) == x && m[path.kid].Side(Other(path.side)) != x
  {
    assert x in Kids(t);
    assert path.sib.Node? ==> path.sib.kid in Kids(path.sib);
  }

  /** The four kids a rotation touches are in the store and are different kids. */
  lemma Neighbors(side: Side, m: Store, path: Path<Kid>, t: Tree<Kid>, root: Kid?, x: Kid)
    requires t.Node? && Child(t, Other(side)).Node? && Placed(m, path, t, root, x)
    ensures var y := Child(t, Other(side)).kid;
            && x in m && y in m && x != y && m[x].Side(Other(side)) == y && m[x].parent == ParentOf(path)
            && (var b := m[y].Side(side);
                b != null ==> b in Kids(t) && b in m && b != x && b != y && b != ParentOf(path))
            && (path.Up? ==> path.kid in m && path.kid != x && path.kid != y
                             && m[path.kid].Side(path.side) == x && m[path.kid].Side(Other(path.side)) != x)
  {
    var u := Child(t, Other(side));
    var b := Child(u, side);
    assert x == t.kid && Spells(m, u, m[x].Side(Other(side)), x) && Distinct(u);
    assert Spells(m, b, m[u.kid].Side(side), u.kid);
    assert u.kid in Kids(u) && Kids(u) <= Kids(t) && x in Kids(t);
    assert b.Node? ==> b.kid in Kids(b) && Kids(b) <= Kids(u);
    if path.Up? {
      SideOfParent(m, path, t, root, x);
      assert path.kid in PathKids(path);
    }
  }

  /** What a rotation at `x`, with `y` its child on the other side, does to the links. */
  ghost predicate Rotated(side: Side, m: Store, m': Store, path: Path<Kid>, x: Kid, y: Kid)
  {
    && m'.Keys == m.Keys && x in m && y in m && (path.Up? ==> path.kid in m)
    && var b, p := m[y].Side(side), ParentOf(path);
    && m'[x] == m[x].WithSide(Other(side), b).(parent := y)
    && m'[y] == m[y].WithSide(side, x).(parent := m[x].parent)
    && (b != null && b in m ==> m'[b] == m[b].(parent := x))
    && (p != null ==> m'[p] == m[p].WithSide(path.side, y))
    && forall k :: k in m && k != x && k != y && k != b && k != p ==> m'[k] == m[k]
  }

  lemma RotatedElsewhere(side: Side, m: Store, m': Store, path: Path<Kid>, x: Kid, y: Kid, s: set<Kid>)
    requires Rotated(side, m, m', path, x, y) && x !in s && y !in s
    requires m[y].Side(side) != null ==> m[y].Side(side) !in s
    requires path.Up? ==> path.kid !in s
    ensures SameOn(m, m', s)
  {
  }

  lemma RotateSpellsTree(side: Side, m: Store, m': Store, path: Path<Kid>, t: Tree<Kid>, x: Kid)
    requires t.Node? && Child(t, Other(side)).Node? && Distinct(t)
    requires Spells(m, t, x, ParentOf(path)) && Kids(t) !! PathKids(path)
    requires Rotated(side, m, m', path, x, Child(t, Other(side)).kid)
    ensures Spells(m', Rotate(side, t), Child(t, Other(side)).kid, ParentOf(path))
  {
    var u := Child(t, Other(side));
    var y, a, b, d := u.kid, Child(t, side), Child(u, side), Child(u, Other(side));
    assert Spells(m, u, y, x) && Distinct(u) && Spells(m, b, m[y].Side(side), y);
    assert Kids(t) == Kids(a) + {x} + Kids(u) && Kids(u) == Kids(b) + {y} + Kids(d);
    assert b.Node? ==> b.kid in Kids(b) && Kids(b) == Kids(b.left) + {b.kid} + Kids(b.right) && Distinct(b);
    assert path.Up? ==> path.kid in PathKids(path);
    RotatedElsewhere(side, m, m', path, x, y, Kids(a));
    SpellsFrame(m, m', a, m[x].Side(side), x);
    RotatedElsewhere(side, m, m', path, x, y, Kids(d));
    SpellsFrame(m, m', d, m[y].Side(Other(side)), y);
    if b.Node? {
      RotatedElsewhere(side, m, m', path, x, y, Kids(b.left));
      SpellsFrame(m, m', b.left, m[b.kid].left, b.kid);
      RotatedElsewhere(side, m, m', path, x, y, Kids(b.right));
      SpellsFrame(m, m', b.right, m[b.kid].right, b.kid);
    }
    var low := Join(side, t.color, x, t.v, a, b);
    assert Spells(m', low, x, y);
    assert Rotate(side, t) == Join(side, u.color, y, u.v, low, d);
  }

  lemma RotateSpells(side: Side, m: Store, m': Store, path: Path<Kid>, t: Tree<Kid>, root: Kid, x: Kid)
    requires t.Node? && Child(t, Other(side)).Node? && Placed(m, path, t, root, x)
    requires Rotated(side, m, m', path, x, Child(t, Other(side)).kid)
    ensures var y := Child(t, Other(side)).kid;
            Placed(m', path, Rotate(side, t), if path.Top? then y else root, y)
  {
    var u := Child(t, Other(side));
    Neighbors(side, m, path, t, root, x);
    RotateSpellsTree(side, m, m', path, t, x);
    RotateSets(side, t);
    assert u.kid in Kids(u) && Kids(u) <= Kids(t);
    assert Child(u, side).Node? ==> Child(u, side).kid in Kids(Child(u, side)) && Kids(Child(u, side)) <= Kids(u);
    if path.Up? {
      assert PathDistinct(path.rest, Kids(t) + {path.kid} + Kids(path.sib));
      assert Kids(t) !! Kids(path.sib) && Kids(t) !! PathKids(path.rest) && path.kid !in PathKids(path.rest);
      assert m[u.kid].Side(side) != null ==> m[u.kid].Side(side) in Kids(t);
      RotatedElsewhere(side, m, m', path, x, u.kid, Kids(path.sib));
      RotatedElsewhere(side, m, m', path, x, u.kid, PathKids(path.rest));
      SpellsFrame(m, m', path.sib, m[path.kid].Side(Other(path.side)), path.kid);
      PathSpellsFrame(m, m', path.rest, path.kid, root);
    }
  }

  method KidRotateLeft(root: Kid, x: Kid, ghost path: Path<Kid>, ghost t: Tree<Kid>, ghost repr: set<Kid>)
    returns (newRoot: Kid)
    requires t.Node? && t.right.Node? && Placed(StoreOf(repr), path, t, root, x)
    modifies repr`left, repr`right, repr`parent
    ensures Placed(StoreOf(repr), path, RotateLeft(t), newRoot, t.right.kid)
  {
    ghost var m := StoreOf(repr);
    Neighbors(L, m, path, t, root, x);
    newRoot := root;
    var y := x.right;

    x.right := y.left;
    if y.left != null {
      y.left.parent := x;
    }

    y.parent := x.parent;
    if x.parent == null {
      newRoot := y;
    } else if x == x.parent.left {
      x.parent.left := y;
    } else {
      x.parent.right := y;
    }

    y.left := x;
    x.parent := y;
    RotateSpells(L, m, StoreOf(repr), path, t, root, x);
  }

  method KidRotateRight(root: Kid, x: Kid, ghost path: Path<Kid>, ghost t: Tree<Kid>, ghost repr: set<Kid>)
    returns (newRoot: Kid)
    requires t.Node? && t.left.Node? && Placed(StoreOf(repr), path, t, root, x)
    modifies repr`left, repr`right, repr`parent
    ensures Placed(StoreOf(repr), path, RotateRight(t), newRoot, t.left.kid)
  {
    ghost var m := StoreOf(repr);
    Neighbors(R, m, path, t, root, x);
    newRoot := root;
    var y := x.left;

    x.left := y.right;
    if y.right != null {
      y.right.parent := x;
    }

    y.parent := x.parent;
    if x.parent == null {
      newRoot := y;
    } else if x == x.parent.right {
      x.parent.right := y;
    } else {
      x.parent.left := y;
    }

    y.right := x;
    x.parent := y;
    RotateSpells(R, m, StoreOf(repr), path, t, root, x);
  }

  // ----- moving the focus and recoloring ------------------------------------

  lemma FocusUp(m: Store, path: Path<Kid>, t: Tree<Kid>, root: Kid?, at: Kid?)
    requires Placed(m, path, t, root, at) && path.Up?
    ensures var up := Join(path.side, path.color, path.kid, path.v, t, path.sib);
            Placed(m, path.rest, up, root, path.kid) && All(path.rest, up) == All(path, t)
  {
    JoinKids(path.side, path.color, path.kid, path.v, t, path.sib);
    assert Kids(t) !! Kids(path.sib) && path.kid !in Kids(t);
  }

  lemma FocusDown(m: Store, path: Path<Kid>, t: Tree<Kid>, root: Kid?, at: Kid?, side: Side)
    requires Placed(m, path, t, root, at) && t.Node?
    ensures var down := Up(side, t.color, t.kid, t.v, Child(t, Other(side)), path);
            && t.kid in m && Placed(m, down, Child(t, side), root, m[t.kid].Side(side))
            && All(down, Child(t, side)) == All(path, t)
  {
    var u, sib := Child(t, side), Child(t, Other(side));
    assert Kids(t) == Kids(u) + {t.kid} + Kids(sib);
    assert Spells(m, u, m[t.kid].Side(side), t.kid) && Spells(m, sib, m[t.kid].Side(Other(side)), t.kid);
  }

  ghost function Paint(t: Tree<Kid>, k: Kid, c: Color): Tree<Kid> {
    match t
    case Leaf => Leaf
    case Node(c0, l, k0, v, r) => Node(if k0 == k then c else c0, Paint(l, k, c), k0, v, Paint(r, k, c))
  }

  lemma {:induction false} PaintSpells(m: Store, t: Tree<Kid>, at: Kid?, parent: Kid?, k: Kid, c: Color)
    requires Spells(m, t, at, parent) && k in m
    ensures Spells(m[k := m[k].(color := c)], Paint(t, k, c), at, parent)
    ensures Kids(Paint(t, k, c)) == Kids(t) && (Distinct(t) ==> Distinct(Paint(t, k, c)))
    ensures k !in Kids(t) ==> Paint(t, k, c) == t
    decreases t
  {
    if t.Node? {
      PaintSpells(m, t.left, m[t.kid].left, t.kid, k, c);
      PaintSpells(m, t.right, m[t.kid].right, t.kid, k, c);
    }
  }

  lemma PaintPlaced(m: Store, path: Path<Kid>, t: Tree<Kid>, root: Kid?, at: Kid?, k: Kid, c: Color)
    requires Placed(m, path, t, root, at) && k in m && k in Kids(t)
    ensures Placed(m[k := m[k].(color := c)], path, Paint(t, k, c), root, at)
    ensures Kids(Paint(t, k, c)) == Kids(t)
  {
    PaintSpells(m, t, at, ParentOf(path), k, c);
    PathSpellsFrame(m, m[k := m[k].(color := c)], path, at, root);
  }

  method KidSetColor(k: Kid, c: Color, ghost path: Path<Kid>, ghost t: Tree<Kid>,
                     ghost root: Kid?, ghost at: Kid?, ghost repr: set<Kid>)
    requires Placed(StoreOf(repr), path, t, root, at) && k in repr && k in Kids(t)
    modifies k`color
    ensures Placed(StoreOf(repr), path, Paint(t, k, c), root, at) && Kids(Paint(t, k, c)) == Kids(t)
  {
    ghost var m := StoreOf(repr);
    k.color := c;
    PaintPlaced(m, path, t, root, at, k, c);
    assert StoreOf(repr) == m[k := m[k].(color := c)];
  }

  // ----- the fix-up loop ----------------------------------------------------

  lemma {:induction false} PaintElsewhere(t: Tree<Kid>, k: Kid, c: Color)
    requires k !in Kids(t)
    ensures Paint(t, k, c) == t
  {
    if t.Node? {
      PaintElsewhere(t.left, k, c);
      PaintElsewhere(t.right, k, c);
    }
  }

  /** The tree at the grandparent, as the path and the focus spell it. */
  ghost function GrandTree(path: Path<Kid>, f: Tree<Kid>): Tree<Kid>
    requires path.Up? && path.rest.Up?
  {
    var g := path.rest;
    Join(g.side, g.color, g.kid, g.v, Join(path.side, path.color, path.kid, path.v, f, path.sib), g.sib)
  }

  /** Three recolorings under a red uncle are one turn of the loop. */
  lemma RedUncleTurn(w: Variant, path: Path<Kid>, f: Tree<Kid>)
    requires f.Node? && path.Up? && path.rest.Up? && IsRed(path.rest.sib)
    requires Distinct(GrandTree(path, f))
    ensures var g := path.rest;
            Paint(Paint(Paint(GrandTree(path, f), path.kid, Black), g.sib.kid, Black), g.kid, Red)
            == FixStep(w, path, f).1
  {
    var g := path.rest;
    var u := g.sib;
    var low := Join(path.side, path.color, path.kid, path.v, f, path.sib);
    JoinKids(path.side, path.color, path.kid, path.v, f, path.sib);
    JoinKids(g.side, g.color, g.kid, g.v, low, u);
    assert Distinct(low) && Distinct(u) && Kids(u) == Kids(u.left) + {u.kid} + Kids(u.right);
    PaintElsewhere(f, path.kid, Black);
    PaintElsewhere(path.sib, path.kid, Black);
    PaintElsewhere(u, path.kid, Black);
    var low' := Join(path.side, Black, path.kid, path.v, f, path.sib);
    JoinKids(path.side, Black, path.kid, path.v, f, path.sib);
    PaintElsewhere(low', u.kid, Black);
    PaintElsewhere(u.left, u.kid, Black);
    PaintElsewhere(u.right, u.kid, Black);
    PaintElsewhere(low', g.kid, Red);
    assert Kids(Blacken(u)) == Kids(u);
    PaintElsewhere(Blacken(u), g.kid, Red);
  }

  /** The tree at the grandparent once the inner rotation, if any, is done. */
  ghost function Straightened(path: Path<Kid>, f: Tree<Kid>): Tree<Kid>
    requires f.Node? && path.Up? && path.rest.Up?
  {
    var g := path.rest;
    var low := Join(path.side, path.color, path.kid, path.v, f, path.sib);
    Join(g.side, g.color, g.kid, g.v, if path.side == g.side then low else Rotate(g.side, low), g.sib)
  }

  /** The kid that the variable `parent` names when it is colored black. */
  ghost function NamedParent(w: Variant, path: Path<Kid>, f: Tree<Kid>): Kid
    requires f.Node? && path.Up? && path.rest.Up?
  {
    if w.Reread? && path.side != path.rest.side then f.kid else path.kid
  }

  /** The recolorings and the last rotation are one turn of the loop. */
  lemma RotationTurn(w: Variant, path: Path<Kid>, f: Tree<Kid>)
    requires f.Node? && path.Up? && path.rest.Up? && !IsRed(path.rest.sib)
    requires Distinct(GrandTree(path, f))
    ensures var g := path.rest;
            var t := Paint(Paint(Straightened(path, f), NamedParent(w, path, f), Black), g.kid, Red);
            && t.Node? && t.kid == g.kid && Child(t, g.side).Node?
            && var r := Rotate(Other(g.side), t);
               FixStep(w, path, f)
               == (Up(g.side, r.color, r.kid, r.v, Child(r, Other(g.side)), g.rest), Child(r, g.side))
    ensures Kids(Straightened(path, f)) == Kids(GrandTree(path, f))
    ensures NamedParent(w, path, f) in Kids(Straightened(path, f))
  {
    var g, P, a := path.rest, path.kid, path.sib;
    var low := Join(path.side, path.color, P, path.v, f, a);
    JoinKids(path.side, path.color, P, path.v, f, a);
    JoinKids(g.side, g.color, g.kid, g.v, low, g.sib);
    assert Distinct(low) && Distinct(f) && Kids(f) == Kids(f.left) + {f.kid} + Kids(f.right);
    var n := NamedParent(w, path, f);
    PaintElsewhere(g.sib, n, Black);
    PaintElsewhere(g.sib, g.kid, Red);
    PaintElsewhere(a, n, Black);
    PaintElsewhere(a, g.kid, Red);
    if path.side == g.side {
      PaintElsewhere(f, P, Black);
      PaintElsewhere(f, g.kid, Red);
      assert Paint(Paint(low, P, Black), g.kid, Red) == Join(path.side, Black, P, path.v, f, a);
    } else {
      PaintElsewhere(f.left, n, Black);
      PaintElsewhere(f.left, g.kid, Red);
      PaintElsewhere(f.right, n, Black);
      PaintElsewhere(f.right, g.kid, Red);
      RotateSets(g.side, low);
      JoinKids(g.side, g.color, g.kid, g.v, Rotate(g.side, low), g.sib);
      var inner := Join(g.side, path.color, P, path.v, a, Child(f, g.side));
      assert Rotate(g.side, low) == Join(g.side, f.color, f.kid, f.v, inner, Child(f, Other(g.side)));
      var (old', new') := if w.Reread? then (path.color, Black) else (Black, f.color);
      assert Paint(Paint(inner, n, Black), g.kid, Red)
          == Join(g.side, old', P, path.v, a, Child(f, g.side));
      assert Paint(Paint(Rotate(g.side, low), n, Black), g.kid, Red)
          == Join(g.side, new', f.kid, f.v, Join(g.side, old', P, path.v, a, Child(f, g.side)),
                  Child(f, Other(g.side)));
    }
  }

  /** Where the links of the parent and the grandparent lead. */
  lemma Siblings(m: Store, path: Path<Kid>, f: Tree<Kid>, root: Kid?, p: Kid)
    requires f.Node? && path.Up? && Placed(m, path, f, root, p)
    ensures path.kid in m && p in m && m[p].parent == path.kid
    ensures m[path.kid].Side(path.side) == p && m[path.kid].Side(Other(path.side)) != p
    ensures m[path.kid].parent == ParentOf(path.rest)
    ensures path.rest.Up? ==>
              var g := path.rest;
              && g.kid in m && m[g.kid].Side(g.side) == path.kid
              && m[g.kid].Side(Other(g.side)) != path.kid
              && (g.sib.Leaf? ==> m[g.kid].Side(Other(g.side)) == null)
              && (g.sib.Node? ==> m[g.kid].Side(Other(g.side)) == g.sib.kid && g.sib.kid in m
                                  && m[g.sib.kid].color == g.sib.color)
  {
    SideOfParent(m, path, f, root, p);
    if path.rest.Up? {
      FocusUp(m, path, f, root, p);
      SideOfParent(m, path.rest, Join(path.side, path.color, path.kid, path.v, f, path.sib), root, path.kid);
    }
  }

  /** The red-uncle case: three colors change and nothing moves. */
  method KidRecolor(parent: Kid, uncle: Kid, gp: Kid, ghost w: Variant,
                    ghost path: Path<Kid>, ghost f: Tree<Kid>, ghost root: Kid?, ghost repr: set<Kid>)
    requires f.Node? && path.Up? && path.rest.Up? && IsRed(path.rest.sib)
    requires Placed(StoreOf(repr), path.rest.rest, GrandTree(path, f), root, gp)
    requires All(path.rest.rest, GrandTree(path, f)) == repr
    requires parent == path.kid && gp == path.rest.kid && uncle == path.rest.sib.kid
    modifies repr`color
    ensures var (path', f') := FixStep(w, path, f);
            Placed(StoreOf(repr), path', f', root, gp) && All(path', f') == repr
  {
    ghost var up, t := path.rest.rest, GrandTree(path, f);
    RedUncleTurn(w, path, f);
    JoinKids(path.side, path.color, path.kid, path.v, f, path.sib);
    assert {parent, uncle, gp} <= Kids(t);
    KidSetColor(parent, Black, up, t, root, gp, repr);
    t := Paint(t, parent, Black);
    KidSetColor(uncle, Black, up, t, root, gp, repr);
    t := Paint(t, uncle, Black);
    KidSetColor(gp, Red, up, t, root, gp, repr);
  }

  /** After the inner rotation the old parent hangs below the old focus. */
  lemma Straighten(m: Store, path: Path<Kid>, f: Tree<Kid>, root: Kid?, p: Kid)
    requires f.Node? && path.Up? && path.rest.Up? && path.side != path.rest.side && p == path.kid
    requires var low := Join(path.side, path.color, path.kid, path.v, f, path.sib);
             Placed(m, path.rest, Rotate(path.rest.side, low), root, f.kid)
    ensures p in m && m[p].parent == f.kid
    ensures Placed(m, path.rest.rest, Straightened(path, f), root, path.rest.kid)
    ensures All(path.rest.rest, Straightened(path, f))
         == All(path.rest, Rotate(path.rest.side, Join(path.side, path.color, path.kid, path.v, f, path.sib)))
  {
    var t := Rotate(path.rest.side, Join(path.side, path.color, path.kid, path.v, f, path.sib));
    FocusUp(m, path.rest, t, root, f.kid);
    FocusDown(m, path.rest, t, root, f.kid, path.rest.side);
  }

  /** Recolor and rotate at the grandparent. */
  method KidLift(side: Side, root0: Kid, gp: Kid, parent: Kid, ghost w: Variant,
                 ghost path: Path<Kid>, ghost f: Tree<Kid>, ghost repr: set<Kid>)
    returns (root: Kid)
    requires f.Node? && path.Up? && path.rest.Up? && path.rest.side == side && !IsRed(path.rest.sib)
    requires Distinct(GrandTree(path, f)) && All(path.rest.rest, GrandTree(path, f)) == repr
    requires Placed(StoreOf(repr), path.rest.rest, Straightened(path, f), root0, gp)
    requires gp == path.rest.kid && parent == NamedParent(w, path, f)
    modifies repr`left, repr`right, repr`parent, repr`color
    ensures var (path', f') := FixStep(w, path, f);
            && f'.Node? && Placed(StoreOf(repr), path', f', root, f'.kid) && All(path', f') == repr
  {
    ghost var up, t := path.rest.rest, Straightened(path, f);
    RotationTurn(w, path, f);
    KidSetColor(parent, Black, up, t, root0, gp, repr);
    t := Paint(t, parent, Black);
    KidSetColor(gp, Red, up, t, root0, gp, repr);
    t := Paint(t, gp, Red);
    if side.L? {
      root := KidRotateRight(root0, gp, up, t, repr);
    } else {
      root := KidRotateLeft(root0, gp, up, t, repr);
    }
    RotateSets(Other(side), t);
    ghost var r := Rotate(Other(side), t);
    FocusDown(StoreOf(repr), up, r, root, r.kid, side);
  }

  /** The branch for a parent that is the left child of the grandparent. */
  method KidFixLeft(w: Variant, root0: Kid, p0: Kid, parent0: Kid, gp: Kid,
                    ghost path: Path<Kid>, ghost f: Tree<Kid>, ghost repr: set<Kid>)
    returns (root: Kid, p: Kid)
    requires f.Node? && path.Up? && path.rest.Up? && path.rest.side == L
    requires Placed(StoreOf(repr), path, f, root0, p0) && All(path, f) == repr
    requires parent0 == path.kid && gp == path.rest.kid
    modifies repr`left, repr`right, repr`parent, repr`color
    ensures var (path', f') := FixStep(w, path, f);
            Placed(StoreOf(repr), path', f', root, p) && All(path', f') == repr
  {
    root, p := root0, p0;
    var parent := parent0;
    ghost var g, low, m := path.rest, Join(path.side, path.color, path.kid, path.v, f, path.sib), StoreOf(repr);
    FocusUp(m, path, f, root, p);
    FocusUp(m, g, low, root, parent);
    Siblings(m, path, f, root, p);
    var uncle := gp.right;
    if uncle != null && uncle.color == Red {
      KidRecolor(parent, uncle, gp, w, path, f, root, repr);
      p := gp;
    } else {
      if p == parent.right {
        p := parent;
        root := KidRotateLeft(root, p, g, low, repr);
        Straighten(StoreOf(repr), path, f, root, p);
        if w.Reread? {
          parent := p.parent;
        }
      }
      root := KidLift(L, root, gp, parent, w, path, f, repr);
    }
  }

  /** The branch for a parent that is the right child of the grandparent. */
  method KidFixRight(w: Variant, root0: Kid, p0: Kid, parent0: Kid, gp: Kid,
                    ghost path: Path<Kid>, ghost f: Tree<Kid>, ghost repr: set<Kid>)
    returns (root: Kid, p: Kid)
    requires f.Node? && path.Up? && path.rest.Up? && path.rest.side == R
    requires Placed(StoreOf(repr), path, f, root0, p0) && All(path, f) == repr
    requires parent0 == path.kid && gp == path.rest.kid
    modifies repr`left, repr`right, repr`parent, repr`color
    ensures var (path', f') := FixStep(w, path, f);
            Placed(StoreOf(repr), path', f', root, p) && All(path', f') == repr
  {
    root, p := root0, p0;
    var parent := parent0;
    ghost var g, low, m := path.rest, Join(path.side, path.color, path.kid, path.v, f, path.sib), StoreOf(repr);
    FocusUp(m, path, f, root, p);
    FocusUp(m, g, low, root, parent);
    Siblings(m, path, f, root, p);
    var uncle := gp.left;
    if uncle != null && uncle.color == Red {
      KidRecolor(parent, uncle, gp, w, path, f, root, repr);
      p := gp;
    } else {
      if p == parent.left {
        p := parent;
        root := KidRotateRight(root, p, g, low, repr);
        Straighten(StoreOf(repr), path, f, root, p);
        if w.Reread? {
          parent := p.parent;
        }
      }
      root := KidLift(R, root, gp, parent, w, path, f, repr);
    }
  }

  method KidBlackenRoot(root: Kid, ghost t: Tree<Kid>, ghost repr: set<Kid>)
    requires TreeAt(repr, t, root)
    modifies root`color
    ensures TreeAt(repr, Blacken(t), root)
  {
    KidSetColor(root, Black, Top, t, root, root, repr);
    PaintElsewhere(t.left, root, Black);
    PaintElsewhere(t.right, root, Black);
  }

  method KidFix(w: Variant, root0: Kid, p0: Kid, ghost path0: Path<Kid>, ghost f0: Tree<Kid>, ghost repr: set<Kid>)
    returns (ok: bool, root: Kid, ghost t: Tree<Kid>)
    requires f0.Node? && Placed(StoreOf(repr), path0, f0, root0, p0) && All(path0, f0) == repr
    modifies repr`left, repr`right, repr`parent, repr`color
    ensures Fix(w, path0, f0) == if ok then Done(t) else NullDeref
    ensures ok ==> TreeAt(repr, t, root)
  {
    root, t := root0, Leaf;
    var p := p0;
    ghost var path, f := path0, f0;
    Whereabouts(StoreOf(repr), path, f, root, p);
    while p != root && p.parent.color == Red
      invariant f.Node? && Placed(StoreOf(repr), path, f, root, p) && All(path, f) == repr
      invariant p in repr && root in repr && (p == root <==> path.Top?)
      invariant path.Up? ==> p.parent == path.kid && path.kid in repr && path.kid.color == path.color
      invariant Fix(w, path, f) == Fix(w, path0, f0)
      decreases PathLen(path)
    {
      var parent := p.parent;
      Siblings(StoreOf(repr), path, f, root, p);
      var gp := parent.parent;
      if gp == null {
        return false, root, Leaf;
      }
      ghost var next := FixStep(w, path, f);
      if parent == gp.left {
        root, p := KidFixLeft(w, root, p, parent, gp, path, f, repr);
      } else {
        root, p := KidFixRight(w, root, p, parent, gp, path, f, repr);
      }
      path, f := next.0, next.1;
      Whereabouts(StoreOf(repr), path, f, root, p);
    }
    PlugPlaced(StoreOf(repr), path, f, root, p);
    KidBlackenRoot(root, Plug(path, f), repr);
    ok, t := true, Blacken(Plug(path, f));
  }

  lemma Whereabouts(m: Store, path: Path<Kid>, f: Tree<Kid>, root: Kid?, p: Kid?)
    requires f.Node? && Placed(m, path, f, root, p) && All(path, f) == m.Keys
    ensures p != null && root != null && p in m && root in m && (p == root <==> path.Top?)
    ensures path.Up? ==> m[p].parent == path.kid && path.kid in m && m[path.kid].color == path.color
  {
    assert p in Kids(f);
    if path.Up? {
      RootOnPath(m, path, p, root);
    }
  }

  // ----- searching and inserting --------------------------------------------

  method KidFind(np: TrieNode, chunk: Chunk, ghost t: Tree<Kid>, ghost repr: set<Kid>)
    returns (kp: Kid?)
    requires TreeAt(repr, t, np.kids)
    ensures var f := Descend(Top, t, chunk).1;
            if f.Leaf? then kp == null else kp == f.kid && kp.v == f.v == chunk
  {
    kp := np.kids;
    ghost var path, f := Top, t;
    while kp != null
      invariant Placed(StoreOf(repr), path, f, np.kids, kp) && All(path, f) == repr
      invariant Descend(path, f, chunk) == Descend(Top, t, chunk)
      decreases f
    {
      ghost var side := if chunk < kp.v then L else R;
      FocusDown(StoreOf(repr), path, f, np.kids, kp, side);
      ghost var down := Up(side, f.color, f.kid, f.v, Child(f, Other(side)), path);
      if chunk < kp.v {
        kp := kp.left;
      } else if chunk > kp.v {
        kp := kp.right;
      } else {
        break;
      }
      path, f := down, Child(f, side);
    }
  }

  /** Hanging a fresh kid at the empty place the walk ended at. */
  lemma Attach(m: Store, m': Store, path: Path<Kid>, root: Kid?, k: Kid)
    requires Placed(m, path, Leaf, if path.Top? then null else root, null) && (path.Top? ==> root == k)
    requires PathKids(path) == m.Keys && k !in m
    requires m'.Keys == m.Keys + {k} && m'[k] == Links(null, null, ParentOf(path), Red)
    requires path.Up? ==> m'[path.kid] == m[path.kid].WithSide(path.side, k)
    requires forall j :: j in m && j != ParentOf(path) ==> m'[j] == m[j]
    ensures var n := Node(Red, Leaf, k, k.v, Leaf);
            && Placed(m', path, n, root, k)
            && All(path, n) == m'.Keys
  {
    PathBelowMore(path, {}, {k});
    assert {} + {k} == {k} == Kids(Node(Red, Leaf, k, k.v, Leaf));
    if path.Up? {
      assert PathDistinct(path.rest, {} + {path.kid} + Kids(path.sib));
      SpellsFrame(m, m', path.sib, m[path.kid].Side(Other(path.side)), path.kid);
      PathSpellsFrame(m, m', path.rest, path.kid, root);
    }
  }

  lemma {:induction false} PathBelowMore(path: Path<Kid>, below: set<Kid>, more: set<Kid>)
    requires PathDistinct(path, below) && more !! PathKids(path)
    ensures PathDistinct(path, below + more)
    decreases path
  {
    if path.Up? {
      PathBelowMore(path.rest, below + {path.kid} + Kids(path.sib), more);
      assert below + {path.kid} + Kids(path.sib) + more == below + more + {path.kid} + Kids(path.sib);
    }
  }

  /** The walk of kid_get_or_set: the kid with this chunk, or the last kid passed
      and the side of it that is empty.  A null `kp` stands for np.kids itself. */
  method KidWalk(np: TrieNode, chunk: Chunk, ghost t: Tree<Kid>, ghost repr: set<Kid>)
    returns (found: bool, kp: Kid?, side: Side)
    requires TreeAt(repr, t, np.kids)
    ensures var (path, f) := Descend(Top, t, chunk);
            && Placed(StoreOf(repr), path, f, np.kids, if found then kp else null) && All(path, f) == repr
            && found == f.Node?
            && (if found then kp == f.kid && f.kid in repr && f.kid.v == chunk
                else kp == ParentOf(path) && (path.Up? ==> side == path.side && path.kid in repr))
  {
    kp, side := null, L;
    var at := np.kids;
    ghost var path, f, m := Top, t, StoreOf(repr);
    while at != null
      invariant Placed(m, path, f, np.kids, at) && All(path, f) == repr
      invariant kp == ParentOf(path) && (path.Up? ==> side == path.side && path.kid in repr)
      invariant Descend(path, f, chunk) == Descend(Top, t, chunk)
      decreases f
    {
      kp := at;
      FocusDown(m, path, f, np.kids, at, if chunk < kp.v then L else R);
      if chunk < kp.v {
        side := L;
        at := kp.left;
      } else if chunk > kp.v {
        side := R;
        at := kp.right;
      } else {
        return true, kp, side;
      }
      path, f := Up(side, f.color, f.kid, f.v, Child(f, Other(side)), path), Child(f, side);
    }
    found := false;
  }

  method KidHang(np: TrieNode, chunk: Chunk, kp: Kid?, side: Side, ghost path: Path<Kid>, ghost repr: set<Kid>)
    returns (k: Kid)
    requires Placed(StoreOf(repr), path, Leaf, np.kids, null) && PathKids(path) == repr
    requires kp == ParentOf(path) && (path.Up? ==> side == path.side)
    modifies np`kids, repr`left, repr`right
    ensures fresh(k) && k.v == chunk && k.edge == null && np.kids != null
    ensures var n := Node(Red, Leaf, k, chunk, Leaf);
            Placed(StoreOf(repr + {k}), path, n, np.kids, k) && All(path, n) == repr + {k}
  {
    ghost var m := StoreOf(repr);
    k := new Kid(chunk, kp);
    if kp == null {
      np.kids := k;
    } else if side == L {
      kp.left := k;
    } else {
      kp.right := k;
    }
    Attach(m, StoreOf(repr + {k}), path, np.kids, k);
    Whereabouts(StoreOf(repr + {k}), path, Node(Red, Leaf, k, chunk, Leaf), np.kids, k);
  }

  method KidAttach(w: Variant, np: TrieNode, chunk: Chunk, kp: Kid?, side: Side,
                   ghost path: Path<Kid>, ghost repr: set<Kid>)
    returns (ok: bool, k: Kid, ghost t: Tree<Kid>)
    requires Placed(StoreOf(repr), path, Leaf, np.kids, null) && PathKids(path) == repr
    requires kp == ParentOf(path) && (path.Up? ==> side == path.side)
    modifies np`kids, repr`left, repr`right, repr`parent, repr`color
    ensures fresh(k) && k.v == chunk && k.edge == null
    ensures Fix(w, path, Node(Red, Leaf, k, chunk, Leaf)) == if ok then Done(t) else NullDeref
    ensures ok ==> TreeAt(repr + {k}, t, np.kids)
  {
    k := KidHang(np, chunk, kp, side, path, repr);
    ok, t := KidFixAt(w, np, k, path, Node(Red, Leaf, k, chunk, Leaf), repr + {k});
  }

  /** The fix-up, with the root kept by the node. */
  method KidFixAt(w: Variant, np: TrieNode, k: Kid, ghost path: Path<Kid>, ghost f: Tree<Kid>, ghost repr: set<Kid>)
    returns (ok: bool, ghost t: Tree<Kid>)
    requires np.kids != null && f.Node? && Placed(StoreOf(repr), path, f, np.kids, k) && All(path, f) == repr
    modifies np`kids, repr`left, repr`right, repr`parent, repr`color
    ensures Fix(w, path, f) == if ok then Done(t) else NullDeref
    ensures ok ==> TreeAt(repr, t, np.kids)
  {
    var root;
    ok, root, t := KidFix(w, np.kids, k, path, f, repr);
    np.kids := root;
  }

  /** kid_get_or_set: the links afterwards spell what `Insert` gives; `ok` is
      false when the fix-up read a missing grandparent. */
  method KidGetOrSet(w: Variant, np: TrieNode, chunk: Chunk, ghost t: Tree<Kid>, ghost repr: set<Kid>)
    returns (ok: bool, k: Kid, ghost t': Tree<Kid>)
    requires TreeAt(repr, t, np.kids)
    modifies np`kids, repr`left, repr`right, repr`parent, repr`color
    ensures Insert(w, t, chunk, k) == (if ok then Done(t') else NullDeref) && k.v == chunk
    ensures Descend(Top, t, chunk).1.Node? ==> k == Descend(Top, t, chunk).1.kid && k in repr
    ensures Descend(Top, t, chunk).1.Leaf? ==> fresh(k) && k.edge == null
    ensures ok ==> TreeAt(repr + {k}, t', np.kids)
    ensures !IsRed(t) ==> (ok <==> w.Reread? || !WalkFails(t, chunk))
  {
    ghost var path := Descend(Top, t, chunk).0;
    var found, kp, side := KidWalk(np, chunk, t, repr);
    if found {
      assert repr + {kp} == repr;
      return true, kp, t;
    }
    ok, k, t' := KidAttach(w, np, chunk, kp, side, path, repr);
    if !IsRed(t) {
      InsertFailsExact(w, t, chunk, k);
    }
  }

  /** The same among all nodes and kids of a set: no other field changes. */
  method KidGetOrSetWithin(w: Variant, np: TrieNode, chunk: Chunk, ghost t: Tree<Kid>, ghost level: set<Kid>,
                           ghost heads: map<TrieNode, Kid?>, ghost edges: map<Kid, TrieNode?>, ghost links: Store)
    returns (ok: bool, k: Kid, ghost t': Tree<Kid>, ghost links': Store)
    requires TreeAt(level, t, np.kids) && level <= links.Keys && edges.Keys == links.Keys
    requires HeadsMirrored(heads) && EdgesMirrored(edges) && LinksMirrored(links)
    modifies np`kids, level`left, level`right, level`parent, level`color
    ensures Insert(w, t, chunk, k) == (if ok then Done(t') else NullDeref) && k.v == chunk
    ensures Descend(Top, t, chunk).1.Node? ==> k == Descend(Top, t, chunk).1.kid && k in level
    ensures Descend(Top, t, chunk).1.Leaf? ==> fresh(k)
    ensures ok ==> TreeAt(level + {k}, t', np.kids)
    ensures links'.Keys == links.Keys + {k} && SameOn(links, links', links.Keys - level)
    ensures HeadsMirrored(heads[np := np.kids]) && LinksMirrored(links')
    ensures EdgesMirrored(if k in edges then edges else edges[k := null])
  {
    ok, k, t' := KidGetOrSet(w, np, chunk, t, level);
    links' := StoreOf(links.Keys + {k});
  }
}
