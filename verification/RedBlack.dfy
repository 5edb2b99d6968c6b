/** The red-black trees that hold the kids of one trie node, as values.

    A tree is cut at the kid the fix-up loop is looking at: the focus is the
    subtree at `p`, and the path lists the ancestors of `p` from its parent up,
    each with the subtree on its other side.  One turn of the loop is `FixStep`.
    Everything is stated for both readings of the loop: `AsWritten`, where
    `parent` keeps its old value across the inner rotation, and `Reread`, where
    it is read again as the parent of the new `p`. */
module RedBlack {
  datatype Color = Red | Black

  datatype Side = L | R

  datatype Variant = AsWritten | Reread

  datatype Tree<+K> = Leaf | Node(color: Color, left: Tree<K>, kid: K, v: int, right: Tree<K>)

  datatype Path<+K> =
    | Top
    | Up(side: Side, color: Color, kid: K, v: int, sib: Tree<K>, rest: Path<K>)

  /** `NullDeref` is the loop reading a field of a grandparent that does not exist. */
  datatype Outcome<+K> = Done(tree: Tree<K>) | NullDeref

  function Join<K>(side: Side, c: Color, k: K, v: int, t: Tree<K>, sib: Tree<K>): Tree<K> {
    if side.L? then Node(c, t, k, v, sib) else Node(c, sib, k, v, t)
  }

  function Child<K>(t: Tree<K>, side: Side): Tree<K>
    requires t.Node?
  {
    if side.L? then t.left else t.right
  }

  function Other(side: Side): Side {
    if side.L? then R else L
  }

  function Plug<K>(path: Path<K>, t: Tree<K>): Tree<K>
    decreases path
  {
    match path
    case Top => t
    case Up(side, c, k, v, sib, rest) => Plug(rest, Join(side, c, k, v, t, sib))
  }

  function PathLen<K>(path: Path<K>): nat {
    match path
    case Top => 0
    case Up(_, _, _, _, _, rest) => 1 + PathLen(rest)
  }

  predicate IsRed<K>(t: Tree<K>) {
    t.Node? && t.color.Red?
  }

  function Blacken<K>(t: Tree<K>): Tree<K> {
    if t.Leaf? then t else t.(color := Black)
  }

  // ----- the search order ---------------------------------------------------

  function InOrder<K>(t: Tree<K>): seq<(K, int)> {
    match t
    case Leaf => []
    case Node(_, l, k, v, r) => InOrder(l) + [(k, v)] + InOrder(r)
  }

  /** What comes before, and after, the focus in the in-order sequence. */
  function Before<K>(path: Path<K>): seq<(K, int)> {
    match path
    case Top => []
    case Up(side, _, k, v, sib, rest) =>
      if side.L? then Before(rest) else Before(rest) + InOrder(sib) + [(k, v)]
  }

  function After<K>(path: Path<K>): seq<(K, int)> {
    match path
    case Top => []
    case Up(side, _, k, v, sib, rest) =>
      if side.L? then [(k, v)] + InOrder(sib) + After(rest) else After(rest)
  }

  predicate Sorted<K>(s: seq<(K, int)>) {
    forall i, j :: 0 <= i < j < |s| ==> s[i].1 < s[j].1
  }

  predicate AllBelow<K>(s: seq<(K, int)>, c: int) {
    forall i :: 0 <= i < |s| ==> s[i].1 < c
  }

  predicate AllAbove<K>(s: seq<(K, int)>, c: int) {
    forall i :: 0 <= i < |s| ==> c < s[i].1
  }

  predicate HasKey<K>(s: seq<(K, int)>, c: int) {
    exists i :: 0 <= i < |s| && s[i].1 == c
  }

  lemma Regroup<T>(b: seq<T>, x: seq<T>, y: seq<T>, z: seq<T>, e: seq<T>)
    ensures b + (x + y + z) + e == b + x + (y + z + e)
    ensures b + (x + y + z) + e == (b + x + y) + z + e
  {
  }

  lemma {:induction false} InOrderPlug<K>(path: Path<K>, t: Tree<K>)
    ensures InOrder(Plug(path, t)) == Before(path) + InOrder(t) + After(path)
    decreases path
  {
    match path
    case Top =>
    case Up(side, c, k, v, sib, rest) =>
      InOrderPlug(rest, Join(side, c, k, v, t, sib));
      if side.L? {
        Regroup(Before(rest), InOrder(t), [(k, v)], InOrder(sib), After(rest));
      } else {
        Regroup(Before(rest), InOrder(sib), [(k, v)], InOrder(t), After(rest));
      }
  }

  /** The walk of kid_find and kid_get_or_set: down to the kid with chunk `c`,
      or to the empty place where it belongs. */
  function Descend<K>(path: Path<K>, t: Tree<K>, c: int): (Path<K>, Tree<K>)
    decreases t
  {
    match t
    case Leaf => (path, t)
    case Node(color, l, k, v, r) =>
      if c < v then Descend(Up(L, color, k, v, r, path), l, c)
      else if c > v then Descend(Up(R, color, k, v, l, path), r, c)
      else (path, t)
  }

  lemma {:induction false} DescendPlugs<K>(path: Path<K>, t: Tree<K>, c: int)
    ensures Plug(Descend(path, t, c).0, Descend(path, t, c).1) == Plug(path, t)
    decreases t
  {
    match t
    case Leaf =>
    case Node(color, l, k, v, r) =>
      if c < v {
        DescendPlugs(Up(L, color, k, v, r, path), l, c);
      } else if c > v {
        DescendPlugs(Up(R, color, k, v, l, path), r, c);
      }
  }

  /** Around a kid of a search tree, its left keys are smaller and its right keys larger. */
  lemma NodeSplits<K>(path: Path<K>, t: Tree<K>)
    requires t.Node? && Sorted(InOrder(Plug(path, t)))
    ensures AllBelow(InOrder(t.left), t.v) && AllAbove(InOrder(t.right), t.v)
  {
    InOrderPlug(path, t);
    SplitsAt(Before(path), InOrder(t.left), (t.kid, t.v), InOrder(t.right), After(path));
  }

  lemma SplitsAt<K>(b: seq<(K, int)>, l: seq<(K, int)>, x: (K, int), r: seq<(K, int)>, e: seq<(K, int)>)
    requires Sorted(b + (l + [x] + r) + e)
    ensures AllBelow(l, x.1) && AllAbove(r, x.1)
  {
    var s, m := b + (l + [x] + r) + e, |b| + |l|;
    assert s[m] == x;
    assert forall i :: 0 <= i < |l| ==> s[|b| + i] == l[i];
    assert forall i :: 0 <= i < |r| ==> s[m + 1 + i] == r[i];
  }

  /** In a search tree the walk splits the keys at `c`. */
  lemma {:induction false} DescendSplits<K>(path: Path<K>, t: Tree<K>, c: int)
    requires Sorted(InOrder(Plug(path, t)))
    requires AllBelow(Before(path), c) && AllAbove(After(path), c)
    ensures var (p, f) := Descend(path, t, c);
            AllBelow(Before(p), c) && AllAbove(After(p), c) && (f.Node? ==> f.v == c)
    decreases t
  {
    if t.Node? && c != t.v {
      NodeSplits(path, t);
      var side := if c < t.v then L else R;
      var p := Up(side, t.color, t.kid, t.v, Child(t, Other(side)), path);
      assert Plug(p, Child(t, side)) == Plug(path, t);
      assert AllBelow(Before(p), c) && AllAbove(After(p), c);
      DescendSplits(p, Child(t, side), c);
    }
  }

  /** kid_find is right: the walk ends at a kid exactly when the chunk is there. */
  lemma FindExact<K>(t: Tree<K>, c: int)
    requires Sorted(InOrder(t))
    ensures Descend(Top, t, c).1.Node? <==> HasKey(InOrder(t), c)
    ensures Descend(Top, t, c).1.Node? ==> (Descend(Top, t, c).1.kid, c) in InOrder(t)
  {
    var (p, f) := Descend(Top, t, c);
    DescendPlugs(Top, t, c);
    DescendSplits(Top, t, c);
    InOrderPlug(p, f);
    if f.Node? {
      KeyHere(Before(p), InOrder(f.left), (f.kid, c), InOrder(f.right), After(p));
    } else {
      KeyNowhere(Before(p), After(p), c);
      assert InOrder(t) == Before(p) + After(p);
    }
  }

  lemma KeyHere<K>(b: seq<(K, int)>, l: seq<(K, int)>, x: (K, int), r: seq<(K, int)>, e: seq<(K, int)>)
    ensures var s := b + (l + [x] + r) + e; x in s && HasKey(s, x.1)
  {
    var s := b + (l + [x] + r) + e;
    assert s[|b| + |l|] == x;
  }

  lemma KeyNowhere<K>(b: seq<(K, int)>, e: seq<(K, int)>, c: int)
    requires AllBelow(b, c) && AllAbove(e, c)
    ensures !HasKey(b + e, c)
  {
    var s := b + e;
    forall i | 0 <= i < |s| ensures s[i].1 != c {
      assert s[i] == if i < |b| then b[i] else e[i - |b|];
    }
  }

  // ----- the fix-up loop ----------------------------------------------------

  /** One turn of the loop, with a red parent that has a parent of its own. */
  function FixStep<K>(w: Variant, path: Path<K>, f: Tree<K>): (next: (Path<K>, Tree<K>))
    requires f.Node? && path.Up? && path.rest.Up?
    ensures next.1.Node? && PathLen(next.0) < PathLen(path)
  {
    assert PathLen(path) == 2 + PathLen(path.rest.rest);
    var g := path.rest;
    if IsRed(g.sib) then
      (g.rest, Join(g.side, Red, g.kid, g.v,
                    Join(path.side, Black, path.kid, path.v, f, path.sib), Blacken(g.sib)))
    else if path.side != g.side then
      // Rotate at the parent, then recolor `parent` and the grandparent, then
      // rotate at the grandparent.  Which kid `parent` names is what differs.
      var (oldParent, newParent) := if w.Reread? then (path.color, Black) else (Black, f.color);
      (Up(g.side, newParent, f.kid, f.v,
          Join(g.side, Red, g.kid, g.v, Child(f, Other(g.side)), g.sib), g.rest),
       Join(path.side, oldParent, path.kid, path.v, Child(f, g.side), path.sib))
    else
      (Up(g.side, Black, path.kid, path.v,
          Join(g.side, Red, g.kid, g.v, path.sib, g.sib), g.rest), f)
  }

  /** The whole loop and the blackening of the root after it. */
  function Fix<K>(w: Variant, path: Path<K>, f: Tree<K>): Outcome<K>
    requires f.Node?
    decreases PathLen(path)
  {
    if path.Top? || path.color.Black? then Done(Blacken(Plug(path, f)))
    else if path.rest.Top? then NullDeref
    else
      var (p, t) := FixStep(w, path, f);
      Fix(w, p, t)
  }

  /** kid_get_or_set, with `k` the kid that is allocated when the chunk is new. */
  function Insert<K>(w: Variant, t: Tree<K>, c: int, k: K): Outcome<K> {
    var (p, f) := Descend(Top, t, c);
    if f.Node? then Done(t) else Fix(w, p, Node(Red, Leaf, k, c, Leaf))
  }

  lemma BlackenKeeps<K>(t: Tree<K>)
    ensures InOrder(Blacken(t)) == InOrder(t)
  {
  }

  function RotateLeft<K>(t: Tree<K>): Tree<K>
    requires t.Node? && t.right.Node?
  {
    t.right.(left := t.(right := t.right.left))
  }

  function RotateRight<K>(t: Tree<K>): Tree<K>
    requires t.Node? && t.left.Node?
  {
    t.left.(right := t.(left := t.left.right))
  }

  function Rotate<K>(side: Side, t: Tree<K>): Tree<K>
    requires t.Node? && Child(t, Other(side)).Node?
  {
    if side.L? then RotateLeft(t) else RotateRight(t)
  }

  lemma RotateKeepsInOrder<K>(side: Side, t: Tree<K>)
    requires t.Node? && Child(t, Other(side)).Node?
    ensures InOrder(Rotate(side, t)) == InOrder(t)
  {
    if side.L? {
      var a, b, c := InOrder(t.left), InOrder(t.right.left), InOrder(t.right.right);
      var x, y := [(t.kid, t.v)], [(t.right.kid, t.right.v)];
      assert (a + x + b) + y + c == a + x + (b + y + c);
    } else {
      var a, b, c := InOrder(t.left.left), InOrder(t.left.right), InOrder(t.right);
      var x, y := [(t.left.kid, t.left.v)], [(t.kid, t.v)];
      assert (a + x + b) + y + c == a + x + (b + y + c);
    }
  }

  lemma JoinInOrder<K>(side: Side, c: Color, d: Color, k: K, v: int, t: Tree<K>, u: Tree<K>,
                       sib: Tree<K>, sib': Tree<K>)
    requires InOrder(t) == InOrder(u) && InOrder(sib) == InOrder(sib')
    ensures InOrder(Join(side, c, k, v, t, sib)) == InOrder(Join(side, d, k, v, u, sib'))
  {
  }

  /** One turn is at most two rotations and some recoloring, below the grandparent. */
  lemma StepKeepsInOrder<K>(w: Variant, path: Path<K>, f: Tree<K>)
    requires f.Node? && path.Up? && path.rest.Up?
    ensures var (p, t) := FixStep(w, path, f);
            InOrder(Plug(p, t)) == InOrder(Plug(path, f))
  {
    var g := path.rest;
    var (p, t) := FixStep(w, path, f);
    var parent := Join(path.side, path.color, path.kid, path.v, f, path.sib);
    var was := Join(g.side, g.color, g.kid, g.v, parent, g.sib);
    assert Plug(path, f) == Plug(g.rest, was);
    InOrderPlug(g.rest, was);
    if IsRed(g.sib) {
      var black := Join(path.side, Black, path.kid, path.v, f, path.sib);
      JoinInOrder(path.side, path.color, Black, path.kid, path.v, f, f, path.sib, path.sib);
      BlackenKeeps(g.sib);
      JoinInOrder(g.side, g.color, Red, g.kid, g.v, parent, black, g.sib, Blacken(g.sib));
      InOrderPlug(g.rest, t);
    } else {
      var top := Join(p.side, p.color, p.kid, p.v, t, p.sib);
      assert Plug(p, t) == Plug(g.rest, top);
      InOrderPlug(g.rest, top);
      var mid := if path.side == g.side then parent else Rotate(g.side, parent);
      if path.side != g.side {
        RotateKeepsInOrder(g.side, parent);
      }
      var upper := Join(g.side, g.color, g.kid, g.v, mid, g.sib);
      JoinInOrder(g.side, g.color, g.color, g.kid, g.v, parent, mid, g.sib, g.sib);
      RotateKeepsInOrder(Other(g.side), upper);
      var turned := Rotate(Other(g.side), upper);
      SameButColors(top, turned, g.side);
    }
  }

  lemma SameButColors<K>(t: Tree<K>, u: Tree<K>, side: Side)
    requires t.Node? && u.Node? && t.kid == u.kid && t.v == u.v
    requires var a, b := Child(t, side), Child(u, side);
             a == b || (a.Node? && b.Node? && a == b.(color := a.color))
    requires var a, b := Child(t, Other(side)), Child(u, Other(side));
             a.Node? && b.Node? && a == b.(color := a.color)
    ensures InOrder(t) == InOrder(u)
  {
  }

  /** No rotation and no recoloring changes the in-order sequence of kids, in
      either reading of the loop. */
  lemma {:induction false} FixKeepsInOrder<K>(w: Variant, path: Path<K>, f: Tree<K>)
    requires f.Node? && Fix(w, path, f).Done?
    ensures InOrder(Fix(w, path, f).tree) == InOrder(Plug(path, f))
    decreases PathLen(path)
  {
    if path.Top? || path.color.Black? {
      BlackenKeeps(Plug(path, f));
    } else {
      var (p, t) := FixStep(w, path, f);
      StepKeepsInOrder(w, path, f);
      FixKeepsInOrder(w, p, t);
    }
  }

  lemma SortedWithNew<K>(b: seq<(K, int)>, e: seq<(K, int)>, c: int, k: K)
    requires Sorted(b + e) && AllBelow(b, c) && AllAbove(e, c)
    ensures Sorted(b + [(k, c)] + e)
  {
    var s, r := b + e, b + [(k, c)] + e;
    forall i, j | 0 <= i < j < |r| ensures r[i].1 < r[j].1 {
      assert i < |b| ==> r[i] == s[i];
      assert i > |b| ==> r[i] == s[i - 1];
      assert j < |b| ==> r[j] == s[j];
      assert j > |b| ==> r[j] == s[j - 1];
    }
  }

  /** An insert puts the new kid in its place and moves nothing else. */
  lemma InsertInOrder<K>(w: Variant, t: Tree<K>, c: int, k: K)
    requires Sorted(InOrder(t)) && Insert(w, t, c, k).Done?
    ensures Sorted(InOrder(Insert(w, t, c, k).tree))
    ensures HasKey(InOrder(t), c) ==> Insert(w, t, c, k).tree == t
    ensures !HasKey(InOrder(t), c) ==>
              exists b, e :: InOrder(t) == b + e && InOrder(Insert(w, t, c, k).tree) == b + [(k, c)] + e
  {
    var (p, f) := Descend(Top, t, c);
    FindExact(t, c);
    if f.Leaf? {
      var n := Node(Red, Leaf, k, c, Leaf);
      DescendPlugs(Top, t, c);
      DescendSplits(Top, t, c);
      InOrderPlug(p, f);
      InOrderPlug(p, n);
      FixKeepsInOrder(w, p, n);
      assert InOrder(t) == Before(p) + After(p) && InOrder(n) == [(k, c)];
      SortedWithNew(Before(p), After(p), c, k);
    }
  }
}
