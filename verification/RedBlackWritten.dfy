/** When the fix-up as it is written restores the red-black rules. */
module RedBlackWritten {
  import opened RedBlack
  import opened RedBlackRules

  // ----- the loop as written ------------------------------------------------

  /** The fix-up climbs while the uncle is red, then stops at an inner grandchild. */
  predicate ReachesInner<K>(path: Path<K>, f: Tree<K>)
    requires f.Node?
    decreases PathLen(path)
  {
    if path.Top? || path.color.Black? || path.rest.Top? then false
    else if IsRed(path.rest.sib) then
      var (p, t) := FixStep(AsWritten, path, f);
      ReachesInner(p, t)
    else path.side != path.rest.side
  }

  /** The same question asked of the tree before an insert. */
  predicate InsertReachesInner<K>(t: Tree<K>, c: int, k: K) {
    var (p, f) := Descend(Top, t, c);
    f.Leaf? && ReachesInner(p, Node(Red, Leaf, k, c, Leaf))
  }

  predicate PathUnbalanced<K>(path: Path<K>) {
    path.Up? && (!Balanced(path.sib) || PathUnbalanced(path.rest))
  }

  /** Some subtree that the loop will never take apart is out of balance. */
  predicate Damaged<K>(path: Path<K>, f: Tree<K>)
    requires f.Node?
  {
    PathUnbalanced(path) || !Balanced(f.left) || !Balanced(f.right)
  }

  lemma {:induction false} PlugUnbalanced<K>(path: Path<K>, t: Tree<K>)
    requires PathUnbalanced(path) || !Balanced(t)
    ensures !Balanced(Plug(path, t))
    decreases path
  {
    match path
    case Top =>
    case Up(side, c, k, v, sib, rest) =>
      PlugUnbalanced(rest, Join(side, c, k, v, t, sib));
  }

  lemma BlackenShape<K>(t: Tree<K>)
    ensures Balanced(Blacken(t)) == Balanced(t)
  {
  }

  lemma StepKeepsDamage<K>(w: Variant, path: Path<K>, f: Tree<K>)
    requires f.Node? && path.Up? && path.rest.Up? && Damaged(path, f)
    ensures var (p, t) := FixStep(w, path, f); Damaged(p, t)
  {
    var g := path.rest;
    var (p, t) := FixStep(w, path, f);
    BlackenShape(g.sib);
    assert PathUnbalanced(path) <==> !Balanced(path.sib) || !Balanced(g.sib) || PathUnbalanced(g.rest);
    if IsRed(g.sib) {
      var up := Join(path.side, Black, path.kid, path.v, f, path.sib);
      assert Balanced(up) ==> Balanced(f) && Balanced(path.sib);
    } else {
      assert PathUnbalanced(p) <==> !Balanced(p.sib) || PathUnbalanced(g.rest);
      assert Balanced(p.sib) ==> Balanced(p.sib.left) && Balanced(p.sib.right);
    }
  }

  lemma {:induction false} DamageStays<K>(w: Variant, path: Path<K>, f: Tree<K>)
    requires f.Node? && Damaged(path, f) && Fix(w, path, f).Done?
    ensures !IsRB(Fix(w, path, f).tree)
    decreases PathLen(path)
  {
    if path.Top? || path.color.Black? {
      PlugUnbalanced(path, f);
      BlackenShape(Plug(path, f));
    } else {
      StepKeepsDamage(w, path, f);
      var (p, t) := FixStep(w, path, f);
      DamageStays(w, p, t);
    }
  }

  /** An inner rotation with the stale `parent` is never repaired: the loop goes
      on to read a missing grandparent, or ends with a broken tree. */
  lemma InnerBreaks<K>(path: Path<K>, f: Tree<K>)
    requires FixInv(path, f) && path.Up? && path.color.Red? && path.rest.Up?
    requires !IsRed(path.rest.sib) && path.side != path.rest.side
    ensures var r := Fix(AsWritten, path, f); r.Done? ==> !IsRB(r.tree)
  {
    var h := BlackHeight(f);
    assert PathOk(path.rest, h) && PathOk(path.rest.rest, h + 1);
    var (p, t) := FixStep(AsWritten, path, f);
    assert BlackHeight(t) == h + 1 && BlackHeight(p.sib) == h && IsRed(p.sib);
    var r, top := Fix(AsWritten, p, t), p.rest;
    assert Fix(AsWritten, path, f) == r;
    if r.Done? && top.Up? {
      BlackenShape(top.sib);
      var (p2, t2) := FixStep(AsWritten, p, t);
      assert r == Fix(AsWritten, p2, t2);
      if IsRed(top.sib) {
        var up := Join(p.side, Black, p.kid, p.v, t, p.sib);
        assert !Balanced(up);
        DamageStays(AsWritten, p2, t2);
      } else if p.side != top.side {
        assert BlackHeight(top.sib) == h + 1;
        assert !Balanced(p2.sib);
        DamageStays(AsWritten, p2, t2);
      } else {
        OuterLeavesRedRed(p, t);
      }
    }
  }

  lemma OuterLeavesRedRed<K>(p: Path<K>, t: Tree<K>)
    requires t.Node? && p.Up? && p.color.Red? && IsRed(p.sib)
    requires p.rest.Up? && p.side == p.rest.side && !IsRed(p.rest.sib)
    ensures var r := Fix(AsWritten, p, t); r.Done? ==> !IsRB(r.tree)
  {
    var (p2, t2) := FixStep(AsWritten, p, t);
    assert Fix(AsWritten, p, t) == Fix(AsWritten, p2, t2) == Done(Blacken(Plug(p2, t2)));
    assert !NoRedRed(p2.sib);
    RedRedBelowRoot(p2.rest, Join(p2.side, p2.color, p2.kid, p2.v, t2, p2.sib));
  }

  /** A red pair strictly below the root survives blackening the root. */
  lemma {:induction false} RedRedBelowRoot<K>(path: Path<K>, t: Tree<K>)
    requires t.Node? && (!NoRedRed(t.left) || !NoRedRed(t.right))
    ensures !NoRedRed(Blacken(Plug(path, t)))
    decreases path
  {
    match path
    case Top =>
    case Up(side, c, k, v, sib, rest) =>
      RedRedBelowRoot(rest, Join(side, c, k, v, t, sib));
  }

  /** The loop as written meets its purpose exactly when it never rotates at an
      inner grandchild; then it does what the other reading does. */
  lemma {:induction false} WrittenFixExact<K>(path: Path<K>, f: Tree<K>)
    requires FixInv(path, f)
    ensures var r := Fix(AsWritten, path, f);
            (r.Done? && IsRB(r.tree)) <==> !ReachesInner(path, f)
    ensures !ReachesInner(path, f) ==> Fix(AsWritten, path, f) == Fix(Reread, path, f)
    decreases PathLen(path)
  {
    if path.Top? || path.color.Black? {
      FixRestores(path, f);
    } else {
      StepKeepsInv(path, f);
      if IsRed(path.rest.sib) || path.side == path.rest.side {
        var (p, t) := FixStep(AsWritten, path, f);
        assert (p, t) == FixStep(Reread, path, f);
        WrittenFixExact(p, t);
      } else {
        InnerBreaks(path, f);
      }
    }
  }

  lemma WrittenInsertExact<K>(t: Tree<K>, c: int, k: K)
    requires IsRB(t)
    ensures var r := Insert(AsWritten, t, c, k);
            (r.Done? && IsRB(r.tree)) <==> !InsertReachesInner(t, c, k)
    ensures !InsertReachesInner(t, c, k) ==> Insert(AsWritten, t, c, k) == Insert(Reread, t, c, k)
  {
    var (p, f) := Descend(Top, t, c);
    DescendPlugs(Top, t, c);
    if f.Leaf? {
      UnplugRB(p, f);
      WrittenFixExact(p, Node(Red, Leaf, k, c, Leaf));
    }
  }

  // ----- when the loop as written fails -------------------------------------

  /** The root of the tree that the path leads into is black. */
  predicate RootBlack<K>(path: Path<K>) {
    path.Up? ==> if path.rest.Top? then path.color.Black? else RootBlack(path.rest)
  }

  /** With a focus of this color under a red parent on this side, and with `above` from the
      grandparent up: climbing past red uncles the loop comes to a red inner grandchild with a
      black uncle whose grandparent is the root. */
  predicate ComesToRoot<K>(focus: Color, side: Side, above: Path<K>)
    decreases above
  {
    && above.Up?
    && if IsRed(above.sib) then
         above.rest.Up? && above.rest.color.Red? && ComesToRoot(Red, above.rest.side, above.rest.rest)
       else
         side != above.side && focus.Red? && (above.rest.Top? || ComesToRoot(Black, above.side, above.rest))
  }

  /** In a tree with a black root the loop reads a missing grandparent exactly when, as written,
      it rotates at an inner grandchild right below the root. */
  lemma {:induction false} FixFailsExact<K>(w: Variant, path: Path<K>, f: Tree<K>)
    requires f.Node? && RootBlack(path)
    ensures Fix(w, path, f).NullDeref?
       <==> w.AsWritten? && path.Up? && path.color.Red? && ComesToRoot(f.color, path.side, path.rest)
    decreases PathLen(path)
  {
    if path.Up? && path.color.Red? {
      var g := path.rest;
      var (p, t) := FixStep(w, path, f);
      assert Fix(w, path, f) == Fix(w, p, t);
      if RootBlack(p) {
        FixFailsExact(w, p, t);
      }
    }
  }

  /** The walk for a new chunk ends where the fix-up as written will fail. */
  predicate WalkFails<K>(t: Tree<K>, c: int) {
    var (p, f) := Descend(Top, t, c);
    f.Leaf? && p.Up? && p.color.Red? && ComesToRoot(Red, p.side, p.rest)
  }

  lemma {:induction false} DescendRootBlack<K>(path: Path<K>, t: Tree<K>, c: int)
    requires RootBlack(path) && (path.Top? ==> !IsRed(t))
    ensures RootBlack(Descend(path, t, c).0)
    decreases t
  {
    if t.Node? && c != t.v {
      var side := if c < t.v then L else R;
      DescendRootBlack(Up(side, t.color, t.kid, t.v, Child(t, Other(side)), path), Child(t, side), c);
    }
  }

  lemma {:induction false} FixBlackens<K>(w: Variant, path: Path<K>, f: Tree<K>)
    requires f.Node? && Fix(w, path, f).Done?
    ensures !IsRed(Fix(w, path, f).tree)
    decreases PathLen(path)
  {
    if path.Up? && path.color.Red? {
      var (p, t) := FixStep(w, path, f);
      FixBlackens(w, p, t);
    }
  }

  /** An insert into any tree with a black root, red-black or not, fails exactly in the written
      reading and exactly there; otherwise it leaves such a tree again. */
  lemma InsertFailsExact<K>(w: Variant, t: Tree<K>, c: int, k: K)
    requires !IsRed(t)
    ensures Insert(w, t, c, k).NullDeref? <==> w.AsWritten? && WalkFails(t, c)
    ensures Insert(w, t, c, k).Done? ==> !IsRed(Insert(w, t, c, k).tree)
  {
    var (p, f) := Descend(Top, t, c);
    DescendRootBlack(Top, t, c);
    if f.Leaf? {
      var n := Node(Red, Leaf, k, c, Leaf);
      FixFailsExact(w, p, n);
      if Fix(w, p, n).Done? {
        FixBlackens(w, p, n);
      }
    }
  }
}
