/** The red-black rules, and that the fix-up with `parent` read again restores them. */
module RedBlackRules {
  import opened RedBlack

  // ----- the red-black rules ------------------------------------------------

  function BlackHeight<K>(t: Tree<K>): nat {
    match t
    case Leaf => 0
    case Node(c, l, _, _, _) => BlackHeight(l) + if c.Black? then 1 else 0
  }

  /** Every path from the root to an empty place passes the same number of black kids. */
  predicate Balanced<K>(t: Tree<K>) {
    t.Node? ==> BlackHeight(t.left) == BlackHeight(t.right) && Balanced(t.left) && Balanced(t.right)
  }

  predicate NoRedRed<K>(t: Tree<K>) {
    t.Node? ==>
      && (t.color.Red? ==> !IsRed(t.left) && !IsRed(t.right))
      && NoRedRed(t.left) && NoRedRed(t.right)
  }

  predicate IsRB<K>(t: Tree<K>) {
    !IsRed(t) && NoRedRed(t) && Balanced(t)
  }

  /** Any black-rooted tree of black height `h` may stand at the end of the path. */
  predicate PathOk<K>(path: Path<K>, h: nat) {
    match path
    case Top => true
    case Up(_, c, _, _, sib, rest) =>
      && NoRedRed(sib) && Balanced(sib) && BlackHeight(sib) == h
      && (c.Red? ==> !IsRed(sib) && rest.Up? && rest.color.Black?)
      && PathOk(rest, if c.Black? then h + 1 else h)
  }

  /** The only rule broken, if any, is between the red focus and its parent. */
  predicate FixInv<K>(path: Path<K>, f: Tree<K>) {
    IsRed(f) && NoRedRed(f) && Balanced(f) && PathOk(path, BlackHeight(f))
  }

  lemma {:induction false} PlugRB<K>(path: Path<K>, t: Tree<K>)
    requires NoRedRed(t) && Balanced(t) && PathOk(path, BlackHeight(t))
    requires IsRed(t) ==> path.Top? || path.color.Black?
    ensures NoRedRed(Plug(path, t)) && Balanced(Plug(path, t))
    ensures path.Up? ==> !IsRed(Plug(path, t))
    decreases path
  {
    match path
    case Top =>
    case Up(side, c, k, v, sib, rest) =>
      PlugRB(rest, Join(side, c, k, v, t, sib));
  }

  /** A path into a red-black tree is a good one. */
  lemma {:induction false} UnplugRB<K>(path: Path<K>, t: Tree<K>)
    requires IsRB(Plug(path, t))
    ensures NoRedRed(t) && Balanced(t) && PathOk(path, BlackHeight(t))
    ensures IsRed(t) ==> path.Up? && path.color.Black?
    decreases path
  {
    match path
    case Top =>
    case Up(side, c, k, v, sib, rest) =>
      UnplugRB(rest, Join(side, c, k, v, t, sib));
  }

  /** While the parent is red the grandparent exists and is black, and one turn
      with `parent` read again either moves the violation two levels up or
      leaves a black parent, which ends the loop. */
  lemma StepKeepsInv<K>(path: Path<K>, f: Tree<K>)
    requires FixInv(path, f) && path.Up? && path.color.Red?
    ensures path.rest.Up? && path.rest.color.Black?
    ensures var (p, t) := FixStep(Reread, path, f);
            && FixInv(p, t)
            && (PathLen(p) == PathLen(path) - 2 || (p.Up? && p.color.Black?))
  {
    var g, h := path.rest, BlackHeight(f);
    assert PathOk(g, h) && PathOk(g.rest, h + 1);
    assert PathLen(path) == 2 + PathLen(g.rest);
    var (p, t) := FixStep(Reread, path, f);
    if IsRed(g.sib) {
      var up := Join(path.side, Black, path.kid, path.v, f, path.sib);
      assert NoRedRed(up) && Balanced(up) && BlackHeight(up) == h + 1;
      assert NoRedRed(Blacken(g.sib)) && Balanced(Blacken(g.sib)) && BlackHeight(Blacken(g.sib)) == h + 1;
    } else {
      assert NoRedRed(p.sib) && Balanced(p.sib) && BlackHeight(p.sib) == h;
      assert p.rest == g.rest;
    }
  }

  lemma {:induction false} FixRestores<K>(path: Path<K>, f: Tree<K>)
    requires FixInv(path, f)
    ensures Fix(Reread, path, f).Done? && IsRB(Fix(Reread, path, f).tree)
    decreases PathLen(path)
  {
    if path.Top? || path.color.Black? {
      PlugRB(path, f);
    } else {
      StepKeepsInv(path, f);
      var (p, t) := FixStep(Reread, path, f);
      FixRestores(p, t);
    }
  }

  /** With `parent` read again, an insert into a red-black search tree never
      fails and gives a red-black search tree. */
  lemma InsertKeepsRB<K>(t: Tree<K>, c: int, k: K)
    requires IsRB(t)
    ensures Insert(Reread, t, c, k).Done? && IsRB(Insert(Reread, t, c, k).tree)
  {
    var (p, f) := Descend(Top, t, c);
    DescendPlugs(Top, t, c);
    if f.Leaf? {
      UnplugRB(p, f);
      FixRestores(p, Node(Red, Leaf, k, c, Leaf));
    }
  }
}
