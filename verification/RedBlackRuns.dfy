/** What the red-black rules give: short walks, and whole runs of inserts. */
module RedBlackRuns {
  import opened Bits
  import opened RedBlack
  import opened RedBlackRules
  import opened RedBlackWritten

  // ----- height -------------------------------------------------------------

  lemma {:induction false} BlackHeightBelowSize<K>(t: Tree<K>)
    requires Balanced(t)
    ensures Pow2(BlackHeight(t)) <= |InOrder(t)| + 1
  {
    if t.Node? {
      BlackHeightBelowSize(t.left);
      BlackHeightBelowSize(t.right);
    }
  }

  /** A walk meets at most one red kid between two black ones. */
  lemma {:induction false} WalkBelowBlackHeight<K>(path: Path<K>, t: Tree<K>, c: int)
    requires Balanced(t) && NoRedRed(t)
    ensures PathLen(Descend(path, t, c).0) - PathLen(path)
            <= 2 * BlackHeight(t) + if IsRed(t) then 1 else 0
    decreases t
  {
    if t.Node? && c != t.v {
      var side := if c < t.v then L else R;
      WalkBelowBlackHeight(Up(side, t.color, t.kid, t.v, Child(t, Other(side)), path), Child(t, side), c);
    }
  }

  /** The walk for any chunk passes at most 2 * log2(n + 1) of the n kids. */
  lemma WalkIsLogarithmic<K>(t: Tree<K>, c: int)
    requires IsRB(t)
    ensures var steps := PathLen(Descend(Top, t, c).0);
            Pow2((steps + 1) / 2) <= |InOrder(t)| + 1
  {
    WalkBelowBlackHeight(Top, t, c);
    BlackHeightBelowSize(t);
    Pow2Grows((PathLen(Descend(Top, t, c).0) + 1) / 2, BlackHeight(t));
  }

  // ----- runs of inserts ----------------------------------------------------

  /** Inserts, one after the other, each with the kid to allocate for it. */
  function InsertAll<K>(w: Variant, t: Tree<K>, s: seq<(K, int)>): Outcome<K>
    decreases |s|
  {
    if s == [] then Done(t)
    else
      var r := Insert(w, t, s[0].1, s[0].0);
      if r.NullDeref? then r else InsertAll(w, r.tree, s[1..])
  }

  lemma InsertKeys<K>(w: Variant, t: Tree<K>, c: int, k: K, x: int)
    requires Sorted(InOrder(t)) && Insert(w, t, c, k).Done?
    ensures HasKey(InOrder(Insert(w, t, c, k).tree), x) <==> HasKey(InOrder(t), x) || x == c
  {
    InsertInOrder(w, t, c, k);
    if !HasKey(InOrder(t), c) {
      var b, e :| InOrder(t) == b + e && InOrder(Insert(w, t, c, k).tree) == b + [(k, c)] + e;
      HasKeyConcat(b, e, x);
      HasKeyConcat(b, [(k, c)], x);
      HasKeyConcat(b + [(k, c)], e, x);
      assert HasKey([(k, c)], x) <==> x == c by {
        assert [(k, c)][0].1 == c;
      }
    }
  }

  lemma HasKeyConcat<K>(a: seq<(K, int)>, b: seq<(K, int)>, x: int)
    ensures HasKey(a + b, x) <==> HasKey(a, x) || HasKey(b, x)
  {
    var s := a + b;
    assert forall i :: 0 <= i < |a| ==> s[i] == a[i];
    assert forall i :: 0 <= i < |b| ==> s[|a| + i] == b[i];
    assert forall i :: |a| <= i < |s| ==> s[i] == b[i - |a|];
  }

  lemma HasKeyCons<K>(s: seq<(K, int)>, x: int)
    requires s != []
    ensures HasKey(s, x) <==> s[0].1 == x || HasKey(s[1..], x)
  {
    if i :| 0 <= i < |s| && s[i].1 == x {
      assert i > 0 ==> s[1..][i - 1] == s[i];
    }
    assert forall i :: 0 <= i < |s[1..]| ==> s[1..][i] == s[i + 1];
  }

  /** Whenever a run of inserts does not fail, its keys are those of the tree
      it started from and those inserted, in either reading of the loop. */
  lemma {:induction false} RunKeys<K>(w: Variant, t: Tree<K>, s: seq<(K, int)>, x: int)
    requires Sorted(InOrder(t)) && InsertAll(w, t, s).Done?
    ensures var r := InOrder(InsertAll(w, t, s).tree);
            Sorted(r) && (HasKey(r, x) <==> HasKey(InOrder(t), x) || HasKey(s, x))
    decreases |s|
  {
    if s != [] {
      var t' := Insert(w, t, s[0].1, s[0].0).tree;
      InsertInOrder(w, t, s[0].1, s[0].0);
      InsertKeys(w, t, s[0].1, s[0].0, x);
      RunKeys(w, t', s[1..], x);
      HasKeyCons(s, x);
    }
  }

  /** With `parent` read again, every run of inserts succeeds and every tree on
      the way is red-black. */
  lemma {:induction false} RunKeepsRB<K>(t: Tree<K>, s: seq<(K, int)>)
    requires IsRB(t)
    ensures InsertAll(Reread, t, s).Done? && IsRB(InsertAll(Reread, t, s).tree)
    decreases |s|
  {
    if s != [] {
      InsertKeepsRB(t, s[0].1, s[0].0);
      RunKeepsRB(Insert(Reread, t, s[0].1, s[0].0).tree, s[1..]);
    }
  }

  /** Every insert of the run, as written, leaves a red-black tree. */
  predicate WrittenRunGood<K>(t: Tree<K>, s: seq<(K, int)>)
    decreases |s|
  {
    s != [] ==>
      var r := Insert(AsWritten, t, s[0].1, s[0].0);
      r.Done? && IsRB(r.tree) && WrittenRunGood(r.tree, s[1..])
  }

  /** No insert of the run rotates at an inner grandchild. */
  predicate RunNeverInner<K>(t: Tree<K>, s: seq<(K, int)>)
    requires IsRB(t)
    decreases |s|
  {
    s != [] ==>
      && !InsertReachesInner(t, s[0].1, s[0].0)
      && (InsertKeepsRB(t, s[0].1, s[0].0);
          RunNeverInner(Insert(Reread, t, s[0].1, s[0].0).tree, s[1..]))
  }

  lemma {:induction false} WrittenRunExact<K>(t: Tree<K>, s: seq<(K, int)>)
    requires IsRB(t)
    ensures WrittenRunGood(t, s) <==> RunNeverInner(t, s)
    decreases |s|
  {
    if s != [] {
      WrittenInsertExact(t, s[0].1, s[0].0);
      InsertKeepsRB(t, s[0].1, s[0].0);
      if !InsertReachesInner(t, s[0].1, s[0].0) {
        WrittenRunExact(Insert(Reread, t, s[0].1, s[0].0).tree, s[1..]);
      }
    }
  }

  /** The first `n` inserts succeed, and the next one fails. */
  predicate FailsAt<K>(t: Tree<K>, s: seq<(K, int)>, n: nat)
    requires n < |s|
  {
    var r := InsertAll(AsWritten, t, s[..n]);
    r.Done? && WalkFails(r.tree, s[n].1)
  }

  /** A run of inserts into a tree with a black root fails exactly in the written reading and
      exactly when some walk of it ends where the fix-up fails. */
  lemma {:induction false} RunFailsExact<K>(w: Variant, t: Tree<K>, s: seq<(K, int)>)
    requires !IsRed(t)
    ensures InsertAll(w, t, s).NullDeref? <==> w.AsWritten? && exists n: nat :: n < |s| && FailsAt(t, s, n)
    decreases |s|
  {
    if s != [] {
      InsertFailsExact(w, t, s[0].1, s[0].0);
      if Insert(w, t, s[0].1, s[0].0).NullDeref? {
        assert FailsAt(t, s, 0);
      } else {
        var t' := Insert(w, t, s[0].1, s[0].0).tree;
        RunFailsExact(w, t', s[1..]);
        if w.AsWritten? {
          FailsLater(t, s);
        }
      }
    }
  }

  lemma FailsLater<K>(t: Tree<K>, s: seq<(K, int)>)
    requires s != [] && Insert(AsWritten, t, s[0].1, s[0].0).Done? && !WalkFails(t, s[0].1)
    ensures var t' := Insert(AsWritten, t, s[0].1, s[0].0).tree;
            (exists n: nat :: n < |s| && FailsAt(t, s, n)) <==> exists n: nat :: n < |s[1..]| && FailsAt(t', s[1..], n)
  {
    var t' := Insert(AsWritten, t, s[0].1, s[0].0).tree;
    forall n: nat | n < |s[1..]| ensures FailsAt(t, s, n + 1) <==> FailsAt(t', s[1..], n) {
      assert s[..n + 1][1..] == s[1..][..n] && s[..n + 1][0] == s[0] && s[n + 1] == s[1..][n];
    }
    if n: nat :| n < |s| && FailsAt(t, s, n) {
      assert n > 0 && FailsAt(t', s[1..], n - 1);
    }
    if n: nat :| n < |s[1..]| && FailsAt(t', s[1..], n) {
      assert FailsAt(t, s, n + 1);
    }
  }

  /** Three chunks are enough: after 3 and 1, adding 2 reads a missing grandparent. */
  lemma StaleParentFails()
    ensures InsertAll(AsWritten, Leaf, [((), 3), ((), 1), ((), 2)]) == NullDeref
    ensures InsertAll(Reread, Leaf, [((), 3), ((), 1), ((), 2)])
         == Done(Node(Black, Node(Red, Leaf, (), 1, Leaf), (), 2, Node(Red, Leaf, (), 3, Leaf)))
  {
    forall w: Variant
      ensures InsertAll(w, Leaf, [((), 3), ((), 1), ((), 2)])
           == if w.AsWritten? then NullDeref
              else Done(Node(Black, Node(Red, Leaf, (), 1, Leaf), (), 2, Node(Red, Leaf, (), 3, Leaf)))
    {
      var t3 := Node(Black, Leaf, (), 3, Leaf);
      assert Insert(w, Leaf, 3, ()) == Done(t3);
      var t1 := Node(Black, Node(Red, Leaf, (), 1, Leaf), (), 3, Leaf);
      assert Insert(w, t3, 1, ()) == Done(t1);
      var p := Up(R, Red, (), 1, Leaf, Up(L, Black, (), 3, Leaf, Top));
      var f := Node(Red, Leaf, (), 2, Leaf);
      assert Descend(Top, t1, 2) == (p, Leaf);
      var (p2, f2) := FixStep(w, p, f);
      assert Fix(w, p, f) == Fix(w, p2, f2);
      calc {
        InsertAll(w, Leaf, [((), 3), ((), 1), ((), 2)]);
        { assert [((), 3), ((), 1), ((), 2)][1..] == [((), 1), ((), 2)]; }
        InsertAll(w, t3, [((), 1), ((), 2)]);
        { assert [((), 1), ((), 2)][1..] == [((), 2)]; }
        InsertAll(w, t1, [((), 2)]);
        Fix(w, p, f);
      }
    }
  }
}
