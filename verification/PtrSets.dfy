/** The pointer sets side by side: after any additions they answer every query alike, and as the
    plain mathematical set does. */
module PtrSets {
  import RedBlack
  import opened TrieShape
  import BstSet
  import FixSet
  import ListSet

  ghost function Added(adds: seq<seq<Chunk>>): (s: set<seq<Chunk>>)
    ensures forall a :: a in s <==> a in adds
  {
    if adds == [] then {} else Added(adds[..|adds| - 1]) + {adds[|adds| - 1]}
  }

  lemma AddedNext(adds: seq<seq<Chunk>>, i: nat)
    requires i < |adds|
    ensures Added(adds[..i + 1]) == Added(adds[..i]) + {adds[i]}
  {
    assert adds[..i + 1][..i] == adds[..i];
  }

  method Compare(adds: seq<seq<Chunk>>, query: seq<Chunk>) returns (inTree: bool, inList: bool, inFix: bool)
    requires |query| == ADDR_LEN && forall i :: 0 <= i < |adds| ==> |adds[i]| == ADDR_LEN
    ensures inTree == inList == inFix == (query in adds)
  {
    var t := FillTree(adds);
    var l := FillList(adds);
    var f := FillFix(adds);
    inTree := t.Has(query);
    inList := l.Has(query);
    inFix := f.Has(query);
  }

  method FillTree(adds: seq<seq<Chunk>>) returns (t: BstSet.BstSet)
    requires forall i :: 0 <= i < |adds| ==> |adds[i]| == ADDR_LEN
    ensures t.Valid() && t.Contents() == Added(adds)
  {
    t := new BstSet.BstSet(RedBlack.Reread);
    var i := 0;
    while i < |adds|
      invariant i <= |adds| && fresh(t) && t.Valid() && t.w == RedBlack.Reread && t.Contents() == Added(adds[..i])
      invariant forall n :: n in t.trie.heads ==> fresh(n)
      invariant forall k :: k in t.trie.edges ==> fresh(k)
    {
      var ok := t.Add(adds[i]);
      AddedNext(adds, i);
      i := i + 1;
    }
    assert adds[..i] == adds;
  }

  method FillList(adds: seq<seq<Chunk>>) returns (l: ListSet.ListSet)
    requires forall i :: 0 <= i < |adds| ==> |adds[i]| == ADDR_LEN
    ensures l.Valid() && l.Contents() == Added(adds)
  {
    l := new ListSet.ListSet();
    var i := 0;
    while i < |adds|
      invariant i <= |adds| && fresh(l) && l.Valid() && l.Contents() == Added(adds[..i])
      invariant forall n :: n in l.trie.heads ==> fresh(n)
      invariant forall k :: k in l.trie.edges ==> fresh(k)
    {
      l.Add(adds[i]);
      AddedNext(adds, i);
      i := i + 1;
    }
    assert adds[..i] == adds;
  }

  method FillFix(adds: seq<seq<Chunk>>) returns (f: FixSet.FixSet)
    requires forall i :: 0 <= i < |adds| ==> |adds[i]| == ADDR_LEN
    ensures f.Valid() && f.v == FixSet.Tested && f.Contents() == Added(adds)
  {
    f := new FixSet.FixSet(FixSet.Tested);
    var i := 0;
    while i < |adds|
      invariant i <= |adds| && fresh(f) && f.Valid() && f.v == FixSet.Tested && f.Contents() == Added(adds[..i])
      invariant forall a :: a in f.trie.owners ==> fresh(a)
    {
      f.Add(adds[i]);
      AddedNext(adds, i);
      i := i + 1;
    }
    assert adds[..i] == adds;
  }
}
