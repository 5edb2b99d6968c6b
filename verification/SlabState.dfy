/** What the slab allocator does to its lists, its ring and the slots in use, as a function of
    values, and the invariant it keeps. */
module SlabState {
  import B = Bitset
  import opened LinkedList

  /** A node: its slots in use, how many are not, and the links of the list it is in. */
  class Node {
    var count: nat
    var slots: B.Bitset
    const link: Link

    constructor (count: nat, slots: B.Bitset)
      ensures this.slots == slots && this.count == count
      ensures fresh(link) && link.owner == this && link.next == link.prev == link
    {
      this.slots, this.count := slots, count;
      link := new Link();
      new;
      link.owner := this;
    }
  }

  datatype Place = Avail | Empty | Ring
  datatype Info = Info(place: Place, used: set<nat>)
  type Nodes = map<Node, Info>

  /** The two lists and the ring, first to last, and of each node its place and the slots in use. */
  datatype State = State(avail: seq<Node>, empty: seq<Node>, ring: seq<Node>, info: Nodes)

  ghost function SlotsOf(s: State, x: Node): set<nat> {
    if x in s.info then s.info[x].used else {}
  }

  // ----- counting -----------------------------------------------------------

  ghost function Range(n: nat): (r: set<nat>)
    ensures forall i: nat :: i in r <==> i < n
  {
    if n == 0 then {} else Range(n - 1) + {n - 1}
  }

  lemma {:induction false} RangeSize(n: nat)
    ensures |Range(n)| == n
  {
    if n > 0 {
      RangeSize(n - 1);
    }
  }

  lemma {:induction false} SubsetSize(a: set<nat>, b: set<nat>)
    requires a <= b
    ensures |a| <= |b| && (|a| == |b| ==> a == b)
  {
    if a != {} {
      var x :| x in a;
      SubsetSize(a - {x}, b - {x});
      assert a == (a - {x}) + {x} && b == (b - {x}) + {x};
    }
  }

  /** A node's count of free slots is zero, or all of them, just when its slots say so. */
  lemma CountTells(n: nat, u: set<nat>)
    requires u <= Range(n)
    ensures |u| <= n && (|u| == n <==> u == Range(n)) && (|u| == 0 <==> u == {})
  {
    RangeSize(n);
    SubsetSize(u, Range(n));
  }

  // ----- lists of nodes -----------------------------------------------------

  ghost predicate Lists(l: seq<Node>, info: Nodes, p: Place) {
    && (forall i, j :: 0 <= i < j < |l| ==> l[i] != l[j])
    && (forall x :: x in l ==> x in info && info[x].place == p)
    && (forall x {:trigger info[x]} :: x in info && info[x].place == p ==> x in l)
  }

  ghost function IndexOf(l: seq<Node>, x: Node): (i: nat)
    requires x in l
    ensures i < |l| && l[i] == x
  {
    if l[0] == x then 0 else 1 + IndexOf(l[1..], x)
  }

  ghost function Remove(l: seq<Node>, x: Node): seq<Node>
    requires x in l
  {
    l[..IndexOf(l, x)] + l[IndexOf(l, x) + 1..]
  }

  lemma Leaves(l: seq<Node>, info: Nodes, p: Place, x: Node, f: Info)
    requires Lists(l, info, p) && x in l && f.place != p
    ensures Lists(Remove(l, x), info[x := f], p)
  {
    var i := IndexOf(l, x);
    assert forall y :: y in l && y != x ==> y in Remove(l, x);
  }

  lemma Drops(l: seq<Node>, info: Nodes, p: Place, x: Node)
    requires Lists(l, info, p) && x !in l
    ensures Lists(l, info - {x}, p)
  {
  }

  lemma Enters(l: seq<Node>, info: Nodes, p: Place, x: Node, f: Info)
    requires Lists(l, info, p) && x !in l && f.place == p
    ensures Lists([x] + l, info[x := f], p) && Lists(l + [x], info[x := f], p)
  {
  }

  lemma Elsewhere(l: seq<Node>, info: Nodes, p: Place, x: Node, f: Info)
    requires Lists(l, info, p) && x !in l && f.place != p
    ensures Lists(l, info[x := f], p)
  {
  }

  lemma Within(l: seq<Node>, info: Nodes, p: Place, x: Node, f: Info)
    requires Lists(l, info, p) && x in l && f.place == p
    ensures Lists(l, info[x := f], p) && Lists([x] + Remove(l, x), info[x := f], p)
  {
    var i := IndexOf(l, x);
    assert forall y :: y in l && y != x ==> y in Remove(l, x);
  }

  // ----- the invariant ------------------------------------------------------

  /** What is in use fits the place: some but not all slots, all slots, or none. */
  ghost predicate Fits(n: nat, f: Info) {
    f.used <= Range(n) &&
    match f.place
    case Avail => f.used != Range(n) && f.used != {}
    case Empty => f.used == Range(n)
    case Ring => f.used == {}
  }

  /** Each node is in exactly one of the two lists and the ring, and there only once. */
  ghost predicate Sorted(s: State) {
    Lists(s.avail, s.info, Avail) && Lists(s.empty, s.info, Empty) && Lists(s.ring, s.info, Ring)
  }

  ghost predicate AllFit(s: State, n: nat) {
    forall x {:trigger s.info[x]} :: x in s.info ==> Fits(n, s.info[x])
  }

  ghost predicate Ok(s: State, n: nat, r: nat) {
    Sorted(s) && AllFit(s, n) && |s.ring| <= r
  }

  // ----- get ----------------------------------------------------------------

  /** The node a get may use: the first available one, else the hottest in the ring, else a
      new one. */
  ghost predicate Serves(s: State, x: Node) {
    if s.avail != [] then x == s.avail[0]
    else if s.ring != [] then x == s.ring[|s.ring| - 1]
    else x !in s.info
  }

  ghost function Opened(s: State, x: Node): State
    requires Serves(s, x)
  {
    if s.avail != [] then s
    else
      var ring := if s.ring != [] then s.ring[..|s.ring| - 1] else [];
      State([x], s.empty, ring, s.info[x := Info(Avail, {})])
  }

  ghost function Taken(s: State, n: nat, i: nat): State
    requires s.avail != [] && s.avail[0] in s.info
  {
    var x := s.avail[0];
    var u := s.info[x].used + {i};
    if u == Range(n)
    then State(s.avail[1..], [x] + s.empty, s.ring, s.info[x := Info(Empty, u)])
    else s.(info := s.info[x := Info(Avail, u)])
  }

  lemma OpenedSorted(s: State, x: Node)
    requires Sorted(s) && Serves(s, x)
    ensures Sorted(Opened(s, x)) && Opened(s, x).avail[0] == x
  {
    if s.avail == [] {
      var f := Info(Avail, {});
      Enters(s.avail, s.info, Avail, x, f);
      Elsewhere(s.empty, s.info, Empty, x, f);
      if s.ring != [] {
        Leaves(s.ring, s.info, Ring, x, f);
        LastRemoved(s.ring, x);
      } else {
        Elsewhere(s.ring, s.info, Ring, x, f);
      }
      assert [x] + s.avail == [x];
    }
  }

  lemma {:induction false} LastRemoved(l: seq<Node>, x: Node)
    requires |l| > 0 && l[|l| - 1] == x && forall i :: 0 <= i < |l| - 1 ==> l[i] != x
    ensures Remove(l, x) == l[..|l| - 1]
  {
    assert IndexOf(l, x) == |l| - 1;
  }

  lemma TakenSorted(s: State, n: nat, i: nat)
    requires Sorted(s) && s.avail != []
    ensures Sorted(Taken(s, n, i))
  {
    var x := s.avail[0];
    var u := s.info[x].used + {i};
    if u == Range(n) {
      var f := Info(Empty, u);
      Leaves(s.avail, s.info, Avail, x, f);
      Enters(s.empty, s.info, Empty, x, f);
      Elsewhere(s.ring, s.info, Ring, x, f);
      assert Remove(s.avail, x) == s.avail[1..];
    } else {
      var f := Info(Avail, u);
      Within(s.avail, s.info, Avail, x, f);
      Elsewhere(s.empty, s.info, Empty, x, f);
      Elsewhere(s.ring, s.info, Ring, x, f);
    }
  }

  /** A get hands out a slot that was free, and keeps the invariant. */
  lemma GetOk(s: State, n: nat, r: nat, x: Node, i: nat)
    requires Ok(s, n, r) && n > 0 && Serves(s, x) && i < n && i !in SlotsOf(s, x)
    ensures var s' := Taken(Opened(s, x), n, i);
            && Ok(s', n, r) && SlotsOf(s', x) == SlotsOf(s, x) + {i}
            && forall y :: y in s.info && y != x ==> y in s'.info && SlotsOf(s', y) == SlotsOf(s, y)
  {
    OpenedSorted(s, x);
    TakenSorted(Opened(s, x), n, i);
    TakenFits(Opened(s, x), n, i, x);
  }

  lemma TakenFits(s: State, n: nat, i: nat, x: Node)
    requires s.avail != [] && s.avail[0] == x && x in s.info && s.info[x].place == Avail
    requires s.info[x].used <= Range(n) && i < n
    requires forall y {:trigger s.info[y]} :: y in s.info && y != x ==> Fits(n, s.info[y])
    ensures AllFit(Taken(s, n, i), n)
  {
    assert i in Taken(s, n, i).info[x].used;
  }

  // ----- put ----------------------------------------------------------------

  ghost function Retired(s: State, r: nat, x: Node): State
    requires x in s.avail && (|s.ring| == r ==> r > 0)
  {
    var ring := if |s.ring| == r then s.ring[1..] else s.ring;
    var info := if |s.ring| == r then s.info - {s.ring[0]} else s.info;
    State(Remove(s.avail, x), s.empty, ring + [x], info[x := Info(Ring, {})])
  }

  /** Where a node goes that now has the slots u in use. */
  ghost function Settled(s: State, r: nat, x: Node, u: set<nat>): State
    requires if x in s.info && s.info[x].place == Empty then x in s.empty && u != {} else x in s.avail
    requires |s.ring| == r ==> r > 0
  {
    var info := s.info[x := Info(Avail, u)];
    if u == {} then Retired(s, r, x)
    else if x in s.info && s.info[x].place == Empty then State([x] + s.avail, Remove(s.empty, x), s.ring, info)
    else if s.avail[0] in info && |u| < |info[s.avail[0]].used|
    then State([x] + Remove(s.avail, x), s.empty, s.ring, info)
    else s.(info := info)
  }

  ghost function Returned(s: State, n: nat, r: nat, x: Node, i: nat): State
    requires Ok(s, n, r) && n > 1 && r > 0 && i in SlotsOf(s, x)
  {
    PlaceTells(s, n, r, x, i);
    Settled(s, r, x, s.info[x].used - {i})
  }

  /** What the slots in use say about the place of a node. */
  lemma PlaceTells(s: State, n: nat, r: nat, x: Node, i: nat)
    requires Ok(s, n, r) && n > 1 && i in SlotsOf(s, x)
    ensures s.info[x].used <= Range(n)
    ensures if s.info[x].used == Range(n) then s.info[x].place == Empty && x in s.empty && s.info[x].used - {i} != {}
            else s.info[x].place == Avail && x in s.avail
  {
    assert Fits(n, s.info[x]);
    if s.info[x].used == Range(n) {
      assert (if i == 0 then 1 else 0) in s.info[x].used - {i};
    }
  }

  lemma RetiredSorted(s: State, r: nat, x: Node)
    requires Sorted(s) && x in s.avail && (|s.ring| == r ==> r > 0)
    ensures Sorted(Retired(s, r, x))
  {
    var f := Info(Ring, {});
    Leaves(s.avail, s.info, Avail, x, f);
    Elsewhere(s.empty, s.info, Empty, x, f);
    Enters(s.ring, s.info, Ring, x, f);
    if |s.ring| == r {
      var y := s.ring[0];
      Drops(Remove(s.avail, x), s.info[x := f], Avail, y);
      Drops(s.empty, s.info[x := f], Empty, y);
      assert (s.info[x := f]) - {y} == (s.info - {y})[x := f];
      assert s.ring[1..] + [x] == (s.ring + [x])[1..];
    }
  }

  /** A put frees the slot and no other, and keeps the invariant. */
  lemma PutOk(s: State, n: nat, r: nat, x: Node, i: nat)
    requires Ok(s, n, r) && n > 1 && r > 0 && i in SlotsOf(s, x)
    ensures var s' := Returned(s, n, r, x, i);
            && Ok(s', n, r) && SlotsOf(s', x) == SlotsOf(s, x) - {i} && s'.info.Keys <= s.info.Keys
            && forall y :: y in s.info && y != x ==> SlotsOf(s', y) == SlotsOf(s, y)
  {
    ReturnedSorted(s, n, r, x, i);
    ReturnedFits(s, n, r, x, i);
    ReturnedSlots(s, n, r, x, i);
  }

  lemma ReturnedFits(s: State, n: nat, r: nat, x: Node, i: nat)
    requires Ok(s, n, r) && n > 1 && r > 0 && i in SlotsOf(s, x)
    ensures AllFit(Returned(s, n, r, x, i), n) && |Returned(s, n, r, x, i).ring| <= r
  {
    var s' := Returned(s, n, r, x, i);
    OthersKept(s, n, r, x, i);
    assert (if i == 0 then 1 else 0) in s.info[x].used - {i} <== s.info[x].place == Empty;
    assert Fits(n, s'.info[x]);
  }

  lemma OthersKept(s: State, n: nat, r: nat, x: Node, i: nat)
    requires Ok(s, n, r) && n > 1 && r > 0 && i in SlotsOf(s, x)
    ensures var s' := Returned(s, n, r, x, i);
            && x in s'.info
            && forall y {:trigger s'.info[y]} :: y in s'.info && y != x ==> y in s.info && s'.info[y] == s.info[y]
  {
  }

  lemma ReturnedSlots(s: State, n: nat, r: nat, x: Node, i: nat)
    requires Ok(s, n, r) && n > 1 && r > 0 && i in SlotsOf(s, x)
    ensures var s' := Returned(s, n, r, x, i);
            && SlotsOf(s', x) == SlotsOf(s, x) - {i} && s'.info.Keys <= s.info.Keys
            && forall y :: y in s.info && y != x ==> SlotsOf(s', y) == SlotsOf(s, y)
  {
    if |s.ring| == r {
      assert s.info[s.ring[0]].used == {};
    }
  }

  lemma ReturnedSorted(s: State, n: nat, r: nat, x: Node, i: nat)
    requires Ok(s, n, r) && n > 1 && r > 0 && i in SlotsOf(s, x)
    ensures Sorted(Returned(s, n, r, x, i))
  {
    var u := s.info[x].used - {i};
    var f := Info(Avail, u);
    if s.info[x].place == Empty {
      Enters(s.avail, s.info, Avail, x, f);
      Leaves(s.empty, s.info, Empty, x, f);
      Elsewhere(s.ring, s.info, Ring, x, f);
    } else if u == {} {
      RetiredSorted(s, r, x);
    } else {
      Within(s.avail, s.info, Avail, x, f);
      Elsewhere(s.empty, s.info, Empty, x, f);
      Elsewhere(s.ring, s.info, Ring, x, f);
    }
  }

  // ----- where the nodes are afterwards -------------------------------------
  // Told from the lists, the ring and the slots in use alone.

  /** l' is l without x, and the others keep their order. */
  ghost predicate LeftOut(l: seq<Node>, x: Node, l': seq<Node>) {
    x !in l' && exists i :: 0 <= i < |l| && l[i] == x && l' == l[..i] + l[i + 1..]
  }

  /** l' is l with x moved to the front, and the others keep their order. */
  ghost predicate MovedUp(l: seq<Node>, x: Node, l': seq<Node>) {
    l' != [] && l'[0] == x && LeftOut(l, x, l'[1..])
  }

  lemma RemoveLeavesOut(l: seq<Node>, x: Node)
    requires x in l && forall i, j :: 0 <= i < j < |l| ==> l[i] != l[j]
    ensures LeftOut(l, x, Remove(l, x)) && MovedUp(l, x, [x] + Remove(l, x))
  {
    var i := IndexOf(l, x);
    assert l[i] == x && Remove(l, x) == l[..i] + l[i + 1..];
    assert ([x] + Remove(l, x))[1..] == Remove(l, x);
  }

  /** A get: the node x that serves it goes to the full ones with its last slot, and otherwise
      stays first of the available ones; only a node from the ring leaves the ring. */
  ghost predicate GetLists(s: State, n: nat, x: Node, i: nat, s': State) {
    var full := forall j: nat :: j < n && j != i ==> j in SlotsOf(s, x);
    && (if s.avail != [] then x == s.avail[0] && s'.ring == s.ring
        else if s.ring != [] then s.ring == s'.ring + [x]
        else x !in s.info && s'.ring == [])
    && (if full then s'.empty == [x] + s.empty else s'.empty == s.empty)
    && var others := if s.avail != [] then s.avail[1..] else [];
       if full then s'.avail == others else s'.avail == [x] + others
  }

  lemma GetListsOk(s: State, n: nat, r: nat, x: Node, i: nat)
    requires Ok(s, n, r) && n > 0 && Serves(s, x) && i < n && i !in SlotsOf(s, x)
    ensures Opened(s, x).avail != [] && Opened(s, x).avail[0] in Opened(s, x).info
    ensures GetLists(s, n, x, i, Taken(Opened(s, x), n, i))
  {
    OpenedSorted(s, x);
    var u := SlotsOf(s, x) + {i};
    assert u <= Range(n);
    assert u == Range(n) <==> forall j: nat :: j < n && j != i ==> j in SlotsOf(s, x) by {
      if forall j: nat :: j < n && j != i ==> j in SlotsOf(s, x) {
        assert forall j: nat :: j in Range(n) ==> j in u;
      } else {
        var j: nat :| j < n && j != i && j !in SlotsOf(s, x);
        assert j in Range(n) && j !in u;
      }
    }
  }

  /** The node with all its slots in use. */
  ghost predicate Full(s: State, n: nat, x: Node) {
    forall j: nat :: j < n ==> j in SlotsOf(s, x)
  }

  /** A put: a node all free goes to the hot end of the ring, whose coldest node makes room; a
      node that was full, or has fewer slots in use than the first available one, becomes the
      first; otherwise nothing moves. */
  ghost predicate PutLists(s: State, n: nat, r: nat, x: Node, i: nat, s': State) {
    var left := SlotsOf(s, x) - {i};
    if left == {} then
      && LeftOut(s.avail, x, s'.avail) && s'.empty == s.empty
      && s'.ring == (if |s.ring| == r && r > 0 then s.ring[1..] else s.ring) + [x]
    else
      && s'.ring == s.ring
      && if Full(s, n, x) then s'.avail == [x] + s.avail && LeftOut(s.empty, x, s'.empty)
         else
           && s'.empty == s.empty && s.avail != []
           && if x != s.avail[0] && |left| < |SlotsOf(s, s.avail[0])| then MovedUp(s.avail, x, s'.avail)
              else s'.avail == s.avail
  }

  lemma FullExact(s: State, n: nat, r: nat, x: Node)
    requires Ok(s, n, r) && x in s.info
    ensures Full(s, n, x) <==> s.info[x].used == Range(n)
  {
    assert Fits(n, s.info[x]);
    if Full(s, n, x) {
      forall j: nat | j in Range(n) ensures j in s.info[x].used {
        assert j in SlotsOf(s, x);
      }
    } else {
      var j: nat :| j < n && j !in SlotsOf(s, x);
      assert j in Range(n);
    }
  }

  lemma PutListsOk(s: State, n: nat, r: nat, x: Node, i: nat)
    requires Ok(s, n, r) && n > 1 && r > 0 && i in SlotsOf(s, x)
    ensures PutLists(s, n, r, x, i, Returned(s, n, r, x, i))
  {
    PlaceTells(s, n, r, x, i);
    FullExact(s, n, r, x);
    RemoveLeavesOut(if Full(s, n, x) then s.empty else s.avail, x);
  }

  /** Which node serves a get right after a put: the one just put to, unless an available node
      comes before it that has no more slots in use, or it rests while another is available. */
  ghost predicate ServedNext(s: State, n: nat, x: Node, i: nat, y: Node) {
    var left := SlotsOf(s, x) - {i};
    if left == {} then
      if s.avail == [x] then y == x
      else if s.avail != [] && s.avail[0] != x then y == s.avail[0]
      else |s.avail| > 1 && y == s.avail[1]
    else if Full(s, n, x) then y == x
    else s.avail != [] && y == if |left| < |SlotsOf(s, s.avail[0])| then x else s.avail[0]
  }

  lemma PutThenServes(s: State, n: nat, r: nat, x: Node, i: nat, s': State, y: Node)
    requires PutLists(s, n, r, x, i, s') && Serves(s', y)
    ensures ServedNext(s, n, x, i, y)
  {
    if SlotsOf(s, x) - {i} == {} {
      assert s'.ring[|s'.ring| - 1] == x;
      var k :| 0 <= k < |s.avail| && s.avail[k] == x && s'.avail == s.avail[..k] + s.avail[k + 1..];
      if k > 0 {
        assert s'.avail[0] == s.avail[0];
        assert s.avail[0] != x;
      }
    }
  }
}
