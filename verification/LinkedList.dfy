/** The intrusive circular doubly linked list. */
module LinkedList {
  /** The links embedded in an object; the head of a list is embedded in none. */
  class Link {
    var next: Link
    var prev: Link
    var owner: object?

    /** list_init */
    constructor ()
      ensures next == this && prev == this && owner == null
    {
      next, prev, owner := this, this, null;
    }
  }

  /** The links of some list elements, as values. */
  datatype Ends = Ends(next: Link, prev: Link)
  type Links = map<Link, Ends>

  ghost predicate Mirrored(m: Links)
    reads m.Keys`next, m.Keys`prev
  {
    forall l {:trigger l.next} {:trigger l.prev} :: l in m ==> m[l] == Ends(l.next, l.prev)
  }

  function Succ(i: nat, n: nat): nat {
    if i + 1 == n then 0 else i + 1
  }

  ghost predicate Distinct(s: seq<Link>) {
    forall i, j :: 0 <= i < j < |s| ==> s[i] != s[j]
  }

  ghost predicate Joined(m: Links, a: Link, b: Link) {
    a in m && b in m && m[a].next == b && m[b].prev == a
  }

  ghost predicate JoinedAt(m: Links, s: seq<Link>, i: nat)
    requires i < |s|
  {
    Joined(m, s[i], s[Succ(i, |s|)])
  }

  /** Following next from s[0] goes once round the elements of s; prev goes the other way. */
  ghost predicate Circle(m: Links, s: seq<Link>) {
    && |s| > 0 && Distinct(s)
    && (forall i {:trigger s[i]} :: 0 <= i < |s| ==> s[i] in m)
    && (forall i: nat {:trigger JoinedAt(m, s, i)} :: i < |s| ==> JoinedAt(m, s, i))
  }

  ghost function Without(s: seq<Link>, i: nat): seq<Link>
    requires i < |s|
  {
    s[..i] + s[i + 1..]
  }

  ghost function With(s: seq<Link>, i: nat, p: Link): seq<Link>
    requires i < |s|
  {
    s[..i + 1] + [p] + s[i + 1..]
  }

  /** Make b follow a. */
  ghost function Join(m: Links, a: Link, b: Link): (m': Links)
    requires a in m && b in m
    ensures m'.Keys == m.Keys
    ensures m'[a].next == b && m'[b].prev == a
    ensures forall l :: l in m && l != a ==> m'[l].next == m[l].next
    ensures forall l :: l in m && l != b ==> m'[l].prev == m[l].prev
  {
    var m1 := m[b := m[b].(prev := a)];
    m1[a := m1[a].(next := b)]
  }

  /** Joins that do not touch the elements of a circle leave it alone. */
  lemma CircleFrame(m: Links, m': Links, s: seq<Link>)
    requires Circle(m, s) && forall l :: l in s ==> l in m' && m'[l] == m[l]
    ensures Circle(m', s)
  {
    forall i: nat | i < |s| ensures JoinedAt(m', s, i) {
      assert JoinedAt(m, s, i);
      assert s[i] in s && s[Succ(i, |s|)] in s;
    }
  }

  /** Two neighbours stay joined when another pair is joined. */
  lemma JoinFrame(m: Links, a: Link, b: Link, c: Link, d: Link)
    requires a in m && b in m && Joined(m, c, d) && a != c && b != d
    ensures Joined(Join(m, a, b), c, d)
  {
  }

  lemma WithoutAt(s: seq<Link>, i: nat, j: nat)
    requires 0 < i < |s| && j < |s| - 1 && Distinct(s)
    ensures var k, t := if j < i then j else j + 1, Without(s, i);
            && |t| == |s| - 1 && t[j] == s[k]
            && t[Succ(j, |t|)] == if j == i - 1 then s[Succ(i, |s|)] else s[Succ(k, |s|)]
  {
  }

  lemma RmCircle(m: Links, s: seq<Link>, i: nat)
    requires Circle(m, s) && 0 < i < |s|
    ensures m[s[i]] == Ends(s[Succ(i, |s|)], s[i - 1])
    ensures Circle(Join(m, s[i - 1], s[Succ(i, |s|)]), Without(s, i))
  {
    var n := |s|;
    assert JoinedAt(m, s, i - 1) && JoinedAt(m, s, i);
    var m' := Join(m, s[i - 1], s[Succ(i, n)]);
    var t := Without(s, i);
    forall j: nat | j < |t| ensures JoinedAt(m', t, j) {
      WithoutAt(s, i, j);
      if j != i - 1 {
        var k := if j < i then j else j + 1;
        assert JoinedAt(m, s, k);
        JoinFrame(m, s[i - 1], s[Succ(i, n)], s[k], s[Succ(k, n)]);
      }
    }
  }

  lemma WithAt(s: seq<Link>, i: nat, p: Link, j: nat)
    requires i < |s| && j < |s| + 1
    ensures var t := With(s, i, p);
            && |t| == |s| + 1 && t[j] == (if j <= i then s[j] else if j == i + 1 then p else s[j - 1])
            && t[Succ(j, |t|)] == if j < i then s[j + 1] else if j == i then p else s[Succ(j - 1, |s|)]
  {
  }

  lemma AddCircle(m: Links, s: seq<Link>, i: nat, p: Link)
    requires Circle(m, s) && i < |s| && p in m && p !in s
    ensures Joined(m, s[i], s[Succ(i, |s|)])
    ensures Circle(Join(Join(m, p, s[Succ(i, |s|)]), s[i], p), With(s, i, p))
  {
    var n := |s|;
    assert JoinedAt(m, s, i);
    var m1 := Join(m, p, s[Succ(i, n)]);
    var m' := Join(m1, s[i], p);
    var t := With(s, i, p);
    forall j: nat | j < |t| ensures JoinedAt(m', t, j) {
      WithAt(s, i, p, j);
      if j != i && j != i + 1 {
        var k := if j < i then j else j - 1;
        assert JoinedAt(m, s, k);
        JoinFrame(m, p, s[Succ(i, n)], s[k], s[Succ(k, n)]);
        JoinFrame(m1, s[i], p, s[k], s[Succ(k, n)]);
      }
    }
  }

  /** list_rm: the element leaves its circle; its own links are not cleared. */
  method ListRm(p: Link, ghost m: Links, ghost s: seq<Link>, ghost i: nat) returns (ghost m': Links)
    requires Mirrored(m) && Circle(m, s) && 0 < i < |s| && s[i] == p
    modifies m.Keys`next, m.Keys`prev
    ensures m'.Keys == m.Keys && Mirrored(m') && Circle(m', Without(s, i))
    ensures forall l :: l in m && l !in s ==> m'[l] == m[l]
  {
    RmCircle(m, s, i);
    m' := Join(m, s[i - 1], s[Succ(i, |s|)]);
    p.next.prev := p.prev;
    p.prev.next := p.next;
  }

  /** list_add_after: the element enters the circle behind `before`. */
  method ListAddAfter(before: Link, p: Link, ghost m: Links, ghost s: seq<Link>, ghost i: nat) returns (ghost m': Links)
    requires Mirrored(m) && Circle(m, s) && i < |s| && s[i] == before && p in m && p !in s
    modifies m.Keys`next, m.Keys`prev
    ensures m'.Keys == m.Keys && Mirrored(m') && Circle(m', With(s, i, p))
    ensures forall l :: l in m && l !in s && l != p ==> m'[l] == m[l]
  {
    AddCircle(m, s, i, p);
    m' := Join(Join(m, p, s[Succ(i, |s|)]), s[i], p);
    p.next := before.next;
    p.prev := before;
    before.next.prev := p;
    before.next := p;
  }
}
