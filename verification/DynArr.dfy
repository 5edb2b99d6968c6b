/** The growing array that moves, and the registered pointers into it that move with it. */
module DynArr {
  import opened LinkedList

  /** AsWritten leaves a null array behind after growing; Repaired keeps the new one. */
  datatype Variant = AsWritten | Repaired

  /** A pointer variable: an array and a position in it. */
  class Cell<T> {
    var arr: array?<T>
    var at: nat

    constructor (arr: array?<T>, at: nat)
      ensures this.arr == arr && this.at == at
    {
      this.arr, this.at := arr, at;
    }
  }

  const CAP_INIT: nat := 0x4000_0000

  /** What became of a push: done, stored through the null array, or stopped at a registered
      pointer that no longer pointed into the old array. */
  datatype Outcome = Pushed | NullStore | StrayPointer

  /** The registrations, newest first: the pointer variable of each and the position it was
      registered with; and all pointer variables that have ever been registered. */
  datatype Book<T> = Book(order: seq<Link>, links: Links, cell: map<Link, Cell<T>>, cells: set<Cell<T>>,
      index: map<Link, nat>)

  /** The pointer variable of the registration is at the position it was registered with. */
  ghost predicate AtIndex<T>(b: Book<T>, len: nat, l: Link)
    reads l`owner, b.cells`at
  {
    && l in b.cell && l in b.index && b.cell[l] in b.cells
    && l.owner == b.cell[l] && b.cell[l].at == b.index[l] < len
  }

  ghost predicate PtrOk<T>(b: Book<T>, arr: array?<T>, len: nat, l: Link)
    reads l`owner, b.cells
  {
    AtIndex(b, len, l) && b.cell[l].arr == arr
  }

  ghost predicate SameCell<T>(b: Book<T>, i: nat, j: nat)
    requires i < |b.order| && j < |b.order|
  {
    b.order[i] in b.cell && b.order[j] in b.cell && b.cell[b.order[i]] == b.cell[b.order[j]]
  }

  /** No pointer variable is registered twice. */
  ghost predicate Once<T>(b: Book<T>) {
    forall i: nat, j: nat {:trigger SameCell(b, i, j)} :: i < j < |b.order| ==> !SameCell(b, i, j)
  }

  ghost predicate Registered<T>(b: Book<T>, c: Cell<T>) {
    exists l :: l in b.order && l in b.cell && b.cell[l] == c
  }

  /** The list of registrations is well linked, and every pointer variable points into the
      array at the position it was registered with. */
  ghost predicate BookOk<T>(b: Book<T>, head: Link, arr: array?<T>, len: nat)
    reads b.links.Keys, b.cells
  {
    && Mirrored(b.links) && Circle(b.links, [head] + b.order)
    && (forall l :: l in b.order ==> l in b.links)
    && forall l {:trigger PtrOk(b, arr, len, l)} :: l in b.order ==> PtrOk(b, arr, len, l)
  }

  /** The step of the growing loop: one pointer variable is moved to the new array. */
  method MovePtr<T>(p: Link, arr: array<T>, dst: array<T>)
    requires p.owner != null && p.owner is Cell<T> && (p.owner as Cell<T>).arr == arr
    modifies p.owner as Cell<T>
    ensures (p.owner as Cell<T>).arr == dst && (p.owner as Cell<T>).at == old((p.owner as Cell<T>).at)
  {
    var c := p.owner as Cell<T>;
    var i := c.at;
    c.arr, c.at := dst, i;
  }

  lemma TailDistinct(head: Link, order: seq<Link>)
    requires Distinct([head] + order)
    ensures Distinct(order) && head !in order
  {
    var ring := [head] + order;
    assert forall i :: 0 <= i < |order| ==> ring[i + 1] == order[i];
    assert ring[0] == head;
  }

  /** After k registrations: where each pointer variable is that has been moved, by the one
      registration it was moved for; the others still point into the old array. */
  ghost predicate Moved<T>(b: Book<T>, arr: array<T>, dst: array<T>, len: nat, k: nat, moved: map<Cell<T>, nat>)
    requires k <= |b.order|
    reads b.order`owner, b.cells
  {
    && (forall l {:trigger AtIndex(b, len, l)} :: l in b.order ==> AtIndex(b, len, l))
    && (forall j {:trigger b.order[j]} :: 0 <= j < k ==> b.order[j] in b.cell && b.cell[b.order[j]] in moved
                                                          && moved[b.cell[b.order[j]]] == j)
    && (forall c {:trigger moved[c]} :: c in moved ==>
          c in b.cells && c.arr == dst && moved[c] < k && b.order[moved[c]] in b.cell && b.cell[b.order[moved[c]]] == c)
    && (forall l :: l in b.order && l in b.cell && b.cell[l] !in moved ==> b.cell[l] in b.cells && b.cell[l].arr == arr)
  }

  lemma MovedStart<T>(b: Book<T>, head: Link, arr: array<T>, dst: array<T>, len: nat)
    requires BookOk(b, head, arr, len)
    ensures Moved(b, arr, dst, len, 0, map[]) && Mirrored(b.links)
    ensures Circle(b.links, [head] + b.order) && forall l :: l in b.order ==> l in b.links
  {
    forall l | l in b.order ensures PtrOk(b, arr, len, l) {
    }
  }

  lemma MovedEnd<T>(b: Book<T>, head: Link, arr: array<T>, dst: array<T>, len: nat, moved: map<Cell<T>, nat>)
    requires Moved(b, arr, dst, len, |b.order|, moved) && Mirrored(b.links)
    requires Circle(b.links, [head] + b.order) && forall l :: l in b.order ==> l in b.links
    ensures Once(b) && BookOk(b, head, dst, len)
  {
    forall i: nat, j: nat | i < j < |b.order| ensures !SameCell(b, i, j) {
      assert moved[b.cell[b.order[i]]] == i && moved[b.cell[b.order[j]]] == j;
    }
    forall l | l in b.order ensures PtrOk(b, dst, len, l) {
      var j :| 0 <= j < |b.order| && b.order[j] == l;
      assert AtIndex(b, len, l);
    }
  }

  /** One registration: its variable still points into the old array, or it is registered twice. */
  method MoveStep<T>(p: Link, arr: array<T>, dst: array<T>, ghost b: Book<T>, ghost len: nat, ghost k: nat,
                     ghost moved: map<Cell<T>, nat>)
    returns (ok: bool, ghost moved': map<Cell<T>, nat>)
    requires k < |b.order| && p == b.order[k] && Moved(b, arr, dst, len, k, moved) && arr != dst
    modifies b.cells
    ensures ok ==> Moved(b, arr, dst, len, k + 1, moved')
    ensures !ok ==> !Once(b)
  {
    assert AtIndex(b, len, p);
    moved' := moved;
    ok := (p.owner as Cell<T>).arr == arr;
    if ok {
      MovePtr(p, arr, dst);
      moved' := moved[b.cell[p] := k];
    } else {
      assert SameCell(b, moved[b.cell[p]], k);
    }
  }

  /** The traversal after k registrations. */
  ghost function PtrAt<T>(b: Book<T>, head: Link, k: nat): Link
    requires k <= |b.order|
  {
    if k == |b.order| then head else b.order[k]
  }

  lemma NextPtr<T>(b: Book<T>, head: Link, k: nat)
    requires k <= |b.order| && Mirrored(b.links) && Circle(b.links, [head] + b.order)
    ensures PtrAt(b, head, k) == head <==> k == |b.order|
    ensures (if k == 0 then head else b.order[k - 1]).next == PtrAt(b, head, k)
  {
    TailDistinct(head, b.order);
    assert JoinedAt(b.links, [head] + b.order, k);
  }

  /** Every registered pointer variable is moved to the new array, at the same position, unless
      it is met a second time: then it no longer points into the old array, and its distance
      from the start of that array means nothing. */
  method MoveAll<T>(head: Link, arr: array<T>, dst: array<T>, ghost b: Book<T>, ghost len: nat) returns (ok: bool)
    requires BookOk(b, head, arr, len) && arr != dst
    modifies b.cells
    ensures ok <==> Once(b)
    ensures ok ==> BookOk(b, head, dst, len)
  {
    ghost var k, moved: map<Cell<T>, nat> := 0, map[];
    MovedStart(b, head, arr, dst, len);
    NextPtr(b, head, 0);
    var p := head.next;
    while p != head
      invariant k <= |b.order| && p == PtrAt(b, head, k) && (p == head <==> k == |b.order|)
      invariant Moved(b, arr, dst, len, k, moved) && Mirrored(b.links)
      decreases |b.order| - k
    {
      ok, moved := MoveStep(p, arr, dst, b, len, k, moved);
      if !ok {
        return;
      }
      k := k + 1;
      NextPtr(b, head, k);
      p := p.next;
    }
    MovedEnd(b, head, arr, dst, len, moved);
    ok := true;
  }

  ghost predicate Stored<T>(b: Book<T>, head: Link, arr: array?<T>, cap: nat, len: nat)
    reads b.links.Keys, b.cells
  {
    arr != null && arr.Length == cap && len <= cap && cap > 0 && BookOk(b, head, arr, len)
  }

  /** grow: an array of twice the size with the same elements, and every registered pointer
      moved into it, which goes well exactly when none is registered twice. As written the array
      variable is then left null. */
  method Grow<T(0)>(v: Variant, head: Link, arr: array<T>, cap: nat, len: nat, ghost b: Book<T>)
    returns (ok: bool, arr': array?<T>, cap': nat, ghost dst: array<T>)
    requires Stored(b, head, arr, cap, len)
    modifies b.cells
    ensures cap' == 2 * cap && fresh(dst) && dst.Length == cap' && dst[..cap] == arr[..]
    ensures ok <==> Once(b)
    ensures ok ==> BookOk(b, head, dst, len) && arr' == if v.Repaired? then dst else null
  {
    cap' := cap * 2;
    var copy := new T[cap'];
    for i := 0 to cap
      invariant copy[..i] == arr[..i]
      invariant BookOk(b, head, arr, len)
    {
      copy[i] := arr[i];
    }
    assert arr[..cap] == arr[..];
    ok := MoveAll(head, arr, copy, b, len);
    dst := copy;
    arr' := if v.Repaired? then copy else null;
  }

  method LinkIn(l: Link, head: Link, ghost order: seq<Link>, ghost k: Links) returns (ghost k': Links)
    requires Mirrored(k) && Circle(k, [head] + order) && l !in k && l.next == l && l.prev == l
    modifies l`next, l`prev, k.Keys`next, k.Keys`prev
    ensures Mirrored(k') && k'.Keys == k.Keys + {l} && Circle(k', [head] + ([l] + order))
  {
    k' := k[l := Ends(l, l)];
    CircleFrame(k, k', [head] + order);
    OrderWith(head, order, l);
    k' := ListAddAfter(head, l, k', [head] + order, 0);
  }

  lemma OrderWith(head: Link, order: seq<Link>, l: Link)
    ensures With([head] + order, 0, l) == [head] + ([l] + order)
  {
  }

  /** A new registration. */
  method Register<T>(c: Cell<T>, head: Link, ghost arr: array?<T>, ghost len: nat, ghost b: Book<T>)
    returns (l: Link, ghost b': Book<T>)
    requires BookOk(b, head, arr, len) && c.arr == arr && c.at < len
    modifies b.links.Keys`next, b.links.Keys`prev
    ensures BookOk(b', head, arr, len) && fresh(l) && b'.order == [l] + b.order
    ensures b'.cell == b.cell[l := c] && b'.index == b.index[l := c.at] && b'.cells == b.cells + {c}
    ensures b'.links.Keys == b.links.Keys + {l}
  {
    l := new Link();
    l.owner := c;
    ghost var k := LinkIn(l, head, b.order, b.links);
    b' := Book([l] + b.order, k, b.cell[l := c], b.cells + {c}, b.index[l := c.at]);
    forall y | y in b'.order ensures PtrOk(b', arr, len, y) {
      if y != l {
        assert PtrOk(b, arr, len, y);
      }
    }
  }

  /** After a new registration no variable is registered twice if and only if that was so before
      and this one was not among them. */
  lemma OnceAfterAdd<T>(b: Book<T>, b': Book<T>, l: Link, c: Cell<T>)
    requires b'.order == [l] + b.order && b'.cell == b.cell[l := c] && l !in b.order
    requires forall y :: y in b.order ==> y in b.cell
    ensures Once(b') <==> Once(b) && !Registered(b, c)
  {
    forall i: nat, j: nat | i < j < |b.order| ensures SameCell(b', i + 1, j + 1) == SameCell(b, i, j) {
    }
    if Registered(b, c) {
      var y :| y in b.order && b.cell[y] == c;
      var j :| 0 <= j < |b.order| && b.order[j] == y;
      assert SameCell(b', 0, j + 1);
    } else if Once(b) {
      forall i: nat, j: nat | i < j < |b'.order| ensures !SameCell(b', i, j) {
        assert i > 0 ==> !SameCell(b, i - 1, j - 1);
        assert b'.order[j] == b.order[j - 1] && b.order[j - 1] in b.order;
      }
    } else {
      var i: nat, j: nat :| i < j < |b.order| && SameCell(b, i, j);
      assert SameCell(b', i + 1, j + 1);
    }
  }

  lemma OnceAfterRm<T>(b: Book<T>, b': Book<T>, i: nat)
    requires i < |b.order| && b'.order == b.order[..i] + b.order[i + 1..] && b'.cell == b.cell && Once(b)
    ensures Once(b')
  {
    forall j: nat, k: nat | j < k < |b'.order| ensures !SameCell(b', j, k) {
      assert !SameCell(b, if j < i then j else j + 1, if k < i then k else k + 1);
    }
  }

  method LinkOut(l: Link, head: Link, ghost order: seq<Link>, ghost i: nat, ghost k: Links) returns (ghost k': Links)
    requires Mirrored(k) && Circle(k, [head] + order) && i < |order| && order[i] == l
    modifies k.Keys`next, k.Keys`prev
    ensures Mirrored(k') && k'.Keys == k.Keys && Circle(k', [head] + (order[..i] + order[i + 1..]))
    ensures l !in order[..i] + order[i + 1..]
  {
    OrderWithout(head, order, i);
    k' := ListRm(l, k, [head] + order, i + 1);
  }

  lemma OrderWithout(head: Link, order: seq<Link>, i: nat)
    requires i < |order| && Distinct([head] + order)
    ensures Without([head] + order, i + 1) == [head] + (order[..i] + order[i + 1..])
    ensures order[i] !in order[..i] + order[i + 1..]
  {
    TailDistinct(head, order);
  }

  /** A registration ends; the pointer variable keeps its value and may be registered again. */
  method Unregister<T>(l: Link, ghost i: nat, head: Link, ghost arr: array?<T>, ghost len: nat, ghost b: Book<T>)
    returns (ghost b': Book<T>)
    requires BookOk(b, head, arr, len) && i < |b.order| && b.order[i] == l && l in b.cell
    modifies b.links.Keys`next, b.links.Keys`prev
    ensures BookOk(b', head, arr, len) && b'.order == b.order[..i] + b.order[i + 1..]
    ensures b'.cell == b.cell && b'.index == b.index && b'.cells == b.cells && b'.links.Keys == b.links.Keys
    ensures l !in b'.order
  {
    ghost var k := LinkOut(l, head, b.order, i, b.links);
    assert PtrOk(b, arr, len, l);
    b' := Book(b.order[..i] + b.order[i + 1..], k, b.cell, b.cells, b.index);
    forall y | y in b'.order ensures PtrOk(b', arr, len, y) {
      assert PtrOk(b, arr, len, y);
    }
  }

  lemma AllNamed<T>(b: Book<T>, head: Link, arr: array?<T>, len: nat)
    requires BookOk(b, head, arr, len)
    ensures forall l :: l in b.order ==> l in b.cell && l in b.links
  {
    forall l | l in b.order ensures l in b.cell {
      assert PtrOk(b, arr, len, l);
    }
  }

  lemma Longer<T>(b: Book<T>, head: Link, arr: array?<T>, len: nat)
    requires BookOk(b, head, arr, len)
    ensures BookOk(b, head, arr, len + 1)
  {
    forall l | l in b.order ensures PtrOk(b, arr, len + 1, l) {
      assert PtrOk(b, arr, len, l);
    }
  }

  /** push on the fields of an array. */
  method PushIn<T(0)>(v: Variant, head: Link, arr: array<T>, cap: nat, len: nat, ghost b: Book<T>, x: T)
    returns (out: Outcome, arr': array?<T>, cap': nat)
    requires Stored(b, head, arr, cap, len)
    modifies arr, b.cells
    ensures out.Pushed? <==> len < cap || (v.Repaired? && Once(b))
    ensures out.StrayPointer? <==> len == cap && !Once(b)
    ensures out.Pushed? ==> Stored(b, head, arr', cap', len + 1) && arr'[..len + 1] == old(arr[..len]) + [x]
    ensures cap' == if len < cap then cap else 2 * cap
    ensures out.Pushed? ==> if len < cap then arr' == arr else fresh(arr')
    ensures out.NullStore? ==> arr' == null
  {
    out, arr', cap' := Pushed, arr, cap;
    if len == cap {
      var ok;
      ghost var moved;
      ok, arr', cap', moved := Grow(v, head, arr, cap, len, b);
      if !ok {
        out := StrayPointer;
        return;
      }
      if arr' == null {
        out := NullStore;
        return;
      }
      assert arr'[..len] == arr[..];
    }
    arr'[len] := x;
    Longer(b, head, arr', len);
    assert arr'[..len + 1] == old(arr[..len]) + [x];
  }

  class Darr<T(0)> {
    const head: Link
    var cap: nat
    var len: nat
    var arr: array?<T>
    ghost var book: Book<T>

    ghost predicate Valid()
      reads this, book.links.Keys, book.cells
    {
      Stored(book, head, arr, cap, len)
    }

    ghost function Contents(): seq<T>
      requires Valid()
      reads this, book.links.Keys, book.cells, arr
    {
      arr[..len]
    }

    constructor ()
      ensures Valid() && Contents() == [] && cap == CAP_INIT && book.order == []
      ensures fresh(arr) && fresh(book.links.Keys) && book.cells == {}
    {
      var h := new Link();
      head := h;
      cap, len := CAP_INIT, 0;
      arr := new T[CAP_INIT];
      book := Book([], map[h := Ends(h, h)], map[], {}, map[]);
      new;
      assert JoinedAt(book.links, [head] + book.order, 0);
    }

    /** The element joins at the end, and every registered pointer still names the position it
        was registered with, even when the array moved. When it has to move, that is so exactly
        when no pointer variable is registered twice and, as written, never: then the element is
        stored through a null pointer. */
    method Push(v: Variant, x: T) returns (out: Outcome)
      requires Valid()
      modifies this, arr, book.cells
      ensures out.Pushed? <==> old(len) < old(cap) || (v.Repaired? && Once(old(book)))
      ensures out.StrayPointer? <==> old(len) == old(cap) && !Once(old(book))
      ensures out.Pushed? ==> Valid() && Contents() == old(Contents()) + [x] && book == old(book)
      ensures out.Pushed? ==> cap == (if old(len) < old(cap) then old(cap) else 2 * old(cap))
      ensures out.Pushed? ==> if old(len) < old(cap) then arr == old(arr) else fresh(arr)
      ensures out.NullStore? ==> arr == null
    {
      out, arr, cap := PushIn(v, head, arr, cap, len, book, x);
      if out.Pushed? {
        len := len + 1;
      }
    }

    /** What a registered pointer reads. */
    lemma Reads(l: Link)
      requires Valid() && l in book.order
      ensures l in book.cell && l in book.index && book.index[l] < len
      ensures book.cell[l].arr == arr && book.cell[l].at == book.index[l]
      ensures arr[book.cell[l].at] == Contents()[book.index[l]]
    {
      assert PtrOk(book, arr, len, l);
    }

    /** The variable may be registered already; from then on the array must not grow. */
    method AddPtr(c: Cell<T>) returns (l: Link)
      requires Valid() && c.arr == arr && c.at < len
      modifies this`book, book.links.Keys`next, book.links.Keys`prev
      ensures Valid() && Contents() == old(Contents()) && fresh(l) && book.order == [l] + old(book.order)
      ensures book.cell == old(book.cell)[l := c] && book.index == old(book.index)[l := c.at]
      ensures book.cells == old(book.cells) + {c} && book.links.Keys == old(book.links.Keys) + {l}
      ensures Once(book) <==> Once(old(book)) && !Registered(old(book), c)
    {
      ghost var was, b := book, book;
      AllNamed(was, head, arr, len);
      l, b := Register(c, head, arr, len, book);
      OnceAfterAdd(was, b, l, c);
      book := b;
    }

    method RmPtr(l: Link, ghost i: nat)
      requires Valid() && i < |book.order| && book.order[i] == l && l in book.cell
      modifies this`book, book.links.Keys`next, book.links.Keys`prev
      ensures Valid() && Contents() == old(Contents())
      ensures book.order == old(book.order[..i] + book.order[i + 1..]) && l !in book.order
      ensures book.cell == old(book.cell) && book.index == old(book.index)
      ensures book.cells == old(book.cells) && book.links.Keys == old(book.links.Keys)
      ensures Once(old(book)) ==> Once(book)
    {
      ghost var was := book;
      ghost var b := Unregister(l, i, head, arr, len, book);
      if Once(was) {
        OnceAfterRm(was, b, i);
      }
      book := b;
    }
  }

  /** An array as full as it can be without growing. */
  method Filled<T(0)>(v: Variant, x: T) returns (d: Darr<T>)
    ensures d.Valid() && d.len == d.cap == CAP_INIT && d.book.order == [] && d.book.cells == {}
    ensures fresh(d) && fresh(d.arr) && fresh(d.book.links.Keys)
  {
    d := new Darr<T>();
    while d.len < CAP_INIT
      invariant d.Valid() && d.cap == CAP_INIT && d.len <= CAP_INIT && d.book.order == [] && d.book.cells == {}
      invariant fresh(d) && fresh(d.arr) && fresh(d.book.links.Keys)
      decreases CAP_INIT - d.len
    {
      var out := d.Push(v, x);
    }
  }

  /** As written, the first push beyond the initial capacity stores through a null pointer. */
  method WrittenPushFails<T(0)>(x: T) returns (out: Outcome)
    ensures out == NullStore
  {
    var d := Filled(AsWritten, x);
    out := d.Push(AsWritten, x);
  }

  method RegisterTwice<T(0)>(d: Darr<T>)
    requires d.Valid() && d.len > 0
    modifies d`book, d.book.links.Keys`next, d.book.links.Keys`prev
    ensures d.Valid() && !Once(d.book) && d.len == old(d.len) && d.cap == old(d.cap)
    ensures forall c :: c in d.book.cells ==> c in old(d.book.cells) || fresh(c)
  {
    var c := new Cell<T>(d.arr, 0);
    var l := d.AddPtr(c);
    assert l in d.book.order && d.book.cell[l] == c;
    l := d.AddPtr(c);
  }

  /** Even repaired, growing fails once a pointer variable is registered twice. */
  method TwiceFails<T(0)>(x: T) returns (out: Outcome)
    ensures out == StrayPointer
  {
    var d := Filled(Repaired, x);
    RegisterTwice(d);
    out := d.Push(Repaired, x);
  }
}
