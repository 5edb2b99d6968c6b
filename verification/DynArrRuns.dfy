/** Whole runs of pushes, registrations and removals on a growing array. */
module DynArrRuns {
  import opened DynArr
  import opened LinkedList

  /** Variables have numbers; a variable is pointed at a position as it is registered. */
  datatype Op<T> = Push(x: T) | Register(v: nat, at: nat) | Remove(v: nat)

  /** The elements, and of each registered variable the position it was registered with. */
  datatype Plan<T> = Plan(contents: seq<T>, at: map<nat, nat>)

  /** A variable is registered only while it is not, with a position in use, and removed only
      while it is. */
  predicate Legal<T>(p: Plan<T>, op: Op<T>, vars: nat) {
    match op
    case Push(_) => true
    case Register(v, at) => v < vars && v !in p.at && at < |p.contents|
    case Remove(v) => v in p.at
  }

  function Next<T>(p: Plan<T>, op: Op<T>): Plan<T> {
    match op
    case Push(x) => p.(contents := p.contents + [x])
    case Register(v, at) => p.(at := p.at[v := at])
    case Remove(v) => p.(at := p.at - {v})
  }

  function After<T>(p: Plan<T>, ops: seq<Op<T>>): Plan<T> {
    if ops == [] then p else Next(After(p, ops[..|ops| - 1]), ops[|ops| - 1])
  }

  predicate AllLegal<T>(p: Plan<T>, ops: seq<Op<T>>, vars: nat) {
    forall i :: 0 <= i < |ops| ==> Legal(After(p, ops[..i]), ops[i], vars)
  }

  /** The registrations are those of the plan, each of its own variable. */
  ghost predicate Named<T>(b: Book<T>, vars: seq<Cell<T>>, links: map<nat, Link>, at: map<nat, nat>) {
    && links.Keys == at.Keys && Once(b)
    && (forall i, j :: 0 <= i < j < |vars| ==> vars[i] != vars[j])
    && (forall v :: v in links ==> NamedOk(b, vars, links, at, v))
    && (forall l :: l in b.order ==> exists v :: v in links && links[v] == l)
  }

  ghost predicate NamedOk<T>(b: Book<T>, vars: seq<Cell<T>>, links: map<nat, Link>, at: map<nat, nat>, v: nat)
    requires v in links && links.Keys == at.Keys
  {
    && v < |vars| && links[v] in b.order && links[v] in b.cell && links[v] in b.index
    && b.cell[links[v]] == vars[v] && b.index[links[v]] == at[v]
  }

  lemma NotRegistered<T>(b: Book<T>, vars: seq<Cell<T>>, links: map<nat, Link>, at: map<nat, nat>, v: nat)
    requires Named(b, vars, links, at) && v < |vars| && v !in links
    ensures !Registered(b, vars[v])
  {
    forall l | l in b.order && l in b.cell ensures b.cell[l] != vars[v] {
      var u :| u in links && links[u] == l;
      assert NamedOk(b, vars, links, at, u);
      assert vars[u] != vars[v];
    }
  }

  lemma NamedWith<T>(b: Book<T>, b': Book<T>, vars: seq<Cell<T>>, links: map<nat, Link>, at: map<nat, nat>, v: nat,
                     l: Link, i: nat)
    requires Named(b, vars, links, at) && v < |vars| && v !in links && l !in b.order && Once(b')
    requires b'.order == [l] + b.order && b'.cell == b.cell[l := vars[v]] && b'.index == b.index[l := i]
    ensures Named(b', vars, links[v := l], at[v := i])
  {
    var links', at' := links[v := l], at[v := i];
    forall u | u in links' ensures NamedOk(b', vars, links', at', u) {
      assert u != v ==> NamedOk(b, vars, links, at, u);
    }
    forall y | y in b'.order ensures exists u :: u in links' && links'[u] == y {
      if y == l {
        assert links'[v] == y;
      } else {
        var u :| u in links && links[u] == y;
        assert links'[u] == y;
      }
    }
  }

  lemma NamedWithout<T>(b: Book<T>, b': Book<T>, vars: seq<Cell<T>>, links: map<nat, Link>, at: map<nat, nat>, v: nat,
                        i: nat)
    requires Named(b, vars, links, at) && v in links && i < |b.order| && b.order[i] == links[v] && Once(b')
    requires b'.order == b.order[..i] + b.order[i + 1..] && b'.cell == b.cell && b'.index == b.index
    requires links[v] !in b'.order
    ensures Named(b', vars, links - {v}, at - {v})
  {
    var links', at' := links - {v}, at - {v};
    assert forall y :: y in b.order && y != links[v] ==> y in b'.order;
    forall u | u in links' ensures NamedOk(b', vars, links', at', u) {
      assert NamedOk(b, vars, links, at, u) && NamedOk(b, vars, links, at, v);
      assert vars[u] != vars[v];
    }
    forall y | y in b'.order ensures exists u :: u in links' && links'[u] == y {
      assert y in b.order;
      var u :| u in links && links[u] == y;
      assert u != v;
      assert links'[u] == y;
    }
  }

  /** A variable that is not registered may be pointed anywhere. */
  method Aim<T(0)>(d: Darr<T>, c: Cell<T>, at: nat)
    requires d.Valid() && !Registered(d.book, c)
    modifies c
    ensures d.Valid() && c.arr == d.arr && c.at == at
  {
    ghost var b := d.book;
    forall l | l in b.order ensures l in b.cell && b.cell[l] != c {
      assert PtrOk(b, d.arr, d.len, l);
    }
    c.arr, c.at := d.arr, at;
    forall l | l in b.order ensures PtrOk(b, d.arr, d.len, l) {
      assert old(PtrOk(b, d.arr, d.len, l));
    }
  }

  method RegisterVar<T(0)>(d: Darr<T>, vars: seq<Cell<T>>, v: nat, at: nat, ghost links: map<nat, Link>,
                           ghost p: Plan<T>)
    returns (l: Link)
    requires d.Valid() && Named(d.book, vars, links, p.at) && Legal(p, Register(v, at), |vars|)
    requires d.Contents() == p.contents
    modifies d`book, d.book.links.Keys`next, d.book.links.Keys`prev, vars[v]
    ensures d.Valid() && Named(d.book, vars, links[v := l], p.at[v := at]) && d.Contents() == p.contents
    ensures d.book.links.Keys == old(d.book.links.Keys) + {l} && fresh(l)
    ensures d.book.cells == old(d.book.cells) + {vars[v]}
  {
    NotRegistered(d.book, vars, links, p.at, v);
    Aim(d, vars[v], at);
    ghost var b := d.book;
    l := d.AddPtr(vars[v]);
    NamedWith(b, d.book, vars, links, p.at, v, l, at);
  }

  method RemoveVar<T(0)>(d: Darr<T>, vars: seq<Cell<T>>, v: nat, l: Link, ghost links: map<nat, Link>, ghost p: Plan<T>)
    requires d.Valid() && Named(d.book, vars, links, p.at) && v in links && links[v] == l && d.Contents() == p.contents
    modifies d`book, d.book.links.Keys`next, d.book.links.Keys`prev
    ensures d.Valid() && Named(d.book, vars, links - {v}, p.at - {v}) && d.Contents() == p.contents
    ensures d.book.links.Keys == old(d.book.links.Keys) && d.book.cells == old(d.book.cells)
  {
    assert NamedOk(d.book, vars, links, p.at, v);
    ghost var b := d.book;
    ghost var i :| 0 <= i < |b.order| && b.order[i] == l;
    d.RmPtr(l, i);
    NamedWithout(b, d.book, vars, links, p.at, v, i);
  }

  method PushElem<T(0)>(d: Darr<T>, vars: seq<Cell<T>>, x: T, ghost links: map<nat, Link>, ghost p: Plan<T>)
    returns (ok: bool)
    requires d.Valid() && Named(d.book, vars, links, p.at) && d.Contents() == p.contents
    modifies d, d.arr, d.book.cells
    ensures ok && d.Valid() && Named(d.book, vars, links, p.at) && d.Contents() == p.contents + [x]
    ensures d.book == old(d.book) && (d.arr == old(d.arr) || fresh(d.arr))
  {
    var out := d.Push(Repaired, x);
    ok := out == Pushed;
  }

  /** Every registered variable points into the array, at its position, and reads its element. */
  ghost predicate AllRead<T(0)>(d: Darr<T>, vars: seq<Cell<T>>, p: Plan<T>)
    reads d, d.arr, vars
  {
    forall v :: v in p.at ==>
      && v < |vars| && d.arr != null && vars[v].arr == d.arr && vars[v].at == p.at[v]
      && p.at[v] < d.arr.Length && p.at[v] < |p.contents| && d.arr[vars[v].at] == p.contents[p.at[v]]
  }

  lemma TheyRead<T(0)>(d: Darr<T>, vars: seq<Cell<T>>, links: map<nat, Link>, p: Plan<T>)
    requires d.Valid() && Named(d.book, vars, links, p.at) && d.Contents() == p.contents
    ensures AllRead(d, vars, p)
  {
    forall v | v in p.at ensures v < |vars| && vars[v].arr == d.arr && vars[v].at == p.at[v] && p.at[v] < d.len
                                 && d.arr[vars[v].at] == p.contents[p.at[v]]
    {
      assert NamedOk(d.book, vars, links, p.at, v);
      d.Reads(links[v]);
    }
  }

  /** The array, its registrations and the variables follow the plan. */
  ghost predicate Follows<T(0)>(d: Darr<T>, vars: seq<Cell<T>>, links: map<nat, Link>, p: Plan<T>)
    reads d, d.book.links.Keys, d.book.cells, d.arr
  {
    d.Valid() && Named(d.book, vars, links, p.at) && d.Contents() == p.contents
  }

  /** All the memory of a run. */
  ghost predicate Within<T(0)>(d: Darr<T>, vars: seq<Cell<T>>, repr: set<object>)
    reads d
  {
    && d in repr && d.arr in repr && d.book.links.Keys <= repr && d.book.cells <= repr
    && forall c :: c in vars ==> c in repr
  }

  /** One step of a run. */
  method Step<T(0)>(d: Darr<T>, vars: seq<Cell<T>>, op: Op<T>, links: map<nat, Link>, ghost p: Plan<T>,
                    ghost repr: set<object>)
    returns (ok: bool, links': map<nat, Link>, ghost repr': set<object>)
    requires Follows(d, vars, links, p) && Legal(p, op, |vars|) && Within(d, vars, repr)
    modifies repr
    ensures ok && Follows(d, vars, links', Next(p, op)) && Within(d, vars, repr')
    ensures repr <= repr' && fresh(repr' - repr)
  {
    repr' := repr;
    match op
    case Push(x) =>
      ok := PushElem(d, vars, x, links, p);
      links' := links;
      repr' := repr + {d.arr};
    case Register(v, at) =>
      var l := RegisterVar(d, vars, v, at, links, p);
      ok, links' := true, links[v := l];
      repr' := repr + {l};
    case Remove(v) =>
      RemoveVar(d, vars, v, links[v], links, p);
      ok, links' := true, links - {v};
  }

  method Variables<T>(n: nat) returns (vars: seq<Cell<T>>)
    ensures |vars| == n && (forall i, j :: 0 <= i < j < n ==> vars[i] != vars[j]) && forall c :: c in vars ==> fresh(c)
  {
    vars := [];
    for i := 0 to n
      invariant |vars| == i && forall j, k :: 0 <= j < k < i ==> vars[j] != vars[k]
      invariant forall c :: c in vars ==> fresh(c)
    {
      var c := new Cell<T>(null, 0);
      vars := vars + [c];
    }
  }

  lemma AfterNext<T>(p: Plan<T>, ops: seq<Op<T>>, i: nat)
    requires i < |ops|
    ensures After(p, ops[..i + 1]) == Next(After(p, ops[..i]), ops[i])
  {
    assert ops[..i + 1][..i] == ops[..i];
  }

  /** The steps one after the other. */
  method Steps<T(0)>(d: Darr<T>, vars: seq<Cell<T>>, ops: seq<Op<T>>, ghost start: Plan<T>, ghost repr: set<object>)
    returns (ok: bool, links: map<nat, Link>)
    requires Follows(d, vars, map[], start) && AllLegal(start, ops, |vars|) && Within(d, vars, repr)
    modifies repr
    ensures ok && Follows(d, vars, links, After(start, ops))
  {
    ok, links := true, map[];
    ghost var r := repr;
    for i := 0 to |ops|
      invariant ok && Follows(d, vars, links, After(start, ops[..i]))
      invariant Within(d, vars, r) && repr <= r && fresh(r - repr)
    {
      AfterNext(start, ops, i);
      var done;
      done, links, r := Step(d, vars, ops[i], links, After(start, ops[..i]), r);
      ok := ok && done;
    }
    assert ops[..|ops|] == ops;
  }

  /** Any run of pushes, registrations and removals on a new array succeeds at every step, and
      afterwards every registered variable reads the element it was registered with, however
      often the array has moved. */
  method Run<T(0)>(ops: seq<Op<T>>, n: nat) returns (ok: bool, d: Darr<T>, vars: seq<Cell<T>>)
    requires AllLegal(Plan([], map[]), ops, n)
    ensures ok && d.Valid()
    ensures var p := After(Plan([], map[]), ops);
            d.Contents() == p.contents && AllRead(d, vars, p)
  {
    vars := Variables(n);
    d := new Darr<T>();
    ghost var start: Plan<T> := Plan([], map[]);
    assert d.Contents() == start.contents;
    var links;
    ok, links := Steps(d, vars, ops, start, {d, d.arr} + d.book.links.Keys + (set c | c in vars));
    TheyRead(d, vars, links, After(start, ops));
  }
}
