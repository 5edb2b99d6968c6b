/** The put as it is written, without the mutex: exactly which steps of a run do harm. */
module SlabTabWritten {
  import opened SlabTab

  ghost predicate Reaches(v: Variant, s: State, s': State) {
    exists tr :: Run(v, tr) && tr[0] == s && tr[|tr| - 1] == s'
  }

  /** By steps of the written program none of which is a hazard. */
  ghost predicate CarefullyReaches(s: State, s': State) {
    exists tr :: Careful(AsWritten, tr) && tr[0] == s && tr[|tr| - 1] == s'
  }

  /** Nothing goes wrong from here on unless another hazard is taken. */
  ghost predicate Harmless(s: State) {
    forall s' {:trigger CarefullyReaches(s, s')} :: CarefullyReaches(s, s') ==> Good(s')
  }

  // ----- without a hazard nothing goes wrong --------------------------------

  lemma {:induction false} CarefulKeeps(tr: seq<State>, i: nat)
    requires Careful(AsWritten, tr) && Inv(AsWritten, tr[0]) && i < |tr|
    ensures Inv(AsWritten, tr[i])
  {
    if i > 0 {
      CarefulKeeps(tr, i - 1);
      assert CarefulAt(AsWritten, tr, i - 1);
      var s := tr[i - 1];
      var t: nat, mv :| t < |s.ts| && After(AsWritten, s, t, mv) == Some(tr[i]) && !Hazard(s, t);
      StepInv(AsWritten, s, t, mv, tr[i]);
    }
  }

  lemma InvHarmless(s: State)
    requires Inv(AsWritten, s)
    ensures Harmless(s)
  {
    forall s' | CarefullyReaches(s, s') ensures Good(s') {
      var tr :| Careful(AsWritten, tr) && tr[0] == s && tr[|tr| - 1] == s';
      CarefulKeeps(tr, |tr| - 1);
      InvGood(AsWritten, s');
    }
  }

  lemma CarefulIsReach(s: State, s': State)
    requires CarefullyReaches(s, s')
    ensures Reaches(AsWritten, s, s')
  {
    var tr :| Careful(AsWritten, tr) && tr[0] == s && tr[|tr| - 1] == s';
    forall i: nat | i + 1 < |tr| ensures StepAt(AsWritten, tr, i) {
      assert CarefulAt(AsWritten, tr, i);
    }
    assert Run(AsWritten, tr);
  }

  lemma CarefulStart(s: State)
    ensures CarefullyReaches(s, s)
  {
    assert Careful(AsWritten, [s]);
  }

  lemma CarefulNext(s: State, s1: State, t: nat, mv: Move, s2: State)
    requires CarefullyReaches(s, s1) && t < |s1.ts| && After(AsWritten, s1, t, mv) == Some(s2) && !Hazard(s1, t)
    ensures CarefullyReaches(s, s2)
  {
    var tr :| Careful(AsWritten, tr) && tr[0] == s && tr[|tr| - 1] == s1;
    var tr' := tr + [s2];
    forall i: nat | i + 1 < |tr'| ensures CarefulAt(AsWritten, tr', i) {
      if i + 1 < |tr| {
        assert tr'[i] == tr[i] && tr'[i + 1] == tr[i + 1];
        assert CarefulAt(AsWritten, tr, i);
      } else {
        assert tr'[i] == s1 && tr'[i + 1] == s2;
      }
    }
    assert Careful(AsWritten, tr') && tr'[0] == s && tr'[|tr'| - 1] == s2;
  }

  // ----- every hazard does harm ---------------------------------------------

  /** Two threads moving the stack at once, each still knowing what it read; no other one is. */
  ghost predicate Collide(s: State, t: nat, u: nat) {
    && Conserved(s) && t < |s.ts| && u < |s.ts| && t != u
    && LocalOk(s, s.ts[t].pc) && LocalOk(s, s.ts[u].pc)
    && forall q :: 0 <= q < |s.ts| && q != t && q != u ==> !Moves(s.ts[q].pc)
  }

  /** A put stores its object, while another thread is moving the stack as well. */
  lemma StoreAmid(s: State, p: nat, q: nat) returns (s': State)
    requires Collide(s, p, q) && s.ts[p].pc.PutStore?
    ensures s.fp < |s.free| && After(AsWritten, s, p, Go(0)) == Some(s')
    ensures var x := s.ts[p].pc.obj;
            s' == s.(ts := s.ts[p := s.ts[p].(pc := PutInc(x, s.fp))], free := s.free[s.fp := x])
    ensures !s.ts[q].pc.GetRead? ==> Conserved(s')
    ensures CarefullyReaches(s, s')
  {
    var x := s.ts[p].pc.obj;
    RoomToPut(s, p, x);
    s' := After(AsWritten, s, p, Go(0)).value;
    if !s.ts[q].pc.GetRead? {
      assert NobodyReads(s);
      StepConserved(AsWritten, s, p, Go(0), s');
    }
    CarefulStart(s);
    CarefulNext(s, s, p, Go(0), s');
  }

  /** A get reads the slot that a put has just overwritten: two threads have the object. */
  lemma ReadDoubles(s: State, g: nat, p: nat) returns (s': State)
    requires Collide(s, g, p) && s.ts[g].pc.GetRead? && s.ts[p].pc.PutStore?
    ensures CarefullyReaches(s, s') && !Good(s')
  {
    assert Collide(s, p, g);
    s' := StoreAmid(s, p, g);
    var x := s.ts[p].pc.obj;
    assert s'.ts[g] == s.ts[g] && s'.ts[p].pc == PutInc(x, s.fp);
    if g < p { TwoOwners(s'.ts, s'.free, g, p, x); } else { TwoOwners(s'.ts, s'.free, p, g, x); }
    assert OnStack(s'.free, s'.fp, x) + WithThreads(s'.ts, s'.free, x) >= 2;
  }

  /** A get lowers the pointer it read before a put raised it: the object put back is gone. */
  lemma DecLoses(s: State, g: nat, p: nat) returns (s': State)
    requires Collide(s, g, p) && s.ts[g].pc.GetDec? && s.ts[p].pc.PutInc?
    ensures CarefullyReaches(s, s') && !Good(s')
  {
    var s1 := After(AsWritten, s, p, Go(0)).value;
    StepConserved(AsWritten, s, p, Go(0), s1);
    CarefulStart(s);
    CarefulNext(s, s, p, Go(0), s1);
    assert s1.ts[g] == s.ts[g];
    s' := LowerLoses(s1, g);
    CarefulNext(s, s1, g, Go(0), s');
  }

  /** A get lowers the pointer by two, over an object it does not take. */
  lemma LowerLoses(s: State, g: nat) returns (s': State)
    requires Conserved(s) && g < |s.ts| && s.ts[g].pc.GetDec? && s.ts[g].pc.r == s.fp - 1 >= 1
    ensures After(AsWritten, s, g, Go(0)) == Some(s') && !Conserved(s')
  {
    var x := s.free[s.fp - 1];
    s' := After(AsWritten, s, g, Go(0)).value;
    TopIsOnlyThere(s, x);
    WithUpdate(s.ts, g, s'.ts[g], s.free, x);
    assert OnStack(s'.free, s'.fp, x) + WithThreads(s'.ts, s'.free, x) == 0;
  }

  lemma TopIsOnlyThere(s: State, x: Obj)
    requires Conserved(s) && s.fp >= 2 && s.free[s.fp - 1] == x
    ensures x < |s.free| && WithThreads(s.ts, s.free, x) == 0
    ensures OnStack(s.free, s.fp - 2, x) == 0 && s.free[s.fp - 2] != x
  {
    assert OnStack(s.free, s.fp, x) + WithThreads(s.ts, s.free, x) == if x < |s.free| then 1 else 0;
    assert OnStack(s.free, s.fp, x) == OnStack(s.free, s.fp - 1, x) + 1;
    assert OnStack(s.free, s.fp - 1, x) == OnStack(s.free, s.fp - 2, x) + if s.free[s.fp - 2] == x then 1 else 0;
  }

  /** A put stores over the object another put has stored and not yet covered. */
  lemma StoreLoses(s: State, q: nat, p: nat) returns (s': State)
    requires Collide(s, q, p) && s.ts[q].pc.PutInc? && s.ts[p].pc.PutStore?
    ensures CarefullyReaches(s, s') && !Good(s')
  {
    assert Collide(s, p, q);
    var s1 := StoreAmid(s, p, q);
    assert s1.ts[q] == s.ts[q];
    SoleOwner(s, q, s.ts[q].pc.obj);
    assert Has(s.ts[p], s.free, s.ts[p].pc.obj) > 0;
    s' := RaiseLoses(s1, q);
    CarefulNext(s, s1, q, Go(0), s');
  }

  /** A put raises the pointer over an object that is not its own. */
  lemma RaiseLoses(s: State, q: nat) returns (s': State)
    requires Conserved(s) && q < |s.ts| && s.ts[q].pc.PutInc? && s.ts[q].pc.r == s.fp < |s.free|
    requires s.free[s.fp] != s.ts[q].pc.obj
    ensures After(AsWritten, s, q, Go(0)) == Some(s') && !Conserved(s')
  {
    var y := s.ts[q].pc.obj;
    s' := After(AsWritten, s, q, Go(0)).value;
    WithUpdate(s.ts, q, s'.ts[q], s.free, y);
    assert OnStack(s.free, s.fp, y) + WithThreads(s.ts, s.free, y) == 1;
    assert OnStack(s'.free, s'.fp, y) == OnStack(s.free, s.fp, y);
  }

  lemma CarefulTrans(a: State, b: State, c: State)
    requires CarefullyReaches(a, b) && CarefullyReaches(b, c)
    ensures CarefullyReaches(a, c)
  {
    var tr :| Careful(AsWritten, tr) && tr[0] == a && tr[|tr| - 1] == b;
    var tr2 :| Careful(AsWritten, tr2) && tr2[0] == b && tr2[|tr2| - 1] == c;
    Follows(tr, tr2);
  }

  /** A careful run, continued by a careful run. */
  lemma Follows(tr: seq<State>, tr2: seq<State>)
    requires Careful(AsWritten, tr) && Careful(AsWritten, tr2) && tr[|tr| - 1] == tr2[0]
    ensures Careful(AsWritten, tr + tr2[1..])
  {
    var all := tr + tr2[1..];
    forall i: nat | i + 1 < |all| ensures CarefulAt(AsWritten, all, i) {
      if i + 1 < |tr| {
        assert all[i] == tr[i] && all[i + 1] == tr[i + 1];
        assert CarefulAt(AsWritten, tr, i);
      } else {
        var j := i + 1 - |tr|;
        assert all[i] == tr2[j] && all[i + 1] == tr2[j + 1];
        assert CarefulAt(AsWritten, tr2, j);
      }
    }
  }

  /** Whoever the two are, an object is lost or doubled. */
  lemma CollisionHarms(s: State, t: nat, u: nat) returns (s': State)
    requires Collide(s, t, u) && Moves(s.ts[t].pc) && Moves(s.ts[u].pc)
    requires s.ts[t].pc.PutStore? || (s.ts[t].pc.GetDec? && (s.ts[u].pc.PutStore? || s.ts[u].pc.PutInc?))
    ensures CarefullyReaches(s, s') && !Good(s')
  {
    assert Collide(s, u, t);
    var a, b := s.ts[t].pc, s.ts[u].pc;
    if a.GetDec? && b.PutInc? {
      s' := DecLoses(s, t, u);
    } else if a.PutStore? && b.GetRead? {
      s' := ReadDoubles(s, u, t);
    } else if a.PutStore? && b.PutInc? {
      s' := StoreLoses(s, u, t);
    } else if a.PutStore? {
      var s1 := StoreAmid(s, t, u);
      if b.GetDec? { s' := DecLoses(s1, u, t); } else { s' := StoreLoses(s1, t, u); }
      CarefulTrans(s, s1, s');
    } else {
      var s1 := StoreAmid(s, u, t);
      s' := DecLoses(s1, t, u);
      CarefulTrans(s, s1, s');
    }
  }

  /** A thread reads the stack pointer while another is moving it. */
  lemma LoadHarms(s: State, t: nat, mv: Move, s1: State) returns (s': State)
    requires Inv(AsWritten, s) && t < |s.ts| && After(AsWritten, s, t, mv) == Some(s1)
    requires (s.ts[t].pc.GetLoad? || s.ts[t].pc.PutLoad?) && SomeMoves(s)
    ensures CarefullyReaches(s1, s') && !Good(s')
  {
    var u :| 0 <= u < |s.ts| && Moves(s.ts[u].pc);
    StepConserved(AsWritten, s, t, mv, s1);
    forall q | 0 <= q < |s.ts| && q != t && q != u ensures !Moves(s1.ts[q].pc) {
      OthersRest(s, u, q);
    }
    assert s1.ts[u] == s.ts[u];
    assert Collide(s1, t, u);
    s' := CollisionHarms(s1, t, u);
  }

  /** The signal is sent before the thread it is meant for has gone to sleep. */
  lemma VainSignalHarms(s: State, t: nat, mv: Move, s1: State) returns (s': State)
    requires Inv(AsWritten, s) && t < |s.ts| && After(AsWritten, s, t, mv) == Some(s1)
    requires s.ts[t].pc.PutSignal? && !SomeAsleep(s) && SomeDozes(s) && Rousers(s.ts) == s.fp
    ensures CarefullyReaches(s1, s') && !Good(s')
  {
    var w :| 0 <= w < |s.ts| && s.ts[w].pc.GetSleep?;
    s' := After(AsWritten, s1, w, Go(0)).value;
    RousersUpdate(s.ts, t, s1.ts[t]);
    RousersUpdate(s1.ts, w, s'.ts[w]);
    assert s'.ts[w].pc.Asleep?;
    CarefulStart(s1);
    CarefulNext(s1, s1, w, Go(0), s');
  }

  /** From a state the written program reaches without a hazard, the next step is harmless if
      and only if it is not one: after a hazard the threads concerned need only go on, with no
      other hazard, to lose or double an object or to forget a sleeper. */
  lemma WrittenStepExact(s: State, t: nat, mv: Move, s1: State)
    requires Inv(AsWritten, s) && t < |s.ts| && After(AsWritten, s, t, mv) == Some(s1)
    ensures Harmless(s1) <==> !Hazard(s, t)
  {
    if !Hazard(s, t) {
      StepInv(AsWritten, s, t, mv, s1);
      InvHarmless(s1);
    } else if s.ts[t].pc.PutSignal? {
      var s' := VainSignalHarms(s, t, mv, s1);
    } else {
      var s' := LoadHarms(s, t, mv, s1);
    }
  }

  /** A run of the written program that has a hazard has a first one. */
  lemma {:induction false} FirstHazard(tr: seq<State>, n: nat) returns (i: nat, t: nat, mv: Move)
    requires Run(AsWritten, tr) && n <= |tr| && !Careful(AsWritten, tr[..n]) && n > 0
    ensures i + 1 < n && Careful(AsWritten, tr[..i + 1])
    ensures t < |tr[i].ts| && After(AsWritten, tr[i], t, mv) == Some(tr[i + 1]) && Hazard(tr[i], t)
  {
    if n > 1 && !Careful(AsWritten, tr[..n - 1]) {
      i, t, mv := FirstHazard(tr, n - 1);
    } else {
      i := n - 2;
      assert StepAt(AsWritten, tr, i);
      t, mv :| t < |tr[i].ts| && After(AsWritten, tr[i], t, mv) == Some(tr[i + 1]);
      if !Hazard(tr[i], t) {
        forall j: nat | j + 1 < n ensures CarefulAt(AsWritten, tr[..n], j) {
          assert j + 1 < n - 1 ==> CarefulAt(AsWritten, tr[..n - 1], j);
        }
      }
    }
  }

  /** For every run of the written program from the start, with any number of threads: no
      state of it is one from which things go wrong by themselves, if and only if it takes no
      hazard. Every state of a run without one is good; a run with one can go on to a state
      that is not. */
  lemma WrittenRunExact(tr: seq<State>, size: nat)
    requires Run(AsWritten, tr) && Init(tr[0], size)
    ensures Careful(AsWritten, tr) <==> forall i {:trigger tr[i]} :: 0 <= i < |tr| ==> Harmless(tr[i])
    ensures Careful(AsWritten, tr) ==> forall i :: 0 <= i < |tr| ==> Good(tr[i])
    ensures !Careful(AsWritten, tr) ==> exists i, s :: 0 <= i < |tr| && Reaches(AsWritten, tr[i], s) && !Good(s)
  {
    InitInv(AsWritten, tr[0], size);
    if Careful(AsWritten, tr) {
      forall i | 0 <= i < |tr| ensures Harmless(tr[i]) && Good(tr[i]) {
        CarefulKeeps(tr, i);
        InvHarmless(tr[i]);
        InvGood(AsWritten, tr[i]);
      }
    } else {
      assert tr[..|tr|] == tr;
      var i, t, mv := FirstHazard(tr, |tr|);
      CarefulKeeps(tr[..i + 1], i);
      WrittenStepExact(tr[i], t, mv, tr[i + 1]);
      var s :| CarefullyReaches(tr[i + 1], s) && !Good(s);
      CarefulIsReach(tr[i + 1], s);
    }
  }

  // ----- two runs that fail -------------------------------------------------

  lemma ReachesNext(v: Variant, s: State, s1: State, t: nat, mv: Move, s2: State)
    requires Reaches(v, s, s1) && t < |s1.ts| && After(v, s1, t, mv) == Some(s2)
    ensures Reaches(v, s, s2)
  {
    var tr :| Run(v, tr) && tr[0] == s && tr[|tr| - 1] == s1;
    assert Step(v, s1, s2);
    var tr' := tr + [s2];
    forall i: nat | i + 1 < |tr'| ensures StepAt(v, tr', i) {
      assert i + 1 < |tr| ==> StepAt(v, tr, i);
    }
    assert Run(v, tr') && tr'[0] == s && tr'[|tr'| - 1] == s2;
  }

  lemma {:induction false} GoesReach(v: Variant, s0: State, s: State, t: nat, u: nat, n: nat, s': State)
    requires Reaches(v, s0, s) && Goes(v, s, t, u, n) == Some(s')
    ensures Reaches(v, s0, s')
    decreases n
  {
    if n > 0 {
      var s1 := After(v, s, t, Go(u)).value;
      ReachesNext(v, s0, s, t, Go(u), s1);
      GoesReach(v, s0, s1, t, u, n - 1, s');
    }
  }

  /** A get that nothing interrupts takes the top of the stack. */
  lemma GetAtOnce(v: Variant, s: State, s1: State, t: nat) returns (s': State)
    requires Reaches(v, s, s1) && t < |s1.ts| && s1.ts[t].pc.Idle? && s1.mutex == FREE && 0 < s1.fp <= |s1.free|
    ensures s' == s1.(ts := s1.ts[t := Thread(Idle, s1.ts[t].held + multiset{s1.free[s1.fp - 1]})], fp := s1.fp - 1)
    ensures Reaches(v, s, s')
  {
    var a := Goto(s1, t, GetLock);
    ReachesNext(v, s, s1, t, Get, a);
    s' := GetTakes(v, a, t);
    GoesReach(v, s, a, t, 0, 6, s');
    assert s'.ts == s1.ts[t := Thread(Idle, s1.ts[t].held + multiset{s1.free[s1.fp - 1]})];
  }

  lemma Steps(v: Variant, s0: State, s: State, t: nat, mv: Move) returns (s': State)
    requires Reaches(v, s0, s) && t < |s.ts| && After(v, s, t, mv).Some?
    ensures s' == After(v, s, t, mv).value && Reaches(v, s0, s')
  {
    s' := After(v, s, t, mv).value;
    ReachesNext(v, s0, s, t, mv, s');
  }

  /** A put between the failed test and the sleep: the object is free, the other thread sleeps,
      and nobody is left who could move. */
  lemma WrittenLosesWakeup() returns (s0: State, s: State)
    ensures Init(s0, 1) && Reaches(AsWritten, s0, s)
    ensures SomeAsleep(s) && s.fp == 1 && forall t: nat, u :: t < |s.ts| ==> After(AsWritten, s, t, Go(u)) == None
  {
    var idle := Thread(Idle, multiset{});
    s0 := State([idle, idle], FREE, Pool(1), 1);
    assert Run(AsWritten, [s0]);
    s := GetAtOnce(AsWritten, s0, s0, 0);
    s := Steps(AsWritten, s0, s, 1, Get);
    s := Steps(AsWritten, s0, s, 1, Go(0));
    s := Steps(AsWritten, s0, s, 1, Go(0));
    s := PutWhileTesting(s0, s);
    assert s.ts[1].pc.Asleep?;
  }

  lemma PutWhileTesting(s0: State, d: State) returns (s: State)
    requires |d.ts| == 2 && d.ts[0] == Thread(Idle, multiset{0}) && d.ts[1].pc.GetSleep?
    requires d.mutex == 1 && |d.free| == 1 && d.fp == 0 && Reaches(AsWritten, s0, d)
    ensures |s.ts| == 2 && s.ts[0].pc.Idle? && s.ts[1].pc.Asleep? && s.fp == 1 && Reaches(AsWritten, s0, s)
  {
    s := Steps(AsWritten, s0, d, 0, Put(0));
    s := Steps(AsWritten, s0, s, 0, Go(0));
    s := Steps(AsWritten, s0, s, 0, Go(0));
    s := Steps(AsWritten, s0, s, 0, Go(0));
    assert !SomeAsleep(s);
    s := Steps(AsWritten, s0, s, 0, Go(0));
    s := Steps(AsWritten, s0, s, 1, Go(0));
  }

  /** Two puts at once: both store in the same slot, and one object is gone for good. */
  lemma WrittenLosesObject() returns (s0: State, s: State)
    ensures Init(s0, 2) && Reaches(AsWritten, s0, s)
    ensures s.fp == 1 && forall t :: 0 <= t < |s.ts| ==> s.ts[t] == Thread(Idle, multiset{})
  {
    var idle := Thread(Idle, multiset{});
    s0 := State([idle, idle], FREE, Pool(2), 2);
    assert Run(AsWritten, [s0]);
    s := GetAtOnce(AsWritten, s0, s0, 0);
    s := GetAtOnce(AsWritten, s0, s, 1);
    s := TornStores(s0, s);
    s := TornEnd(s0, s);
  }

  lemma TornStores(s0: State, b: State) returns (s: State)
    requires |b.ts| == 2 && b.ts[0] == Thread(Idle, multiset{1}) && b.ts[1] == Thread(Idle, multiset{0})
    requires b.mutex == FREE && |b.free| == 2 && b.fp == 0 && Reaches(AsWritten, s0, b)
    ensures s.ts == [Thread(PutInc(1, 0), multiset{}), Thread(PutInc(0, 0), multiset{})] && Reaches(AsWritten, s0, s)
  {
    s := Steps(AsWritten, s0, b, 0, Put(1));
    s := Steps(AsWritten, s0, s, 1, Put(0));
    s := Steps(AsWritten, s0, s, 0, Go(0));
    s := Steps(AsWritten, s0, s, 1, Go(0));
    s := Steps(AsWritten, s0, s, 0, Go(0));
    s := Steps(AsWritten, s0, s, 1, Go(0));
  }

  lemma TornEnd(s0: State, h: State) returns (s: State)
    requires h.ts == [Thread(PutInc(1, 0), multiset{}), Thread(PutInc(0, 0), multiset{})] && Reaches(AsWritten, s0, h)
    ensures |s.ts| == 2 && s.ts[0] == s.ts[1] == Thread(Idle, multiset{}) && s.fp == 1 && Reaches(AsWritten, s0, s)
  {
    s := Steps(AsWritten, s0, h, 0, Go(0));
    s := Steps(AsWritten, s0, s, 1, Go(0));
    assert !SomeAsleep(s);
    s := Steps(AsWritten, s0, s, 0, Go(0));
    assert !SomeAsleep(s);
    s := Steps(AsWritten, s0, s, 1, Go(0));
  }
}
