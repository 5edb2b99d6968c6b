/** The shared slab allocator: any number of threads get objects from a free-pointer stack,
    sleeping while it is empty, and put them back. One step is one access to shared memory or
    one call of the mutex and condition-variable interface. */
module SlabTab {
  type Obj = nat
  type Index = int

  datatype Option<T> = None | Some(value: T)

  /** Locked takes a put while holding the mutex; AsWritten is put without it. */
  datatype Variant = Locked | AsWritten

  /** Where a thread stands. `r` is the value of the stack pointer the thread has read, and
      `signalled` says that a signal, and no other cause, ended its sleep. */
  datatype Phase =
    | Idle
    | GetLock
    | GetTest(signalled: bool)
    | GetSleep
    | Asleep
    | Woken(signalled: bool)
    | GetLoad
    | GetDec(r: Index)
    | GetRead(r: Index)
    | GetUnlock(obj: Obj)
    | PutLock(obj: Obj)
    | PutLoad(obj: Obj)
    | PutStore(obj: Obj, r: Index)
    | PutInc(obj: Obj, r: Index)
    | PutSignal
    | PutUnlock

  datatype Thread = Thread(pc: Phase, held: multiset<Obj>)

  /** `mutex` is the index of the thread that owns it, or FREE. */
  datatype State = State(ts: seq<Thread>, mutex: Index, free: seq<Obj>, fp: Index)

  const FREE: Index := -1

  /** What a thread does next: start a call, take the next step of one (a signal wakes `u`),
      or wake without being signalled. */
  datatype Move = Get | Put(obj: Obj) | Go(u: nat) | Spurious

  function Goto(s: State, t: nat, pc: Phase): State
    requires t < |s.ts|
  {
    s.(ts := s.ts[t := s.ts[t].(pc := pc)])
  }

  predicate SomeAsleep(s: State) {
    exists t :: 0 <= t < |s.ts| && s.ts[t].pc.Asleep?
  }

  /** The state after thread `t` makes a move, or None when it cannot. */
  function After(v: Variant, s: State, t: nat, mv: Move): Option<State>
    requires t < |s.ts|
  {
    var th := s.ts[t];
    if mv.Get? then
      if th.pc.Idle? then Some(Goto(s, t, GetLock)) else None
    else if mv.Put? then
      if th.pc.Idle? && mv.obj in th.held then
        var pc := if v.Locked? then PutLock(mv.obj) else PutLoad(mv.obj);
        Some(s.(ts := s.ts[t := Thread(pc, th.held - multiset{mv.obj})]))
      else None
    else if mv.Spurious? then
      if th.pc.Asleep? then Some(Goto(s, t, Woken(false))) else None
    else
      match th.pc
      case Idle => None
      case Asleep => None
      case GetLock => if s.mutex == FREE then Some(Goto(s, t, GetTest(false)).(mutex := t)) else None
      case Woken(b) => if s.mutex == FREE then Some(Goto(s, t, GetTest(b)).(mutex := t)) else None
      case GetTest(_) => Some(Goto(s, t, if s.fp == 0 then GetSleep else GetLoad))
      case GetSleep => Some(Goto(s, t, Asleep).(mutex := FREE))
      case GetLoad => Some(Goto(s, t, GetDec(s.fp)))
      case GetDec(r) => Some(Goto(s, t, GetRead(r)).(fp := r - 1))
      case GetRead(r) => if 0 < r <= |s.free| then Some(Goto(s, t, GetUnlock(s.free[r - 1]))) else None
      case GetUnlock(x) => Some(s.(ts := s.ts[t := Thread(Idle, th.held + multiset{x})], mutex := FREE))
      case PutLock(x) => if v.Locked? && s.mutex == FREE then Some(Goto(s, t, PutLoad(x)).(mutex := t)) else None
      case PutLoad(x) => Some(Goto(s, t, PutStore(x, s.fp)))
      case PutStore(x, r) =>
        if 0 <= r < |s.free| then Some(Goto(s, t, PutInc(x, r)).(free := s.free[r := x])) else None
      case PutInc(x, r) => Some(Goto(s, t, PutSignal).(fp := r + 1))
      case PutSignal =>
        var s1 := Goto(s, t, if v.Locked? then PutUnlock else Idle);
        if !SomeAsleep(s) then Some(s1)
        else if mv.u < |s.ts| && s.ts[mv.u].pc.Asleep? then Some(Goto(s1, mv.u, Woken(true)))
        else None
      case PutUnlock => if v.Locked? then Some(Goto(s, t, Idle).(mutex := FREE)) else None
  }

  ghost predicate Step(v: Variant, s: State, s': State) {
    exists t: nat, mv {:trigger After(v, s, t, mv)} :: t < |s.ts| && After(v, s, t, mv) == Some(s')
  }

  ghost predicate StepAt(v: Variant, tr: seq<State>, i: nat) {
    i + 1 < |tr| && Step(v, tr[i], tr[i + 1])
  }

  ghost predicate Run(v: Variant, tr: seq<State>) {
    |tr| > 0 && forall i: nat {:trigger StepAt(v, tr, i)} :: i + 1 < |tr| ==> StepAt(v, tr, i)
  }

  /** After slab_tab_init: every slot of the pool on the stack, every thread outside. */
  ghost predicate Init(s: State, size: nat) {
    && s.mutex == FREE && s.free == Pool(size) && s.fp == size
    && forall t :: 0 <= t < |s.ts| ==> s.ts[t] == Thread(Idle, multiset{})
  }

  function Pool(size: nat): (p: seq<Obj>)
    ensures |p| == size && forall i :: 0 <= i < size ==> p[i] == i
  {
    seq(size, i => i)
  }

  // ----- what must hold -----------------------------------------------------

  /** Between taking the mutex and giving it up. */
  predicate Critical(v: Variant, pc: Phase) {
    || pc.GetTest? || pc.GetSleep? || pc.GetLoad? || pc.GetDec? || pc.GetRead? || pc.GetUnlock?
    || (v.Locked? && (pc.PutLoad? || pc.PutStore? || pc.PutInc? || pc.PutSignal? || pc.PutUnlock?))
  }

  ghost predicate Exclusive(v: Variant, s: State) {
    && FREE <= s.mutex < |s.ts|
    && forall t {:trigger s.ts[t]} :: 0 <= t < |s.ts| ==> (Critical(v, s.ts[t].pc) <==> s.mutex == t)
  }

  /** Between reading the stack pointer and being done with the stack. */
  predicate Moves(pc: Phase) {
    pc.GetDec? || pc.GetRead? || pc.PutStore? || pc.PutInc?
  }

  predicate SomeMoves(s: State) {
    exists t :: 0 <= t < |s.ts| && Moves(s.ts[t].pc)
  }

  /** No two threads move the stack pointer at once. */
  ghost predicate Lone(s: State) {
    forall t, u :: 0 <= t < u < |s.ts| ==> !(Moves(s.ts[t].pc) && Moves(s.ts[u].pc))
  }

  /** What a thread knows about the stack at its phase. */
  ghost predicate LocalOk(s: State, pc: Phase) {
    match pc
    case GetLoad => s.fp >= 1
    case GetDec(r) => r == s.fp >= 1
    case GetRead(r) => r == s.fp + 1 <= |s.free|
    case PutStore(_, r) => r == s.fp
    case PutInc(x, r) => 0 <= r == s.fp < |s.free| && s.free[r] == x
    case _ => true
  }

  ghost predicate Locals(s: State) {
    forall t {:trigger s.ts[t]} :: 0 <= t < |s.ts| ==> LocalOk(s, s.ts[t].pc)
  }

  /** How often a thread has the object: among those it was given, or in its hands in the
      middle of a call. */
  function Has(th: Thread, free: seq<Obj>, x: Obj): nat {
    th.held[x] + if Carries(th.pc, free, x) then 1 else 0
  }

  predicate Carries(pc: Phase, free: seq<Obj>, x: Obj) {
    match pc
    case GetRead(r) => 0 < r <= |free| && free[r - 1] == x
    case GetUnlock(y) => x == y
    case PutLock(y) => x == y
    case PutLoad(y) => x == y
    case PutStore(y, _) => x == y
    case PutInc(y, _) => x == y
    case _ => false
  }

  function WithThreads(ts: seq<Thread>, free: seq<Obj>, x: Obj): nat {
    if |ts| == 0 then 0 else WithThreads(ts[..|ts| - 1], free, x) + Has(ts[|ts| - 1], free, x)
  }

  function OnStack(free: seq<Obj>, fp: Index, x: Obj): nat
    requires fp <= |free|
  {
    if fp <= 0 then 0 else OnStack(free, fp - 1, x) + if free[fp - 1] == x then 1 else 0
  }

  /** Every slot of the pool is in exactly one place: on the stack or with one thread. */
  ghost predicate Conserved(s: State) {
    && 0 <= s.fp <= |s.free|
    && forall x: Obj {:trigger WithThreads(s.ts, s.free, x)} ::
         OnStack(s.free, s.fp, x) + WithThreads(s.ts, s.free, x) == if x < |s.free| then 1 else 0
  }

  /** A thread that was signalled and has not tested the stack since, is about to take an
      object, or is about to signal. */
  predicate Rouses(pc: Phase) {
    (pc.Woken? && pc.signalled) || (pc.GetTest? && pc.signalled) || pc.GetLoad? || pc.GetDec? || pc.PutSignal?
  }

  function Rousers(ts: seq<Thread>): nat {
    if |ts| == 0 then 0
    else Rousers(ts[..|ts| - 1]) + if Rouses(ts[|ts| - 1].pc) then 1 else 0
  }

  ghost predicate NoLostWakeup(s: State) {
    SomeAsleep(s) ==> s.fp <= Rousers(s.ts)
  }

  predicate Drowsy(pc: Phase) {
    pc.Asleep? || pc.GetSleep?
  }

  /** The same, already for a thread on its way to sleep. */
  ghost predicate WakeOk(s: State) {
    (exists t :: 0 <= t < |s.ts| && Drowsy(s.ts[t].pc)) ==> s.fp <= Rousers(s.ts)
  }

  /** What the callers are promised. */
  ghost predicate Good(s: State) {
    Conserved(s) && NoLostWakeup(s)
  }

  /** The written put never waits for the mutex nor gives it up. */
  ghost predicate Phases(v: Variant, s: State) {
    v.AsWritten? ==> forall t {:trigger s.ts[t]} :: 0 <= t < |s.ts| ==> !s.ts[t].pc.PutLock? && !s.ts[t].pc.PutUnlock?
  }

  ghost predicate Inv(v: Variant, s: State) {
    Phases(v, s) && Exclusive(v, s) && Lone(s) && Locals(s) && Conserved(s) && WakeOk(s)
  }

  // ----- the steps that can do harm -----------------------------------------

  /** Thread `t` is about to read the stack pointer while another thread is moving it, or to
      send a signal that nobody will hear: nobody sleeps yet, a thread whose test has failed is
      about to, and no one but `t` is left to rouse it for the object just put back. */
  predicate Hazard(s: State, t: nat)
    requires t < |s.ts|
  {
    var pc := s.ts[t].pc;
    || ((pc.GetLoad? || pc.PutLoad?) && SomeMoves(s))
    || (pc.PutSignal? && !SomeAsleep(s) && SomeDozes(s) && Rousers(s.ts) == s.fp)
  }

  predicate SomeDozes(s: State) {
    exists w :: 0 <= w < |s.ts| && s.ts[w].pc.GetSleep?
  }

  /** A run that takes no such step. */
  ghost predicate Careful(v: Variant, tr: seq<State>) {
    |tr| > 0 && forall i: nat {:trigger CarefulAt(v, tr, i)} :: i + 1 < |tr| ==> CarefulAt(v, tr, i)
  }

  ghost predicate CarefulAt(v: Variant, tr: seq<State>, i: nat) {
    i + 1 < |tr| && exists t: nat, mv {:trigger After(v, tr[i], t, mv)} ::
      t < |tr[i].ts| && After(v, tr[i], t, mv) == Some(tr[i + 1]) && !Hazard(tr[i], t)
  }

  /** With every put under the mutex there is no such step. */
  lemma LockedIsSafe(s: State, t: nat, mv: Move)
    requires t < |s.ts| && Exclusive(Locked, s)
    ensures !Hazard(s, t)
  {
  }

  // ----- sums over the threads ----------------------------------------------

  lemma {:induction false} WithUpdate(ts: seq<Thread>, t: nat, th: Thread, free: seq<Obj>, x: Obj)
    requires t < |ts|
    ensures WithThreads(ts[t := th], free, x) == WithThreads(ts, free, x) - Has(ts[t], free, x) + Has(th, free, x)
    ensures Has(ts[t], free, x) <= WithThreads(ts, free, x)
  {
    var n := |ts| - 1;
    if t == n {
      assert ts[t := th][..n] == ts[..n];
    } else {
      WithUpdate(ts[..n], t, th, free, x);
      assert ts[t := th][..n] == ts[..n][t := th];
    }
  }

  lemma {:induction false} WithFrame(ts: seq<Thread>, free: seq<Obj>, free': seq<Obj>, x: Obj)
    requires forall t :: 0 <= t < |ts| ==> !ts[t].pc.GetRead?
    ensures WithThreads(ts, free, x) == WithThreads(ts, free', x)
  {
    if |ts| > 0 {
      WithFrame(ts[..|ts| - 1], free, free', x);
    }
  }

  lemma {:induction false} StackFrame(free: seq<Obj>, fp: Index, r: nat, y: Obj, x: Obj)
    requires fp <= r < |free|
    ensures OnStack(free[r := y], fp, x) == OnStack(free, fp, x)
  {
    if fp > 0 {
      StackFrame(free, fp - 1, r, y, x);
    }
  }

  lemma {:induction false} RousersUpdate(ts: seq<Thread>, t: nat, th: Thread)
    requires t < |ts|
    ensures Rousers(ts[t := th]) + (if Rouses(ts[t].pc) then 1 else 0)
         == Rousers(ts) + (if Rouses(th.pc) then 1 else 0)
  {
    var n := |ts| - 1;
    if t == n {
      assert ts[t := th][..n] == ts[..n];
    } else {
      RousersUpdate(ts[..n], t, th);
      assert ts[t := th][..n] == ts[..n][t := th];
    }
  }

  // ----- every step keeps the invariant -------------------------------------

  /** A move of one thread touches another only to wake it. */
  lemma OthersStay(v: Variant, s: State, t: nat, mv: Move, s': State)
    requires t < |s.ts| && After(v, s, t, mv) == Some(s')
    ensures |s'.ts| == |s.ts| && |s'.free| == |s.free|
    ensures forall q {:trigger s'.ts[q]} :: 0 <= q < |s.ts| && q != t ==>
              s'.ts[q] == s.ts[q] || (s.ts[q].pc.Asleep? && s'.ts[q].pc.Woken?)
  {
  }

  predicate Getting(pc: Phase) {
    || pc.GetLock? || pc.Asleep? || pc.Woken? || pc.GetTest? || pc.GetSleep? || pc.GetLoad? || pc.GetDec?
    || pc.GetRead? || pc.GetUnlock?
  }

  /** The mutex is taken on entering the critical section and given up on leaving it. */
  ghost predicate MutexFollows(v: Variant, s: State, t: nat, s': State)
    requires t < |s.ts| == |s'.ts|
  {
    var before, after := Critical(v, s.ts[t].pc), Critical(v, s'.ts[t].pc);
    if before == after then s'.mutex == s.mutex
    else if after then s.mutex == FREE && s'.mutex == t
    else s'.mutex == FREE
  }

  lemma GetFollows(v: Variant, s: State, t: nat, u: nat, s': State)
    requires t < |s.ts| && Getting(s.ts[t].pc) && After(v, s, t, Go(u)) == Some(s')
    ensures |s'.ts| == |s.ts| && MutexFollows(v, s, t, s')
  {
  }

  lemma PutFollows(v: Variant, s: State, t: nat, u: nat, s': State)
    requires t < |s.ts| && !Getting(s.ts[t].pc) && After(v, s, t, Go(u)) == Some(s')
    ensures |s'.ts| == |s.ts| && MutexFollows(v, s, t, s')
  {
  }

  lemma StepFollows(v: Variant, s: State, t: nat, mv: Move, s': State)
    requires t < |s.ts| && After(v, s, t, mv) == Some(s')
    ensures |s'.ts| == |s.ts| && MutexFollows(v, s, t, s')
  {
    if mv.Go? {
      if Getting(s.ts[t].pc) { GetFollows(v, s, t, mv.u, s'); } else { PutFollows(v, s, t, mv.u, s'); }
    }
  }

  lemma StepExclusive(v: Variant, s: State, t: nat, mv: Move, s': State)
    requires t < |s.ts| && After(v, s, t, mv) == Some(s') && Exclusive(v, s)
    ensures Exclusive(v, s')
  {
    OthersStay(v, s, t, mv, s');
    StepFollows(v, s, t, mv, s');
  }

  /** Only a thread that has read the stack pointer writes it or the stack, and it begins to
      move them by reading. */
  lemma OnlyMoversWrite(v: Variant, s: State, t: nat, mv: Move, s': State)
    requires t < |s.ts| && After(v, s, t, mv) == Some(s')
    ensures |s'.ts| == |s.ts|
    ensures Moves(s.ts[t].pc) || (s'.free == s.free && s'.fp == s.fp)
    ensures Moves(s'.ts[t].pc) ==> Moves(s.ts[t].pc) || s.ts[t].pc.GetLoad? || s.ts[t].pc.PutLoad?
  {
    if mv.Go? && !Getting(s.ts[t].pc) {
      OnlyPuttersWrite(v, s, t, mv.u, s');
    }
  }

  lemma OnlyPuttersWrite(v: Variant, s: State, t: nat, u: nat, s': State)
    requires t < |s.ts| && !Getting(s.ts[t].pc) && After(v, s, t, Go(u)) == Some(s')
    ensures |s'.ts| == |s.ts|
    ensures Moves(s.ts[t].pc) || (s'.free == s.free && s'.fp == s.fp)
    ensures Moves(s'.ts[t].pc) ==> Moves(s.ts[t].pc) || s.ts[t].pc.PutLoad?
  {
  }

  lemma OthersRest(s: State, t: nat, q: nat)
    requires t < |s.ts| && q < |s.ts| && q != t && Lone(s) && Moves(s.ts[t].pc)
    ensures !Moves(s.ts[q].pc)
  {
    assert t < q || q < t;
  }

  lemma StepLone(v: Variant, s: State, t: nat, mv: Move, s': State)
    requires t < |s.ts| && After(v, s, t, mv) == Some(s') && Lone(s) && !Hazard(s, t)
    ensures Lone(s')
  {
    OthersStay(v, s, t, mv, s');
    OnlyMoversWrite(v, s, t, mv, s');
    if Moves(s'.ts[t].pc) {
      forall q | 0 <= q < |s.ts| && q != t ensures !Moves(s'.ts[q].pc) {
        assert s'.ts[q] == s.ts[q] || s'.ts[q].pc.Woken?;
        if Moves(s.ts[t].pc) {
          OthersRest(s, t, q);
        }
      }
    }
  }

  lemma StepLocals(v: Variant, s: State, t: nat, mv: Move, s': State)
    requires t < |s.ts| && After(v, s, t, mv) == Some(s') && Exclusive(v, s) && Lone(s) && Locals(s)
    requires 0 <= s.fp <= |s.free|
    ensures Locals(s')
  {
    OthersStay(v, s, t, mv, s');
    OwnLocal(v, s, t, mv, s');
    OnlyMoversWrite(v, s, t, mv, s');
    if Moves(s.ts[t].pc) {
      LoneLocals(v, s, t, mv, s');
    }
  }

  lemma OwnLocal(v: Variant, s: State, t: nat, mv: Move, s': State)
    requires t < |s.ts| && After(v, s, t, mv) == Some(s') && LocalOk(s, s.ts[t].pc) && 0 <= s.fp <= |s.free|
    ensures t < |s'.ts| && LocalOk(s', s'.ts[t].pc)
  {
  }

  /** While one thread moves the stack, the others know nothing of it but that it is not empty. */
  lemma LoneLocals(v: Variant, s: State, t: nat, mv: Move, s': State)
    requires t < |s.ts| && After(v, s, t, mv) == Some(s') && Exclusive(v, s) && Lone(s) && Locals(s)
    requires Moves(s.ts[t].pc) && 0 <= s.fp
    ensures |s'.ts| == |s.ts| && forall q {:trigger s'.ts[q]} :: 0 <= q < |s.ts| && q != t ==> LocalOk(s', s'.ts[q].pc)
  {
    OthersStay(v, s, t, mv, s');
    assert s'.fp >= s.fp || s.ts[t].pc.GetDec?;
    forall q | 0 <= q < |s.ts| && q != t ensures LocalOk(s', s'.ts[q].pc) {
      assert s'.ts[q] == s.ts[q] || s'.ts[q].pc.Woken?;
      OthersRest(s, t, q);
      assert LocalOk(s, s.ts[q].pc);
    }
  }

  lemma StepConserved(v: Variant, s: State, t: nat, mv: Move, s': State)
    requires t < |s.ts| && After(v, s, t, mv) == Some(s') && LocalOk(s, s.ts[t].pc) && Conserved(s)
    requires s.ts[t].pc.PutStore? ==> NobodyReads(s)
    ensures Conserved(s')
  {
    OthersStay(v, s, t, mv, s');
    StepConserves(v, s, t, mv, s', 0);
    forall x: Obj ensures OnStack(s'.free, s'.fp, x) + WithThreads(s'.ts, s'.free, x) == if x < |s.free| then 1 else 0 {
      StepConserves(v, s, t, mv, s', x);
    }
  }

  predicate NobodyReads(s: State) {
    forall q :: 0 <= q < |s.ts| ==> !s.ts[q].pc.GetRead?
  }

  lemma StepConserves(v: Variant, s: State, t: nat, mv: Move, s': State, x: Obj)
    requires t < |s.ts| && After(v, s, t, mv) == Some(s') && LocalOk(s, s.ts[t].pc) && 0 <= s.fp <= |s.free|
    requires s.ts[t].pc.PutStore? ==> NobodyReads(s)
    ensures 0 <= s'.fp <= |s'.free| == |s.free|
    ensures OnStack(s'.free, s'.fp, x) + WithThreads(s'.ts, s'.free, x)
         == OnStack(s.free, s.fp, x) + WithThreads(s.ts, s.free, x)
  {
    var pc := s.ts[t].pc;
    if pc.PutStore? && mv.Go? {
      WithUpdate(s.ts, t, s'.ts[t], s.free, x);
      WithFrame(s'.ts, s.free, s'.free, x);
      StackFrame(s.free, s.fp, s.fp, pc.obj, x);
    } else if pc.PutSignal? && mv.Go? {
      SignalMovesNothing(v, s, t, mv.u, s', x);
    } else {
      HandsOver(v, s, t, mv, s', x);
      WithUpdate(s.ts, t, s'.ts[t], s.free, x);
    }
  }

  /** Where a thread goes on after its signal. */
  function Signalling(v: Variant): Phase {
    if v.Locked? then PutUnlock else Idle
  }

  lemma SignalMovesNothing(v: Variant, s: State, t: nat, u: nat, s': State, x: Obj)
    requires t < |s.ts| && After(v, s, t, Go(u)) == Some(s') && s.ts[t].pc.PutSignal?
    ensures WithThreads(s'.ts, s.free, x) == WithThreads(s.ts, s.free, x) && s'.free == s.free && s'.fp == s.fp
  {
    WithUpdate(s.ts, t, s.ts[t].(pc := Signalling(v)), s.free, x);
    if SomeAsleep(s) {
      var s1 := Goto(s, t, Signalling(v));
      WithUpdate(s1.ts, u, s1.ts[u].(pc := Woken(true)), s.free, x);
    }
  }

  /** What a thread gains the stack loses, and the other way round. */
  lemma HandsOver(v: Variant, s: State, t: nat, mv: Move, s': State, x: Obj)
    requires t < |s.ts| && After(v, s, t, mv) == Some(s') && LocalOk(s, s.ts[t].pc)
    requires !(mv.Go? && (s.ts[t].pc.PutStore? || s.ts[t].pc.PutSignal?)) && 0 <= s.fp <= |s.free|
    ensures s'.free == s.free && 0 <= s'.fp <= |s.free| && |s'.ts| == |s.ts| && s'.ts == s.ts[t := s'.ts[t]]
    ensures OnStack(s.free, s'.fp, x) + Has(s'.ts[t], s.free, x) == OnStack(s.free, s.fp, x) + Has(s.ts[t], s.free, x)
  {
    var pc := s.ts[t].pc;
    if mv.Go? && (pc.GetDec? || pc.PutInc?) {
      assert s'.ts[t].held == s.ts[t].held;
    } else {
      assert s'.fp == s.fp;
      HandsKeep(v, s, t, mv, s', x);
    }
  }

  lemma HandsKeep(v: Variant, s: State, t: nat, mv: Move, s': State, x: Obj)
    requires t < |s.ts| && After(v, s, t, mv) == Some(s')
    requires !(mv.Go? && (s.ts[t].pc.PutStore? || s.ts[t].pc.PutSignal? || s.ts[t].pc.GetDec? || s.ts[t].pc.PutInc?))
    ensures t < |s'.ts| && Has(s'.ts[t], s.free, x) == Has(s.ts[t], s.free, x)
  {
    if mv.Go? {
      if Getting(s.ts[t].pc) { GetHandsKeep(v, s, t, mv.u, s', x); } else { PutHandsKeep(v, s, t, mv.u, s', x); }
    }
  }

  lemma GetHandsKeep(v: Variant, s: State, t: nat, u: nat, s': State, x: Obj)
    requires t < |s.ts| && Getting(s.ts[t].pc) && !s.ts[t].pc.GetDec? && After(v, s, t, Go(u)) == Some(s')
    ensures t < |s'.ts| && Has(s'.ts[t], s.free, x) == Has(s.ts[t], s.free, x)
  {
  }

  lemma PutHandsKeep(v: Variant, s: State, t: nat, u: nat, s': State, x: Obj)
    requires t < |s.ts| && !Getting(s.ts[t].pc) && After(v, s, t, Go(u)) == Some(s')
    requires !(s.ts[t].pc.PutStore? || s.ts[t].pc.PutSignal? || s.ts[t].pc.PutInc?)
    ensures t < |s'.ts| && Has(s'.ts[t], s.free, x) == Has(s.ts[t], s.free, x)
  {
  }

  lemma StepWakes(v: Variant, s: State, t: nat, mv: Move, s': State)
    requires t < |s.ts| && After(v, s, t, mv) == Some(s') && LocalOk(s, s.ts[t].pc) && WakeOk(s)
    requires s.fp >= 0 && !Hazard(s, t)
    ensures WakeOk(s')
  {
    OthersStay(v, s, t, mv, s');
    if s.ts[t].pc.PutSignal? && mv.Go? {
      SignalWakes(v, s, t, mv.u, s');
    } else {
      RousersKeepUp(v, s, t, mv, s');
      if s'.fp > 0 && exists w :: 0 <= w < |s'.ts| && Drowsy(s'.ts[w].pc) {
        var w :| 0 <= w < |s'.ts| && Drowsy(s'.ts[w].pc);
        DrowsyBefore(v, s, t, mv, s', w);
      }
    }
  }

  lemma RousersKeepUp(v: Variant, s: State, t: nat, mv: Move, s': State)
    requires t < |s.ts| && After(v, s, t, mv) == Some(s') && LocalOk(s, s.ts[t].pc)
    requires !(s.ts[t].pc.PutSignal? && mv.Go?)
    ensures s'.fp - Rousers(s'.ts) <= s.fp - Rousers(s.ts) || s'.fp == 0
  {
    assert |s'.ts| == |s.ts| && s'.ts == s.ts[t := s'.ts[t]];
    RousersUpdate(s.ts, t, s'.ts[t]);
  }

  lemma DrowsyBefore(v: Variant, s: State, t: nat, mv: Move, s': State, w: nat)
    requires t < |s.ts| && After(v, s, t, mv) == Some(s') && w < |s'.ts|
    requires s'.fp != 0 && !(s.ts[t].pc.PutSignal? && mv.Go?) && Drowsy(s'.ts[w].pc)
    ensures w < |s.ts| && Drowsy(s.ts[w].pc)
  {
  }

  lemma SignalWakes(v: Variant, s: State, t: nat, u: nat, s': State)
    requires t < |s.ts| && After(v, s, t, Go(u)) == Some(s') && s.ts[t].pc.PutSignal? && WakeOk(s) && !Hazard(s, t)
    ensures WakeOk(s')
  {
    var s1 := Goto(s, t, Signalling(v));
    RousersUpdate(s.ts, t, s1.ts[t]);
    if SomeAsleep(s) {
      RousersUpdate(s1.ts, u, s1.ts[u].(pc := Woken(true)));
      assert Drowsy(s.ts[u].pc);
    } else if exists w :: 0 <= w < |s'.ts| && Drowsy(s'.ts[w].pc) {
      var w :| 0 <= w < |s'.ts| && Drowsy(s'.ts[w].pc);
      assert s.ts[w].pc.GetSleep? && Drowsy(s.ts[w].pc);
      assert SomeDozes(s);
    }
  }

  lemma StepPhases(v: Variant, s: State, t: nat, mv: Move, s': State)
    requires t < |s.ts| && After(v, s, t, mv) == Some(s') && Phases(v, s)
    ensures Phases(v, s')
  {
    OthersStay(v, s, t, mv, s');
    if v.AsWritten? {
      assert !s'.ts[t].pc.PutLock? && !s'.ts[t].pc.PutUnlock?;
    }
  }

  /** No step that is not a hazard breaks the invariant, whichever way puts are taken. */
  lemma StepInv(v: Variant, s: State, t: nat, mv: Move, s': State)
    requires t < |s.ts| && After(v, s, t, mv) == Some(s') && Inv(v, s) && !Hazard(s, t)
    ensures Inv(v, s') && |s'.free| == |s.free| && |s'.ts| == |s.ts|
  {
    OthersStay(v, s, t, mv, s');
    StepPhases(v, s, t, mv, s');
    StepExclusive(v, s, t, mv, s');
    StepLone(v, s, t, mv, s');
    StepLocals(v, s, t, mv, s');
    if s.ts[t].pc.PutStore? {
      OneReader(s, t);
    }
    StepConserved(v, s, t, mv, s');
    StepWakes(v, s, t, mv, s');
  }

  lemma OneReader(s: State, t: nat)
    requires t < |s.ts| && Lone(s) && s.ts[t].pc.PutStore?
    ensures NobodyReads(s)
  {
    forall q | 0 <= q < |s.ts| ensures !s.ts[q].pc.GetRead? {
      if q != t { OthersRest(s, t, q); }
    }
  }

  lemma {:induction false} PoolOnce(size: nat, fp: nat, x: Obj)
    requires fp <= size
    ensures OnStack(Pool(size), fp, x) == if x < fp then 1 else 0
  {
    if fp > 0 {
      PoolOnce(size, fp - 1, x);
    }
  }

  lemma {:induction false} NobodyHas(ts: seq<Thread>, free: seq<Obj>, x: Obj)
    requires forall t :: 0 <= t < |ts| ==> ts[t] == Thread(Idle, multiset{})
    ensures WithThreads(ts, free, x) == 0
  {
    if |ts| > 0 {
      NobodyHas(ts[..|ts| - 1], free, x);
    }
  }

  lemma InitInv(v: Variant, s: State, size: nat)
    requires Init(s, size)
    ensures Inv(v, s)
  {
    forall x: Obj ensures OnStack(s.free, s.fp, x) + WithThreads(s.ts, s.free, x) == if x < size then 1 else 0 {
      PoolOnce(size, size, x);
      NobodyHas(s.ts, s.free, x);
    }
  }

  lemma {:induction false} RunKeeps(tr: seq<State>, i: nat)
    requires Run(Locked, tr) && Inv(Locked, tr[0]) && i < |tr|
    ensures Inv(Locked, tr[i]) && |tr[i].free| == |tr[0].free|
  {
    if i > 0 {
      RunKeeps(tr, i - 1);
      assert StepAt(Locked, tr, i - 1);
      var t: nat, mv :| t < |tr[i - 1].ts| && After(Locked, tr[i - 1], t, mv) == Some(tr[i]);
      LockedIsSafe(tr[i - 1], t, mv);
      StepInv(Locked, tr[i - 1], t, mv, tr[i]);
    }
  }

  /** Every state of every run of any number of threads: one thread at most inside the
      critical section, every slot in one place, no wake-up lost. */
  lemma RunInv(tr: seq<State>, size: nat, i: nat)
    requires Run(Locked, tr) && Init(tr[0], size) && i < |tr|
    ensures Inv(Locked, tr[i]) && Good(tr[i]) && |tr[i].free| == size
  {
    InitInv(Locked, tr[0], size);
    RunKeeps(tr, i);
    InvGood(Locked, tr[i]);
  }

  lemma InvGood(v: Variant, s: State)
    requires Inv(v, s)
    ensures Good(s)
  {
    if SomeAsleep(s) {
      var w :| 0 <= w < |s.ts| && s.ts[w].pc.Asleep?;
      assert Drowsy(s.ts[w].pc);
    }
  }

  // ----- what the invariant means for the callers ---------------------------

  lemma {:induction false} TwoOwners(ts: seq<Thread>, free: seq<Obj>, t: nat, u: nat, x: Obj)
    requires t < u < |ts|
    ensures Has(ts[t], free, x) + Has(ts[u], free, x) <= WithThreads(ts, free, x)
  {
    if u == |ts| - 1 {
      WithUpdate(ts[..u], t, ts[t], free, x);
    } else {
      TwoOwners(ts[..|ts| - 1], free, t, u, x);
    }
  }

  lemma {:induction false} OnStackAt(free: seq<Obj>, fp: Index, i: nat)
    requires i < fp <= |free|
    ensures OnStack(free, fp, free[i]) >= 1
  {
    if i < fp - 1 {
      OnStackAt(free, fp - 1, i);
    }
  }

  /** No two threads have the same object, none has it twice, and an object a thread has is
      not on the stack. */
  lemma SoleOwner(s: State, t: nat, x: Obj)
    requires Conserved(s) && t < |s.ts| && Has(s.ts[t], s.free, x) > 0
    ensures x < |s.free| && Has(s.ts[t], s.free, x) == 1 && x !in s.free[..s.fp]
    ensures forall u :: 0 <= u < |s.ts| && u != t ==> Has(s.ts[u], s.free, x) == 0
  {
    WithUpdate(s.ts, t, s.ts[t], s.free, x);
    if x in s.free[..s.fp] {
      var i :| 0 <= i < s.fp && s.free[i] == x;
      OnStackAt(s.free, s.fp, i);
    }
    forall u | 0 <= u < |s.ts| && u != t ensures Has(s.ts[u], s.free, x) == 0 {
      if u < t { TwoOwners(s.ts, s.free, u, t, x); } else { TwoOwners(s.ts, s.free, t, u, x); }
    }
  }

  /** The objects on the stack, when none is there twice. */
  lemma {:induction false} StackSet(free: seq<Obj>, fp: nat) returns (on: set<Obj>)
    requires fp <= |free| && forall y: Obj {:trigger OnStack(free, fp, y)} :: OnStack(free, fp, y) <= 1
    ensures |on| == fp && forall y: Obj {:trigger OnStack(free, fp, y)} :: y in on <==> OnStack(free, fp, y) == 1
  {
    on := {};
    if fp > 0 {
      var k := fp - 1;
      forall y: Obj ensures OnStack(free, k, y) <= 1 {
        assert OnStack(free, fp, y) <= 1;
      }
      on := StackSet(free, k);
      assert OnStack(free, fp, free[fp - 1]) <= 1;
      on := on + {free[fp - 1]};
    }
  }

  lemma {:induction false} SmallSet(on: set<Obj>, n: nat)
    requires forall y :: y in on ==> y < n
    ensures |on| <= n
  {
    if n > 0 {
      SmallSet(on - {n - 1}, n - 1);
    }
  }

  /** A thread with an object in its hands finds room to put it back. */
  lemma RoomToPut(s: State, t: nat, x: Obj)
    requires Conserved(s) && t < |s.ts| && Has(s.ts[t], s.free, x) > 0
    ensures s.fp < |s.free|
  {
    var n := |s.free|;
    forall y: Obj ensures OnStack(s.free, s.fp, y) <= if y < n then 1 else 0 {
      assert WithThreads(s.ts, s.free, y) >= 0;
    }
    WithUpdate(s.ts, t, s.ts[t], s.free, x);
    var on := StackSet(s.free, s.fp);
    assert OnStack(s.free, s.fp, x) == 0;
    forall y | y in on + {x} ensures y < n {
      assert y == x || OnStack(s.free, s.fp, y) == 1;
    }
    SmallSet(on + {x}, n);
  }

  /** Whoever owns the mutex can take its next step: no access leaves the array. */
  lemma OwnerMoves(v: Variant, s: State) returns (u: nat)
    requires Inv(v, s) && s.mutex != FREE
    ensures After(v, s, s.mutex, Go(u)).Some?
  {
    u := 0;
    var pc := s.ts[s.mutex].pc;
    if pc.PutStore? {
      RoomToPut(s, s.mutex, pc.obj);
    }
    if SomeAsleep(s) {
      var w :| 0 <= w < |s.ts| && s.ts[w].pc.Asleep?;
      u := w;
    }
  }

  lemma {:induction false} SomeRouser(ts: seq<Thread>) returns (t: nat)
    requires Rousers(ts) > 0
    ensures t < |ts| && Rouses(ts[t].pc)
  {
    if Rouses(ts[|ts| - 1].pc) {
      t := |ts| - 1;
    } else {
      t := SomeRouser(ts[..|ts| - 1]);
    }
  }

  /** How many threads a signal has woken that have not run their test since. */
  function Signalled(ts: seq<Thread>): nat {
    if |ts| == 0 then 0
    else Signalled(ts[..|ts| - 1]) + if ts[|ts| - 1].pc == Woken(true) then 1 else 0
  }

  lemma {:induction false} OnlySignalledRouse(ts: seq<Thread>)
    requires forall t :: 0 <= t < |ts| ==> !Critical(Locked, ts[t].pc)
    ensures Rousers(ts) == Signalled(ts)
  {
    if |ts| > 0 {
      OnlySignalledRouse(ts[..|ts| - 1]);
    }
  }

  /** While the mutex is free and some thread sleeps, no more objects are free than there are
      threads that were signalled and have not yet run their test again. */
  lemma SignalledCoverFree(s: State)
    requires Inv(Locked, s) && s.mutex == FREE && SomeAsleep(s)
    ensures s.fp <= Signalled(s.ts)
  {
    InvGood(Locked, s);
    OnlySignalledRouse(s.ts);
  }

  /** A sleeper is never left alone with a free object: some thread inside a call can move. */
  lemma NobodyForgotten(v: Variant, s: State) returns (t: nat, u: nat)
    requires Inv(v, s) && SomeAsleep(s) && s.fp > 0
    ensures t < |s.ts| && After(v, s, t, Go(u)).Some?
  {
    if s.mutex == FREE {
      InvGood(v, s);
      t := SomeRouser(s.ts);
      u :| 0 <= u < |s.ts| && s.ts[u].pc.Asleep?;
    } else {
      t := s.mutex;
      u := OwnerMoves(v, s);
    }
  }

  // ----- every call goes on ---------------------------------------------------

  ghost predicate CanGo(v: Variant, s: State, t: nat)
    requires t < |s.ts|
  {
    exists u: nat :: After(v, s, t, Go(u)).Some?
  }

  /** A thread inside a call can take its next step unless it sleeps, or waits for a mutex that
      is not free. */
  lemma GoExact(v: Variant, s: State, t: nat)
    requires Inv(v, s) && t < |s.ts|
    ensures var pc := s.ts[t].pc;
            CanGo(v, s, t) <==>
              !pc.Idle? && !pc.Asleep? && (pc.GetLock? || pc.Woken? || pc.PutLock? ==> s.mutex == FREE)
  {
    var pc, u := s.ts[t].pc, 0;
    if pc.PutStore? {
      RoomToPut(s, t, pc.obj);
    }
    if pc.PutSignal? && SomeAsleep(s) {
      u :| 0 <= u < |s.ts| && s.ts[u].pc.Asleep?;
    }
    assert LocalOk(s, pc);
    if pc.Idle? || pc.Asleep? || ((pc.GetLock? || pc.Woken? || pc.PutLock?) && s.mutex != FREE) {
      forall w: nat ensures After(v, s, t, Go(w)) == None {
      }
    } else {
      assert After(v, s, t, Go(u)).Some?;
    }
  }

  /** When a thread can start a call, or wake by itself, and where that leaves it. */
  lemma StartExact(v: Variant, s: State, t: nat, x: Obj)
    requires t < |s.ts|
    ensures After(v, s, t, Get) == if s.ts[t].pc.Idle? then Some(Goto(s, t, GetLock)) else None
    ensures After(v, s, t, Spurious) == if s.ts[t].pc.Asleep? then Some(Goto(s, t, Woken(false))) else None
    ensures After(v, s, t, Put(x)).Some? <==> s.ts[t].pc.Idle? && x in s.ts[t].held
  {
  }

  /** The steps a thread has left, at most, before it is outside again or asleep. */
  function StepsLeft(pc: Phase): (n: nat)
    ensures n <= 6 && (n == 0 <==> pc.Idle? || pc.Asleep?)
  {
    match pc
    case Idle => 0
    case Asleep => 0
    case GetLock => 6
    case Woken(_) => 6
    case GetTest(_) => 5
    case GetLoad => 4
    case GetDec(_) => 3
    case GetRead(_) => 2
    case GetUnlock(_) => 1
    case GetSleep => 1
    case PutLock(_) => 6
    case PutLoad(_) => 5
    case PutStore(_, _) => 4
    case PutInc(_, _) => 3
    case PutSignal => 2
    case PutUnlock => 1
  }

  /** Every step of a call leaves the thread fewer, and no other thread more, but for the one a
      signal wakes. */
  lemma GoAdvances(v: Variant, s: State, t: nat, u: nat, s': State)
    requires t < |s.ts| && After(v, s, t, Go(u)) == Some(s')
    ensures |s'.ts| == |s.ts| && StepsLeft(s'.ts[t].pc) < StepsLeft(s.ts[t].pc)
    ensures forall q :: 0 <= q < |s.ts| && q != t ==>
              || s'.ts[q] == s.ts[q]
              || (q == u && s.ts[t].pc.PutSignal? && s.ts[q].pc.Asleep? && s'.ts[q].pc == Woken(true))
  {
    if Getting(s.ts[t].pc) {
      GetAdvances(v, s, t, u, s');
    }
  }

  lemma GetAdvances(v: Variant, s: State, t: nat, u: nat, s': State)
    requires t < |s.ts| && Getting(s.ts[t].pc) && After(v, s, t, Go(u)) == Some(s')
    ensures s'.ts == s.ts[t := s'.ts[t]] && StepsLeft(s'.ts[t].pc) < StepsLeft(s.ts[t].pc)
  {
  }

  /** As long as some thread is inside a call and awake, some thread can move. */
  lemma NeverStuck(v: Variant, s: State, t: nat) returns (q: nat)
    requires Inv(v, s) && t < |s.ts| && !s.ts[t].pc.Idle? && !s.ts[t].pc.Asleep?
    ensures q < |s.ts| && CanGo(v, s, q)
  {
    q := if s.mutex == FREE then t else s.mutex;
    GoExact(v, s, q);
  }

  // ----- calls that nothing interrupts ----------------------------------------

  /** The state after n more steps of thread `t` alone. */
  function Goes(v: Variant, s: State, t: nat, u: nat, n: nat): Option<State>
    decreases n
  {
    if n == 0 then Some(s)
    else if t >= |s.ts| then None
    else
      var r := After(v, s, t, Go(u));
      if r.None? then None else Goes(v, r.value, t, u, n - 1)
  }

  lemma GoesStep(v: Variant, s: State, t: nat, u: nat, n: nat, s1: State)
    requires t < |s.ts| && After(v, s, t, Go(u)) == Some(s1)
    ensures Goes(v, s, t, u, n + 1) == Goes(v, s1, t, u, n)
  {
  }

  /** The middle of a put: the object is stored and the pointer raised. */
  lemma PutStores(v: Variant, b: State, t: nat, u: nat, x: Obj, n: nat) returns (e: State)
    requires t < |b.ts| && b.ts[t].pc == PutLoad(x) && 0 <= b.fp < |b.free|
    ensures e == b.(ts := b.ts[t := b.ts[t].(pc := PutSignal)], free := b.free[b.fp := x], fp := b.fp + 1)
    ensures Goes(v, b, t, u, n + 3) == Goes(v, e, t, u, n)
  {
    var c := Goto(b, t, PutStore(x, b.fp));
    var d := Goto(c, t, PutInc(x, c.fp)).(free := c.free[c.fp := x]);
    e := Goto(d, t, PutSignal).(fp := d.fp + 1);
    GoesStep(v, d, t, u, n, e);
    GoesStep(v, c, t, u, n + 1, d);
    GoesStep(v, b, t, u, n + 2, c);
    assert e.ts == b.ts[t := b.ts[t].(pc := PutSignal)];
  }

  /** A put puts its object on top of the stack, comes out again, and wakes one sleeper if there
      is any; nothing else changes. */
  lemma PutAlone(v: Variant, s: State, t: nat, x: Obj, u: nat) returns (a: State, s': State)
    requires Inv(v, s) && t < |s.ts| && s.ts[t].pc.Idle? && x in s.ts[t].held && (v.Locked? ==> s.mutex == FREE)
    requires SomeAsleep(s) ==> u < |s.ts| && s.ts[u].pc.Asleep?
    ensures 0 <= s.fp < |s.free| && After(v, s, t, Put(x)) == Some(a)
    ensures Goes(v, a, t, u, if v.Locked? then 6 else 4) == Some(s')
    ensures s'.free == s.free[s.fp := x] && s'.fp == s.fp + 1 && s'.mutex == s.mutex
    ensures s'.ts == var ts := s.ts[t := Thread(Idle, s.ts[t].held - multiset{x})];
                     if SomeAsleep(s) then ts[u := ts[u].(pc := Woken(true))] else ts
  {
    RoomToPut(s, t, x);
    a := After(v, s, t, Put(x)).value;
    var b := a;
    if v.Locked? {
      b := After(v, a, t, Go(u)).value;
      GoesStep(v, a, t, u, 5, b);
    }
    var e := PutStores(v, b, t, u, x, if v.Locked? then 2 else 1);
    SleepersKept(s, e, t);
    s' := PutEnds(v, e, t, u);
    PutThreads(s, e, t, x);
  }

  lemma PutThreads(s: State, e: State, t: nat, x: Obj)
    requires t < |s.ts| && |e.ts| == |s.ts| && e.ts[t] == Thread(PutSignal, s.ts[t].held - multiset{x})
    requires forall q :: 0 <= q < |s.ts| && q != t ==> e.ts[q] == s.ts[q]
    ensures e.ts[t := e.ts[t].(pc := Idle)] == s.ts[t := Thread(Idle, s.ts[t].held - multiset{x})]
  {
  }

  /** The end of a put: the signal, and with the mutex held giving it up. */
  lemma PutEnds(v: Variant, e: State, t: nat, u: nat) returns (s': State)
    requires t < |e.ts| && e.ts[t].pc.PutSignal? && (SomeAsleep(e) ==> u < |e.ts| && e.ts[u].pc.Asleep?)
    ensures Goes(v, e, t, u, if v.Locked? then 2 else 1) == Some(s')
    ensures s'.free == e.free && s'.fp == e.fp && s'.mutex == if v.Locked? then FREE else e.mutex
    ensures s'.ts == var ts := e.ts[t := e.ts[t].(pc := Idle)];
                     if SomeAsleep(e) then ts[u := ts[u].(pc := Woken(true))] else ts
  {
    var f := After(v, e, t, Go(u)).value;
    if v.Locked? {
      s' := After(v, f, t, Go(u)).value;
      GoesStep(v, f, t, u, 0, s');
    } else {
      s' := f;
    }
    GoesStep(v, e, t, u, if v.Locked? then 1 else 0, f);
    assert s'.ts == var ts := e.ts[t := e.ts[t].(pc := Idle)];
                    if SomeAsleep(e) then ts[u := ts[u].(pc := Woken(true))] else ts;
  }

  lemma SleepersKept(s: State, d: State, t: nat)
    requires t < |s.ts| && !s.ts[t].pc.Asleep? && |d.ts| == |s.ts| && !d.ts[t].pc.Asleep?
    requires forall i :: 0 <= i < |s.ts| && i != t ==> d.ts[i] == s.ts[i]
    ensures SomeAsleep(s) <==> SomeAsleep(d)
  {
    if SomeAsleep(s) {
      var w :| 0 <= w < |s.ts| && s.ts[w].pc.Asleep?;
      assert d.ts[w].pc.Asleep?;
    }
  }

  /** Once it has come to the mutex, from outside or from its sleep, a get takes the top of the
      stack and comes out again, or sleeps when the stack is empty; nothing else changes. */
  lemma GetAlone(v: Variant, s: State, t: nat) returns (s': State)
    requires t < |s.ts| && (s.ts[t].pc.GetLock? || s.ts[t].pc.Woken?) && s.mutex == FREE && 0 <= s.fp <= |s.free|
    ensures Goes(v, s, t, 0, if s.fp > 0 then 6 else 3) == Some(s')
    ensures s'.free == s.free && s'.mutex == FREE && s'.fp == if s.fp > 0 then s.fp - 1 else 0
    ensures s'.ts == s.ts[t := if s.fp > 0 then Thread(Idle, s.ts[t].held + multiset{s.free[s.fp - 1]})
                               else s.ts[t].(pc := Asleep)]
  {
    if s.fp > 0 {
      s' := GetTakes(v, s, t);
    } else {
      s' := GetSleeps(v, s, t);
    }
  }

  lemma GetTakes(v: Variant, s: State, t: nat) returns (s': State)
    requires t < |s.ts| && (s.ts[t].pc.GetLock? || s.ts[t].pc.Woken?) && s.mutex == FREE && 0 < s.fp <= |s.free|
    ensures Goes(v, s, t, 0, 6) == Some(s')
    ensures s' == s.(ts := s.ts[t := Thread(Idle, s.ts[t].held + multiset{s.free[s.fp - 1]})], fp := s.fp - 1)
  {
    var a := After(v, s, t, Go(0)).value;
    var b := Goto(a, t, GetLoad);
    var c := Goto(b, t, GetDec(s.fp));
    var d := Goto(c, t, GetRead(s.fp)).(fp := s.fp - 1);
    var e := Goto(d, t, GetUnlock(s.free[s.fp - 1]));
    s' := After(v, e, t, Go(0)).value;
    GoesStep(v, e, t, 0, 0, s');
    GoesStep(v, d, t, 0, 1, e);
    GoesStep(v, c, t, 0, 2, d);
    GoesStep(v, b, t, 0, 3, c);
    GoesStep(v, a, t, 0, 4, b);
    GoesStep(v, s, t, 0, 5, a);
    assert s'.ts == s.ts[t := s'.ts[t]];
  }

  lemma GetSleeps(v: Variant, s: State, t: nat) returns (s': State)
    requires t < |s.ts| && (s.ts[t].pc.GetLock? || s.ts[t].pc.Woken?) && s.mutex == FREE && s.fp == 0
    ensures Goes(v, s, t, 0, 3) == Some(s') && s' == s.(ts := s.ts[t := s.ts[t].(pc := Asleep)])
  {
    var a := After(v, s, t, Go(0)).value;
    var b := Goto(a, t, GetSleep);
    s' := After(v, b, t, Go(0)).value;
    GoesStep(v, b, t, 0, 0, s');
    GoesStep(v, a, t, 0, 1, b);
    GoesStep(v, s, t, 0, 2, a);
    assert s'.ts == s.ts[t := s'.ts[t]];
  }
}
