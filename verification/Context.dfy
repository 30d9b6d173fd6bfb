/**
 context.cc, the pthread branch: coroutines made of threads that hand control
 to each other with a flag, a mutex and a condition variable per context. Every
 thread's code is cut into its atomic steps, and any thread may step next.
 */
module Context {

  /** Where a context's thread is. Me is the context itself. */
  datatype PC =
    | Unborn                   // init has not been called on it
    | Run                      // in user code
    | Done                     // its function has returned
    | InitLock(n: nat)         // init of n: lock Me's mutex
    | InitClear(n: nat)        //            clear Me's flag
    | InitCreate(n: nat)       //            start n's thread
    | SwClear(t: nat)          // switch_to on t: clear Me's flag
    | SwSet(t: nat)            //                 set t's flag
    | SwLock(t: nat)           //                 lock t's mutex
    | SwSignal(t: nat)         //                 signal t's condition
    | SwUnlock(t: nat)         //                 unlock t's mutex
    | WLock                    // waiting: lock Me's mutex
    | WCheck                   //          look at Me's flag
    | WSleep                   //          flag found clear, entering pthread_cond_wait
    | WWaiting                 //          inside pthread_cond_wait
    | WWoken                   //          signalled, taking the mutex again
    | WUnlock                  //          unlock Me's mutex

  datatype State = State(pc: seq<PC>, flag: seq<bool>, owner: seq<int>)

  /** The owner of a mutex that no thread holds. */
  const FREE := -1

  /** The mutex of a thread that wants or holds none. */
  const NO_MUTEX := -1

  predicate Shape(s: State) {
    |s.flag| == |s.pc| && |s.owner| == |s.pc|
  }

  /** The root context runs; no other exists yet. */
  function Initial(n: nat): State
    requires n > 0
  {
    State([Run] + seq(n - 1, _ => Unborn), [true] + seq(n - 1, _ => false), seq(n, _ => FREE))
  }

  // --------------------------------------------------------------- steps

  function At(s: State, i: nat, p: PC): State
    requires i < |s.pc|
  {
    s.(pc := s.pc[i := p])
  }

  function SetFlag(s: State, i: nat, b: bool): State
    requires i < |s.flag|
  {
    s.(flag := s.flag[i := b])
  }

  function SetOwner(s: State, i: nat, o: int): State
    requires i < |s.owner|
  {
    s.(owner := s.owner[i := o])
  }

  /** A context that can be switched to: it exists and has not returned. */
  predicate Live(s: State, t: nat) {
    t < |s.pc| && !s.pc[t].Unborn? && !s.pc[t].Done?
  }

  /** What user code does next: switch to another context, init a new one, or return. */
  ghost predicate UserStep(s: State, s': State, i: nat) {
    && Shape(s) && i < |s.pc| && s.pc[i].Run?
    && (|| s' == At(s, i, Done)
        || (exists t: nat :: t != i && Live(s, t) && s' == At(s, i, SwClear(t)))
        || (exists n: nat :: n < |s.pc| && s.pc[n].Unborn? && s' == At(s, i, InitLock(n))))
  }

  /** The mutex that a thread wants, if any. */
  function Wants(s: State, i: nat): int
    requires i < |s.pc|
  {
    match s.pc[i]
    case InitLock(_) => i
    case SwLock(t) => t
    case WLock => i
    case WWoken => i
    case _ => NO_MUTEX
  }

  /** The next step of a thread that is not in user code. */
  function Next(s: State, i: nat): State
    requires Shape(s) && i < |s.pc| && TargetsIn(s)
  {
    assert TargetIn(s, i);
    match s.pc[i]
    case InitLock(n) => SetOwner(At(s, i, InitClear(n)), i, i)
    case InitClear(n) => SetFlag(At(s, i, InitCreate(n)), i, false)
    case InitCreate(n) => At(At(s, i, WCheck), n, SwClear(i))
    case SwClear(t) => SetFlag(At(s, i, SwSet(t)), i, false)
    case SwSet(t) => SetFlag(At(s, i, SwLock(t)), t, true)
    case SwLock(t) => SetOwner(At(s, i, SwSignal(t)), t, i)
    case SwSignal(t) =>
      var s1 := At(s, i, SwUnlock(t));
      if s.pc[t].WWaiting? then At(s1, t, WWoken) else s1
    case SwUnlock(t) => SetOwner(At(s, i, WLock), t, FREE)
    case WLock => SetOwner(At(s, i, WCheck), i, i)
    case WCheck => At(s, i, if s.flag[i] then WUnlock else WSleep)
    case WSleep => SetOwner(At(s, i, WWaiting), i, FREE)
    case WWoken => SetOwner(At(s, i, WCheck), i, i)
    case WUnlock => SetOwner(At(s, i, Run), i, FREE)
    case _ => s
  }

  /** The context that a thread's step names exists. */
  predicate TargetIn(s: State, i: nat)
    requires i < |s.pc|
  {
    match s.pc[i]
    case InitLock(n) => n < |s.pc|
    case InitClear(n) => n < |s.pc|
    case InitCreate(n) => n < |s.pc|
    case SwClear(t) => t < |s.pc|
    case SwSet(t) => t < |s.pc|
    case SwLock(t) => t < |s.pc|
    case SwSignal(t) => t < |s.pc|
    case SwUnlock(t) => t < |s.pc|
    case _ => true
  }

  predicate TargetsIn(s: State) {
    forall i :: 0 <= i < |s.pc| ==> TargetIn(s, i)
  }

  /** A thread that has a step of its own: not in user code, not asleep, and its mutex is free. */
  predicate CanStep(s: State, i: nat) {
    && Shape(s) && TargetsIn(s) && i < |s.pc| && TargetIn(s, i)
    && !s.pc[i].Run? && !s.pc[i].Done? && !s.pc[i].Unborn? && !s.pc[i].WWaiting?
    && (Wants(s, i) >= 0 ==> s.owner[Wants(s, i)] == FREE)
  }

  predicate InnerStep(s: State, s': State, i: nat) {
    CanStep(s, i) && s' == Next(s, i)
  }

  /** A wake-up that no signal caused. */
  predicate SpuriousStep(s: State, s': State, i: nat) {
    Shape(s) && i < |s.pc| && s.pc[i].WWaiting? && s' == At(s, i, WWoken)
  }

  ghost predicate Step(s: State, s': State, i: nat) {
    UserStep(s, s', i) || InnerStep(s, s', i) || SpuriousStep(s, s', i)
  }

  // ----------------------------------------------------------- invariant

  /** Context i is in user code, on its way into or out of it, or has been given control. */
  predicate Holds(s: State, i: nat)
    requires Shape(s) && i < |s.pc|
  {
    match s.pc[i]
    case Unborn => false
    case SwLock(_) => s.flag[i]
    case SwSignal(_) => s.flag[i]
    case SwUnlock(_) => s.flag[i]
    case WLock => s.flag[i]
    case WCheck => s.flag[i]
    case WSleep => s.flag[i]
    case WWaiting => s.flag[i]
    case WWoken => s.flag[i]
    case _ => true
  }

  /** The mutex that a thread holds, if any. */
  function MutexOf(p: PC, i: nat): int {
    match p
    case InitClear(_) => i
    case InitCreate(_) => i
    case SwSignal(t) => t
    case SwUnlock(t) => t
    case WCheck => i
    case WSleep => i
    case WUnlock => i
    case _ => NO_MUTEX
  }

  /** The program counter and flag of a context fit together, and its targets exist. */
  predicate Sane(s: State, i: nat)
    requires Shape(s) && i < |s.pc|
  {
    match s.pc[i]
    case Unborn => !s.flag[i]
    case InitLock(n) => n < |s.pc| && s.pc[n].Unborn?
    case InitClear(n) => n < |s.pc| && s.pc[n].Unborn?
    case InitCreate(n) => n < |s.pc| && s.pc[n].Unborn? && !s.flag[i]
    case SwClear(t) => t != i && Live(s, t)
    case SwSet(t) => t != i && Live(s, t) && !s.flag[i]
    case SwLock(t) => t != i && t < |s.pc|
    case SwSignal(t) => t != i && t < |s.pc|
    case SwUnlock(t) => t != i && t < |s.pc|
    case _ => true
  }

  /** Mutexes have the owners that the program counters say. */
  predicate MutexOk(s: State, i: nat)
    requires Shape(s) && i < |s.pc|
  {
    && (MutexOf(s.pc[i], i) >= 0 ==> MutexOf(s.pc[i], i) < |s.pc| && s.owner[MutexOf(s.pc[i], i)] == i)
    && (s.owner[i] != FREE ==> 0 <= s.owner[i] < |s.pc| && MutexOf(s.pc[s.owner[i]], s.owner[i]) == i)
  }

  /** A context asleep or about to be. */
  predicate Sleepy(p: PC) {
    p.WSleep? || p.WWaiting?
  }

  /** A context asleep, or about to be, whose flag is set has a signal to come. */
  predicate WakeOk(s: State, i: nat)
    requires Shape(s) && i < |s.pc|
  {
    Sleepy(s.pc[i]) && s.flag[i] ==> exists j :: 0 <= j < |s.pc| && Coming(s, i, j)
  }

  /** A signal to context i is still to come from thread j. */
  predicate Coming(s: State, i: nat, j: nat)
    requires j < |s.pc|
  {
    s.pc[j] == SwLock(i) || s.pc[j] == SwSignal(i)
  }

  predicate Good(s: State, h: nat, i: nat)
    requires Shape(s) && i < |s.pc|
  {
    (i != h ==> !Holds(s, i)) && Sane(s, i) && MutexOk(s, i) && WakeOk(s, i)
  }

  /** Context h has control and no other; mutexes have their owners; no wake-up is lost. */
  predicate Inv(s: State, h: nat) {
    && Shape(s) && h < |s.pc| && Holds(s, h)
    && forall i :: 0 <= i < |s.pc| ==> Good(s, h, i)
  }

  lemma InvTargets(s: State, h: nat)
    requires Inv(s, h)
    ensures TargetsIn(s)
  {
    forall i | 0 <= i < |s.pc|
      ensures TargetIn(s, i)
    {
      assert Good(s, h, i);
    }
  }

  lemma InitialInv(n: nat)
    requires n > 0
    ensures Inv(Initial(n), 0)
  {
  }

  /** A sleeper's signal is still to come if no thread that might send it has sent it. */
  lemma StillComing(s: State, s': State, i: nat, k: nat)
    requires Shape(s) && Shape(s') && |s'.pc| == |s.pc| && i < |s.pc| && k < |s.pc|
    requires WakeOk(s, k) && Sleepy(s.pc[k]) && s.flag[k]
    requires forall j :: 0 <= j < |s.pc| && j != i && j != k && Coming(s, k, j) ==> s'.pc[j] == s.pc[j]
    requires Coming(s, k, i) ==> Coming(s', k, i)
    ensures WakeOk(s', k)
  {
    var j :| 0 <= j < |s.pc| && Coming(s, k, j);
    assert Coming(s', k, j);
  }

  /** Taking a free mutex keeps all owners right. */
  lemma Acquired(s: State, s': State, h: nat, i: nat, m: nat, k: nat)
    requires Inv(s, h) && Shape(s') && |s'.pc| == |s.pc| && i < |s.pc| && m < |s.pc| && k < |s.pc|
    requires forall j :: 0 <= j < |s.pc| && j != i ==> s'.pc[j] == s.pc[j]
    requires s.owner[m] == FREE && s'.owner == s.owner[m := i]
    requires MutexOf(s.pc[i], i) == NO_MUTEX && MutexOf(s'.pc[i], i) == m
    ensures MutexOk(s', k)
  {
    hide Holds, Sane, WakeOk;
    assert Good(s, h, k);
    if s.owner[k] != FREE {
      assert Good(s, h, s.owner[k]);
    }
  }

  /** So does letting go of one. */
  lemma Released(s: State, s': State, h: nat, i: nat, m: nat, k: nat)
    requires Inv(s, h) && Shape(s') && |s'.pc| == |s.pc| && i < |s.pc| && m < |s.pc| && k < |s.pc|
    requires forall j :: 0 <= j < |s.pc| && j != i ==> s'.pc[j] == s.pc[j]
    requires s'.owner == s.owner[m := FREE]
    requires MutexOf(s.pc[i], i) == m && MutexOf(s'.pc[i], i) == NO_MUTEX
    ensures MutexOk(s', k)
  {
    hide Holds, Sane, WakeOk;
    assert Good(s, h, i);
    assert Good(s, h, k);
    if s.owner[k] != FREE {
      assert Good(s, h, s.owner[k]);
    }
  }

  /** And a step that neither takes nor lets go of one. */
  lemma SameOwners(s: State, s': State, h: nat, i: nat, k: nat)
    requires Inv(s, h) && Shape(s') && |s'.pc| == |s.pc| && i < |s.pc| && k < |s.pc|
    requires forall j :: 0 <= j < |s.pc| && j != i ==> s'.pc[j] == s.pc[j]
    requires s'.owner == s.owner && MutexOf(s.pc[i], i) == MutexOf(s'.pc[i], i)
    ensures MutexOk(s', k)
  {
    hide Holds, Sane, WakeOk;
    assert Good(s, h, i);
    assert Good(s, h, k);
    if s.owner[k] != FREE {
      assert Good(s, h, s.owner[k]);
    }
  }

  lemma UserKeeps(s: State, s': State, i: nat, h: nat)
    requires Inv(s, h) && UserStep(s, s', i)
    ensures Inv(s', h)
  {
    assert Good(s, h, i);
    forall k | 0 <= k < |s.pc|
      ensures Good(s', h, k)
    {
      assert Good(s, h, k);
      SameOwners(s, s', h, i, k);
      hide MutexOk;
    }
  }

  lemma SpuriousKeeps(s: State, s': State, i: nat, h: nat)
    requires Inv(s, h) && SpuriousStep(s, s', i)
    ensures Inv(s', h)
  {
    assert Good(s, h, i);
    forall k | 0 <= k < |s.pc|
      ensures Good(s', h, k)
    {
      assert Good(s, h, k);
      SameOwners(s, s', h, i, k);
      hide MutexOk;
      if Sleepy(s'.pc[k]) && s'.flag[k] {
        StillComing(s, s', i, k);
      }
    }
  }

  /** The steps of the handing-over side, up to setting the flag. */
  lemma SwitchKeeps(s: State, i: nat, h: nat)
    requires Inv(s, h) && CanStep(s, i) && (s.pc[i].SwClear? || s.pc[i].SwSet?)
    ensures Inv(Next(s, i), if s.pc[i].SwSet? then s.pc[i].t else h)
  {
    var s' := Next(s, i);
    assert Good(s, h, i);
    assert Good(s, h, s.pc[i].t);
    var g := if s.pc[i].SwSet? then s.pc[i].t else h;
    forall k | 0 <= k < |s.pc|
      ensures Good(s', g, k)
    {
      assert Good(s, h, k);
      SameOwners(s, s', h, i, k);
      hide MutexOk;
      if s.pc[i] == SwSet(k) {
        assert Coming(s', k, i);
      }
    }
  }

  /** Locking the other's mutex. */
  lemma LockKeeps(s: State, i: nat, h: nat)
    requires Inv(s, h) && CanStep(s, i) && s.pc[i].SwLock?
    ensures Inv(Next(s, i), h)
  {
    var s' := Next(s, i);
    assert Good(s, h, i);
    assert Good(s, h, s.pc[i].t);
    forall k | 0 <= k < |s.pc|
      ensures Good(s', h, k)
    {
      assert Good(s, h, k);
      Acquired(s, s', h, i, s.pc[i].t, k);
      hide MutexOk;
      if Sleepy(s'.pc[k]) && s'.flag[k] {
        StillComing(s, s', i, k);
      }
    }
  }

  /** Signalling the other's condition. */
  lemma SignalKeeps(s: State, i: nat, h: nat)
    requires Inv(s, h) && CanStep(s, i) && s.pc[i].SwSignal?
    ensures Inv(Next(s, i), h)
  {
    hide Holds, Sane, MutexOk, WakeOk, Next;
    var s' := Next(s, i);
    SignalHolds(s, i, h, h);
    forall k | 0 <= k < |s.pc|
      ensures Good(s', h, k)
    {
      assert Good(s, h, k);
      SignalHolds(s, i, h, k);
      SignalMutex(s, i, h, k);
      SignalWake(s, i, h, k);
    }
  }

  lemma SignalHolds(s: State, i: nat, h: nat, k: nat)
    requires Inv(s, h) && CanStep(s, i) && s.pc[i].SwSignal? && k < |s.pc|
    ensures Shape(Next(s, i)) && |Next(s, i).pc| == |s.pc|
    ensures Holds(Next(s, i), k) == Holds(s, k) && Sane(Next(s, i), k)
  {
    hide MutexOk, WakeOk;
    assert Good(s, h, i);
    assert Good(s, h, s.pc[i].t);
    assert Good(s, h, k);
  }

  lemma SignalMutex(s: State, i: nat, h: nat, k: nat)
    requires Inv(s, h) && CanStep(s, i) && s.pc[i].SwSignal? && k < |s.pc|
    ensures Shape(Next(s, i)) && |Next(s, i).pc| == |s.pc| && MutexOk(Next(s, i), k)
  {
    hide WakeOk, Holds;
    assert Good(s, h, i);
    assert Good(s, h, s.pc[i].t);
    assert Good(s, h, k);
    if s.owner[k] != FREE {
      assert Good(s, h, s.owner[k]);
    }
  }

  lemma SignalWake(s: State, i: nat, h: nat, k: nat)
    requires Inv(s, h) && CanStep(s, i) && s.pc[i].SwSignal? && k < |s.pc|
    ensures Shape(Next(s, i)) && |Next(s, i).pc| == |s.pc| && WakeOk(Next(s, i), k)
  {
    hide Holds;
    var s' := Next(s, i);
    assert Good(s, h, i);
    assert Good(s, h, k);
    assert s.pc[i] == SwSignal(k) ==> s.owner[k] == i && !s.pc[k].WSleep?;
    hide MutexOk;
    if Sleepy(s'.pc[k]) && s'.flag[k] {
      StillComing(s, s', i, k);
    }
  }

  /** Unlocking the other's mutex. */
  lemma UnlockKeeps(s: State, i: nat, h: nat)
    requires Inv(s, h) && CanStep(s, i) && s.pc[i].SwUnlock?
    ensures Inv(Next(s, i), h)
  {
    var s' := Next(s, i);
    assert Good(s, h, i);
    assert Good(s, h, s.pc[i].t);
    forall k | 0 <= k < |s.pc|
      ensures Good(s', h, k)
    {
      assert Good(s, h, k);
      Released(s, s', h, i, s.pc[i].t, k);
      hide MutexOk;
      if Sleepy(s'.pc[k]) && s'.flag[k] {
        StillComing(s, s', i, k);
      }
    }
  }

  /** Locking the own mutex. */
  lemma WaitLockKeeps(s: State, i: nat, h: nat)
    requires Inv(s, h) && CanStep(s, i) && (s.pc[i].WLock? || s.pc[i].WWoken?)
    ensures Inv(Next(s, i), h)
  {
    var s' := Next(s, i);
    assert Good(s, h, i);
    forall k | 0 <= k < |s.pc|
      ensures Good(s', h, k)
    {
      assert Good(s, h, k);
      Acquired(s, s', h, i, i, k);
      hide MutexOk;
      if Sleepy(s'.pc[k]) && s'.flag[k] {
        StillComing(s, s', i, k);
      }
    }
  }

  /** Looking at the own flag. A signal that set it while it was looked at is still to come. */
  lemma WaitCheckKeeps(s: State, i: nat, h: nat)
    requires Inv(s, h) && CanStep(s, i) && s.pc[i].WCheck?
    ensures Inv(Next(s, i), h)
  {
    var s' := Next(s, i);
    assert Good(s, h, i);
    forall k | 0 <= k < |s.pc|
      ensures Good(s', h, k)
    {
      assert Good(s, h, k);
      SameOwners(s, s', h, i, k);
      hide MutexOk;
      if Sleepy(s'.pc[k]) && s'.flag[k] {
        StillComing(s, s', i, k);
      }
    }
  }

  /** Going to sleep, which lets go of the mutex. */
  lemma SleepKeeps(s: State, i: nat, h: nat)
    requires Inv(s, h) && CanStep(s, i) && s.pc[i].WSleep?
    ensures Inv(Next(s, i), h)
  {
    var s' := Next(s, i);
    assert Good(s, h, i);
    forall k | 0 <= k < |s.pc|
      ensures Good(s', h, k)
    {
      assert Good(s, h, k);
      Released(s, s', h, i, i, k);
      hide MutexOk;
      if k == i && s.flag[i] {
        var j :| 0 <= j < |s.pc| && Coming(s, i, j);
        assert Coming(s', i, j);
      } else if Sleepy(s'.pc[k]) && s'.flag[k] {
        StillComing(s, s', i, k);
      }
    }
  }

  /** Going back to user code. */
  lemma WaitUnlockKeeps(s: State, i: nat, h: nat)
    requires Inv(s, h) && CanStep(s, i) && s.pc[i].WUnlock?
    ensures Inv(Next(s, i), h)
  {
    var s' := Next(s, i);
    assert Good(s, h, i);
    forall k | 0 <= k < |s.pc|
      ensures Good(s', h, k)
    {
      assert Good(s, h, k);
      Released(s, s', h, i, i, k);
      hide MutexOk;
    }
  }

  /** The steps of init; creating the thread gives it control. */
  lemma InitKeeps(s: State, i: nat, h: nat)
    requires Inv(s, h) && CanStep(s, i) && (s.pc[i].InitLock? || s.pc[i].InitClear? || s.pc[i].InitCreate?)
    ensures Inv(Next(s, i), if s.pc[i].InitCreate? then s.pc[i].n else h)
  {
    if s.pc[i].InitCreate? {
      CreateKeeps(s, i, h);
    } else {
      var s' := Next(s, i);
      assert Good(s, h, i);
      assert Good(s, h, s.pc[i].n);
      forall k | 0 <= k < |s.pc|
        ensures Good(s', h, k)
      {
        assert Good(s, h, k);
        if s.pc[i].InitLock? {
          Acquired(s, s', h, i, i, k);
        } else {
          SameOwners(s, s', h, i, k);
        }
        hide MutexOk;
      }
    }
  }

  lemma CreateKeeps(s: State, i: nat, h: nat)
    requires Inv(s, h) && CanStep(s, i) && s.pc[i].InitCreate?
    ensures Inv(Next(s, i), s.pc[i].n)
  {
    var s', n := Next(s, i), s.pc[i].n;
    assert Good(s, h, i);
    assert Good(s, h, n);
    forall k | 0 <= k < |s.pc|
      ensures Good(s', n, k)
    {
      assert Good(s, h, k);
      CreateMutex(s, h, i, n, k);
      hide MutexOk;
    }
  }

  lemma CreateMutex(s: State, h: nat, i: nat, n: nat, k: nat)
    requires Inv(s, h) && CanStep(s, i) && s.pc[i] == InitCreate(n) && s.pc[n].Unborn? && k < |s.pc|
    ensures Shape(Next(s, i)) && |Next(s, i).pc| == |s.pc| && MutexOk(Next(s, i), k)
  {
    hide Holds, Sane, WakeOk;
    assert Good(s, h, i);
    assert Good(s, h, k);
    if s.owner[k] != FREE {
      assert Good(s, h, s.owner[k]);
    }
  }

  // --------------------------------------------------- where control goes

  /** Where the control that context h has will end: at the context it switches to, else with itself. */
  function Dest(s: State, h: nat): nat
    requires h < |s.pc|
  {
    match s.pc[h]
    case SwClear(t) => t
    case SwSet(t) => t
    case _ => h
  }

  /** Every step of every thread keeps the invariant, and only user code changes where control will end. */
  lemma StepKeeps(s: State, s': State, i: nat, h: nat) returns (g: nat)
    requires Inv(s, h) && Step(s, s', i)
    ensures Inv(s', g)
    ensures !UserStep(s, s', i) ==> Dest(s', g) == Dest(s, h)
  {
    g := Holder(s, s', i, h);
    if !UserStep(s, s', i) {
      DestStays(s, s', i, h, g);
    }
  }

  /** A step that is not one of user code takes control where it was going. */
  lemma DestStays(s: State, s': State, i: nat, h: nat, g: nat)
    requires Inv(s, h) && Inv(s', g) && (InnerStep(s, s', i) || SpuriousStep(s, s', i))
    requires g == NewHolder(s, i, h)
    ensures Dest(s', g) == Dest(s, h)
  {
    hide MutexOk, WakeOk;
    assert Good(s, h, i) && Good(s, h, h);
    if InnerStep(s, s', i) && s.pc[i].SwSet? {
      assert Good(s, h, s.pc[i].t);
    }
  }

  /** Who has control after a step of i that is not one of user code. */
  function NewHolder(s: State, i: nat, h: nat): nat
    requires i < |s.pc|
  {
    match s.pc[i]
    case SwSet(t) => t
    case InitCreate(n) => n
    case _ => h
  }

  lemma Holder(s: State, s': State, i: nat, h: nat) returns (g: nat)
    requires Inv(s, h) && Step(s, s', i)
    ensures Inv(s', g) && g == (if UserStep(s, s', i) then h else NewHolder(s, i, h))
  {
    hide Inv;
    g := h;
    if UserStep(s, s', i) {
      UserKeeps(s, s', i, h);
    } else if SpuriousStep(s, s', i) {
      SpuriousKeeps(s, s', i, h);
    } else if s.pc[i].SwClear? || s.pc[i].SwSet? {
      SwitchKeeps(s, i, h);
      g := if s.pc[i].SwSet? then s.pc[i].t else h;
    } else if s.pc[i].SwLock? {
      LockKeeps(s, i, h);
    } else if s.pc[i].SwSignal? {
      SignalKeeps(s, i, h);
    } else if s.pc[i].SwUnlock? {
      UnlockKeeps(s, i, h);
    } else if s.pc[i].WLock? || s.pc[i].WWoken? {
      WaitLockKeeps(s, i, h);
    } else if s.pc[i].WCheck? {
      WaitCheckKeeps(s, i, h);
    } else if s.pc[i].WSleep? {
      SleepKeeps(s, i, h);
    } else if s.pc[i].WUnlock? {
      WaitUnlockKeeps(s, i, h);
    } else {
      InitKeeps(s, i, h);
      g := if s.pc[i].InitCreate? then s.pc[i].n else h;
    }
  }

  ghost predicate AnyStep(s: State, s': State) {
    exists i: nat :: Step(s, s', i)
  }

  /** A run: from the initial state, one step of some thread after the other. */
  ghost predicate IsRun(run: seq<State>, n: nat) {
    && n > 0 && |run| > 0 && run[0] == Initial(n)
    && forall k :: 0 < k < |run| ==> AnyStep(run[k - 1], run[k])
  }

  /** In every state of every run exactly one context has control. */
  lemma {:induction false} RunInv(run: seq<State>, n: nat, k: nat) returns (h: nat)
    requires IsRun(run, n) && k < |run|
    ensures Inv(run[k], h)
    decreases k
  {
    hide Inv, Step, Initial;
    if k == 0 {
      InitialInv(n);
      h := 0;
    } else {
      h := RunInv(run, n, k - 1);
      var i: nat :| Step(run[k - 1], run[k], i);
      h := StepKeeps(run[k - 1], run[k], i, h);
    }
  }

  /** So no two contexts are ever in user code at once. */
  lemma OneAtATime(run: seq<State>, n: nat, k: nat, i: nat, j: nat)
    requires IsRun(run, n) && k < |run| && i < |run[k].pc| && j < |run[k].pc|
    requires run[k].pc[i].Run? && run[k].pc[j].Run?
    ensures i == j
  {
    hide IsRun;
    var h := RunInv(run, n, k);
    assert Good(run[k], h, i) && Good(run[k], h, j);
  }

  // ------------------------------------------------------------ progress

  /** Whoever holds a mutex can step. */
  lemma OwnerSteps(s: State, h: nat, m: nat)
    requires Inv(s, h) && m < |s.pc| && s.owner[m] != FREE
    ensures 0 <= s.owner[m] < |s.pc| && CanStep(s, s.owner[m])
  {
    InvTargets(s, h);
    assert Good(s, h, m);
  }

  /** A thread that is neither asleep nor in user code can step, or the holder of the mutex it wants can. */
  lemma SomeoneSteps(s: State, h: nat, i: nat) returns (j: nat)
    requires Inv(s, h) && i < |s.pc|
    requires !s.pc[i].Run? && !s.pc[i].Done? && !s.pc[i].Unborn? && !s.pc[i].WWaiting?
    ensures j < |s.pc| && CanStep(s, j)
  {
    InvTargets(s, h);
    assert Good(s, h, i);
    var m := Wants(s, i);
    if m >= 0 && s.owner[m] != FREE {
      OwnerSteps(s, h, m);
      j := s.owner[m];
    } else {
      j := i;
    }
  }

  /**
   No wake-up is lost: unless the context that has control is in user code or
   its function has returned, some thread can step without a spurious wake-up.
   */
  lemma Progress(s: State, h: nat) returns (j: nat)
    requires Inv(s, h) && !s.pc[h].Run? && !s.pc[h].Done?
    ensures j < |s.pc| && CanStep(s, j)
  {
    assert Good(s, h, h);
    if s.pc[h].WWaiting? {
      var k :| 0 <= k < |s.pc| && Coming(s, h, k);
      j := SomeoneSteps(s, h, k);
    } else {
      j := SomeoneSteps(s, h, h);
    }
  }

  /** The most inner steps that a thread can take before its next user code, and those it makes possible for others. */
  function Rank(p: PC): nat {
    match p
    case InitLock(_) => 16
    case InitClear(_) => 15
    case InitCreate(_) => 14
    case SwClear(_) => 11
    case SwSet(_) => 10
    case SwLock(_) => 9
    case SwSignal(_) => 8
    case SwUnlock(_) => 4
    case WLock => 3
    case WWoken => 3
    case WCheck => 2
    case WSleep => 1
    case WUnlock => 1
    case _ => 0
  }

  function Total(pc: seq<PC>): nat {
    if pc == [] then 0 else Rank(pc[0]) + Total(pc[1..])
  }

  lemma {:induction false} TotalUpdate(pc: seq<PC>, i: nat, p: PC)
    requires i < |pc|
    ensures Total(pc[i := p]) == Total(pc) - Rank(pc[i]) + Rank(p)
  {
    if i == 0 {
      assert pc[i := p][1..] == pc[1..];
    } else {
      assert pc[i := p][1..] == pc[1..][i - 1 := p];
      TotalUpdate(pc[1..], i - 1, p);
    }
  }

  /** Each inner step brings the hand-off nearer to its end. */
  lemma InnerDecreases(s: State, i: nat, h: nat)
    requires Inv(s, h) && CanStep(s, i)
    ensures Total(Next(s, i).pc) < Total(s.pc)
  {
    hide Total;
    assert Good(s, h, i);
    var s' := Next(s, i);
    TotalUpdate(s.pc, i, s'.pc[i]);
    match s.pc[i]
    case InitCreate(n) => TotalUpdate(s.pc[i := WCheck], n, SwClear(i));
    case SwSignal(t) =>
      if s.pc[t].WWaiting? {
        TotalUpdate(s.pc[i := SwUnlock(t)], t, WWoken);
      }
    case _ =>
  }

  /** No thread has a step of its own left. */
  ghost predicate Settled(s: State) {
    forall i: nat :: !CanStep(s, i)
  }

  lemma LastStep(s: State, h: nat)
    requires Inv(s, h)
    ensures Settled(s) ==> s.pc[h].Run? || s.pc[h].Done?
  {
    if !s.pc[h].Run? && !s.pc[h].Done? {
      var j := Progress(s, h);
    }
  }

  ghost predicate AnyInner(s: State, s': State) {
    exists i: nat :: InnerStep(s, s', i)
  }

  /** However the threads are scheduled: inner steps as far as they go. */
  ghost predicate Inner(run: seq<State>) {
    forall k :: 0 < k < |run| ==> AnyInner(run[k - 1], run[k])
  }

  /** Inner steps and spurious wake-ups, in any order. */
  ghost predicate Quiet(run: seq<State>) {
    forall k :: 0 < k < |run| ==> AnyQuiet(run[k - 1], run[k])
  }

  ghost predicate AnyQuiet(s: State, s': State) {
    exists i: nat :: InnerStep(s, s', i) || SpuriousStep(s, s', i)
  }

  /** Between two steps of user code, control ends where it was going: nobody else is in user code meanwhile. */
  lemma {:induction false} ArrivesOnlyThere(run: seq<State>, h: nat) returns (g: nat)
    requires |run| > 0 && Inv(run[0], h) && Quiet(run)
    ensures var last := run[|run| - 1];
            && Inv(last, g) && Dest(last, g) == Dest(run[0], h)
            && (forall k :: 0 <= k < |last.pc| && last.pc[k].Run? ==> k == Dest(run[0], h))
    decreases |run|
  {
    hide Inv, Next;
    var n := |run| - 1;
    if n == 0 {
      g := h;
    } else {
      var front := run[..n];
      assert AnyQuiet(run[n - 1], run[n]);
      var i: nat :| InnerStep(run[n - 1], run[n], i) || SpuriousStep(run[n - 1], run[n], i);
      var was := ArrivesOnlyThere(front, h);
      QuietIsNotUser(run[n - 1], run[n], i);
      g := StepKeeps(run[n - 1], run[n], i, was);
    }
    OnlyHolderRuns(run[n], g);
  }

  lemma OnlyHolderRuns(s: State, h: nat)
    requires Inv(s, h)
    ensures forall k :: 0 <= k < |s.pc| && s.pc[k].Run? ==> k == h && Dest(s, h) == h
  {
    forall k | 0 <= k < |s.pc| && s.pc[k].Run?
      ensures k == h
    {
      assert Good(s, h, k);
    }
  }

  lemma QuietIsNotUser(s: State, s': State, i: nat)
    requires InnerStep(s, s', i) || SpuriousStep(s, s', i)
    ensures !UserStep(s, s', i) && Step(s, s', i)
  {
  }

  /**
   Every hand-off completes. From any reachable state, inner steps alone cannot
   go on for ever, and when none is left the context that control was going to
   is in user code, or its function has returned.
   */
  lemma {:induction false} HandOffCompletes(run: seq<State>, h: nat) returns (g: nat)
    requires |run| > 0 && Inv(run[0], h) && Inner(run)
    ensures |run| <= Total(run[0].pc) + 1
    ensures var last := run[|run| - 1];
            && Inv(last, g) && Dest(last, g) == Dest(run[0], h)
            && (Settled(last) ==> g == Dest(run[0], h) && (last.pc[g].Run? || last.pc[g].Done?))
    decreases |run|
  {
    hide Inv, Total, Next;
    if |run| == 1 {
      g := h;
      LastStep(run[0], h);
    } else {
      assert AnyInner(run[1 - 1], run[1]);
      var i: nat :| InnerStep(run[0], run[1], i);
      InnerDecreases(run[0], i, h);
      QuietIsNotUser(run[0], run[1], i);
      var h' := StepKeeps(run[0], run[1], i, h);
      var rest := run[1..];
      forall k | 0 < k < |rest|
        ensures AnyInner(rest[k - 1], rest[k])
      {
        assert AnyInner(run[k + 1 - 1], run[k + 1]);
      }
      g := HandOffCompletes(rest, h');
    }
  }

  /** No function returns in an inner step. */
  lemma {:induction false} NobodyReturns(run: seq<State>, k: nat)
    requires |run| > 0 && Inner(run) && k < |run[0].pc| && !run[0].pc[k].Done?
    ensures k < |run[|run| - 1].pc| && !run[|run| - 1].pc[k].Done?
    decreases |run|
  {
    var n := |run| - 1;
    if n > 0 {
      NobodyReturns(run[..n], k);
      assert AnyInner(run[n - 1], run[n]);
    }
  }

  /** A switch_to that is left to run its course ends with the context it names in user code. */
  lemma SwitchArrives(run: seq<State>, h: nat, t: nat)
    requires |run| > 0 && Inv(run[0], h) && Inner(run) && run[0].pc[h] == SwClear(t)
    requires Settled(run[|run| - 1])
    ensures t < |run[|run| - 1].pc| && run[|run| - 1].pc[t].Run?
  {
    hide Next, Total;
    assert Good(run[0], h, h);
    NobodyReturns(run, t);
    var g := HandOffCompletes(run, h);
  }

  /** An init that is left to run its course ends with the context that called it in user code. */
  lemma InitArrives(run: seq<State>, h: nat, n: nat)
    requires |run| > 0 && Inv(run[0], h) && Inner(run) && run[0].pc[h] == InitLock(n)
    requires Settled(run[|run| - 1])
    ensures h < |run[|run| - 1].pc| && run[|run| - 1].pc[h].Run?
  {
    hide Next, Total;
    NobodyReturns(run, h);
    var g := HandOffCompletes(run, h);
  }

  /** Once a context's function has returned while it had control, no step of any thread changes that. */
  lemma ReturnedStays(s: State, s': State, i: nat, h: nat)
    requires Inv(s, h) && s.pc[h].Done? && Step(s, s', i)
    ensures Inv(s', h) && s'.pc[h].Done?
  {
    assert Good(s, h, i);
    var g := Holder(s, s', i, h);
  }

  /** If a context's function returns in a run, no context is in user code at any later state of it. */
  lemma {:induction false} ReturnedForGood(run: seq<State>, n: nat, k: nat, i: nat, m: nat) returns (h: nat)
    requires IsRun(run, n) && 0 < k <= m < |run|
    requires i < |run[k - 1].pc| && run[k - 1].pc[i].Run? && run[k] == At(run[k - 1], i, Done)
    ensures Inv(run[m], h) && run[m].pc[h].Done?
    ensures forall j :: 0 <= j < |run[m].pc| ==> !run[m].pc[j].Run?
    decreases m
  {
    hide Inv, Initial, Step;
    if m == k {
      var g := RunInv(run, n, k - 1);
      ReturnKeeps(run[k - 1], i, g);
      h := i;
    } else {
      h := ReturnedForGood(run, n, k, i, m - 1);
      assert AnyStep(run[m - 1], run[m]);
      var j: nat :| Step(run[m - 1], run[m], j);
      ReturnedStays(run[m - 1], run[m], j, h);
    }
    OnlyHolderRuns(run[m], h);
  }

  /** A function that returns is that of the context that has control. */
  lemma ReturnKeeps(s: State, i: nat, h: nat)
    requires Inv(s, h) && i < |s.pc| && s.pc[i].Run?
    ensures Inv(At(s, i, Done), i)
  {
    assert Good(s, h, i);
    UserKeeps(s, At(s, i, Done), i, h);
  }

  /** The shortest such run: the only context there is returns. */
  lemma ReturnedAlone(run: seq<State>)
    requires run == [Initial(1), At(Initial(1), 0, Done)]
    ensures IsRun(run, 1) && run[1].pc[0].Done?
  {
    assert UserStep(run[0], run[1], 0);
    assert Step(run[0], run[1], 0) && AnyStep(run[1 - 1], run[1]);
  }
}
