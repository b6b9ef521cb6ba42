/** The pool of database connections: StorageEngine::Wait and Post (src/stgengine.cpp) and the
    handle that releases at most once (src/stgengine.h). */
module ConnectionPool {
  import opened Text

  datatype Slot = Slot(inUse: bool, isConnected: bool)

  predicate Usable(slots: seq<Slot>, up: seq<bool>, k: nat)
    requires k < |slots| == |up|
  {
    !slots[k].inUse && (slots[k].isConnected || up[k])
  }

  /** What the search in Wait finds from slot i on; `up` tells for which slots a connection
      attempt succeeds. */
  function Search(slots: seq<Slot>, up: seq<bool>, i: nat): (index: int)
    requires |up| == |slots| && i <= |slots|
    ensures index == -1 || i <= index < |slots|
    ensures index == -1 <==> forall k | i <= k < |slots| :: !Usable(slots, up, k)
    ensures index >= 0 ==> Usable(slots, up, index) && forall k | i <= k < index :: !Usable(slots, up, k)
    decreases |slots| - i
  {
    if i == |slots| then -1
    else if Usable(slots, up, i) then i
    else Search(slots, up, i + 1)
  }

  /** The slots after the search: the one found is connected and in use. */
  function Taken(slots: seq<Slot>, index: int): seq<Slot>
    requires index < |slots|
  {
    if index < 0 then slots else slots[index := Slot(true, true)]
  }

  /** Post clears the flag of every slot but slot 0. */
  function Given(slots: seq<Slot>, index: int): seq<Slot> {
    if 0 < index < |slots| then slots[index := slots[index].(inUse := false)] else slots
  }

  // ---- the code under the mutex ----

  class StorageEngine {
    var sem: nat
    const engine: array<Slot>

    constructor (maxConn: nat)
      ensures sem == maxConn && fresh(engine) && engine.Length == maxConn
      ensures forall i | 0 <= i < maxConn :: engine[i] == Slot(false, false)
    {
      sem := maxConn;
      engine := new Slot[maxConn](_ => Slot(false, false));
    }

    /** Wait, for a caller the semaphore lets through. A failed Connect leaves the slot alone. */
    method Wait(up: seq<bool>) returns (index: int)
      requires sem > 0 && |up| == engine.Length
      modifies this, engine
      ensures sem == old(sem) - 1
      ensures index == Search(old(engine[..]), up, 0) && engine[..] == Taken(old(engine[..]), index)
    {
      index := -1;
      sem := sem - 1;
      ghost var was := engine[..];
      var i := 0;
      while i < engine.Length
        invariant 0 <= i <= engine.Length && index == -1
        invariant engine[..] == was && Search(was, up, i) == Search(was, up, 0)
        modifies engine
      {
        if !engine[i].inUse {
          if !engine[i].isConnected {
            if up[i] {
              engine[i] := engine[i].(isConnected := true);
            }
          }
          if engine[i].isConnected {
            index := i;
            engine[index] := engine[index].(inUse := true);
            break;
          }
        }
        i := i + 1;
      }
    }

    method Post(index: int)
      modifies this, engine
      ensures sem == old(sem) + 1 && engine[..] == Given(old(engine[..]), index)
      ensures forall i | 0 <= i < engine.Length ::
                && engine[i].isConnected == old(engine[..])[i].isConnected
                && engine[i].inUse == (old(engine[..])[i].inUse && (i != index || i == 0))
    {
      if index > 0 && index < engine.Length {
        engine[index] := engine[index].(inUse := false);
      }
      sem := sem + 1;
    }
  }

  class StorageEngineInstance {
    const engine: StorageEngine
    const engineIndex: int
    var isReleased: bool

    constructor (engine: StorageEngine, up: seq<bool>)
      requires engine.sem > 0 && |up| == engine.engine.Length
      modifies engine, engine.engine
      ensures this.engine == engine && !isReleased && engine.sem == old(engine.sem) - 1
      ensures engineIndex == Search(old(engine.engine[..]), up, 0)
      ensures engine.engine[..] == Taken(old(engine.engine[..]), engineIndex)
    {
      this.engine := engine;
      var index := engine.Wait(up);
      engineIndex := index;
      isReleased := false;
    }

    /** However often it is called, the connection is given back once. */
    method Release()
      requires this != engine as object
      modifies this, engine, engine.engine
      ensures isReleased
      ensures engine.sem == old(engine.sem) + (if old(isReleased) then 0 else 1)
      ensures engine.engine[..] ==
              if old(isReleased) then old(engine.engine[..]) else Given(old(engine.engine[..]), engineIndex)
    {
      if !isReleased {
        engine.Post(engineIndex);
        isReleased := true;
      }
    }
  }

  // ---- clients that interleave ----

  type ClientId = nat

  datatype Pc =
    | Idle
    | Granted                 // past sem_wait
    | Searching               // holds the mutex
    | Found(index: int)       // searched, still holds the mutex
    | Holding(index: int)     // has the handle
    | Giving(index: int)      // in Post, wants the mutex
    | Given0                  // flag cleared, still holds the mutex
    | Posting                 // owes sem_post

  datatype State = State(sem: nat, mutex: Option<ClientId>, slots: seq<Slot>, clients: map<ClientId, Pc>)

  datatype Step =
    | Enter(c: ClientId) | Grant(c: ClientId) | LockToSearch(c: ClientId) | DoSearch(c: ClientId, up: seq<bool>)
    | UnlockFound(c: ClientId) | Release(c: ClientId) | LockToGive(c: ClientId) | UnlockGiven(c: ClientId)
    | Post(c: ClientId)

  function Init(maxConn: nat): State {
    State(maxConn, None, seq(maxConn, _ => Slot(false, false)), map[])
  }

  predicate Enabled(s: State, step: Step) {
    if step.Enter? then step.c !in s.clients
    else
      step.c in s.clients &&
      var pc := s.clients[step.c];
      match step
      case Grant(_) => pc.Idle? && s.sem > 0
      case LockToSearch(_) => pc.Granted? && s.mutex.None?
      case DoSearch(_, up) => pc.Searching? && |up| == |s.slots|
      case UnlockFound(_) => pc.Found?
      case Release(_) => pc.Holding?
      case LockToGive(_) => pc.Giving? && s.mutex.None?
      case UnlockGiven(_) => pc.Given0?
      case Post(_) => pc.Posting?
  }

  function Do(s: State, step: Step): State
    requires Enabled(s, step)
  {
    var c := step.c;
    match step
    case Enter(_) => s.(clients := s.clients[c := Idle])
    case Grant(_) => s.(sem := s.sem - 1, clients := s.clients[c := Granted])
    case LockToSearch(_) => s.(mutex := Some(c), clients := s.clients[c := Searching])
    case DoSearch(_, up) =>
      var index := Search(s.slots, up, 0);
      s.(slots := Taken(s.slots, index), clients := s.clients[c := Found(index)])
    case UnlockFound(_) => s.(mutex := None, clients := s.clients[c := Holding(s.clients[c].index)])
    case Release(_) =>
      var index := s.clients[c].index;
      s.(clients := s.clients[c := if 0 < index < |s.slots| then Giving(index) else Posting])
    case LockToGive(_) =>
      s.(mutex := Some(c), slots := Given(s.slots, s.clients[c].index), clients := s.clients[c := Given0])
    case UnlockGiven(_) => s.(mutex := None, clients := s.clients[c := Posting])
    case Post(_) => s.(sem := s.sem + 1, clients := s.clients[c := Idle])
  }

  /** The slot a client may use or has not given back; -1 for none. */
  function SlotOf(pc: Pc): int {
    if pc.Found? || pc.Holding? || pc.Giving? then pc.index else -1
  }

  predicate Holds(s: State, c: ClientId, i: int) {
    c in s.clients && SlotOf(s.clients[c]) == i
  }

  /** Clients with a permit they have not posted back. */
  function Permitted(s: State): set<ClientId> {
    set c | c in s.clients && !s.clients[c].Idle?
  }

  ghost predicate Held(s: State, i: int) {
    exists c :: Holds(s, c, i)
  }

  /** Permits are conserved. */
  predicate Counted(maxConn: nat, s: State) {
    |s.slots| == maxConn && s.sem + |Permitted(s)| == maxConn
  }

  /** No slot has two holders, and a held slot is connected and in use. */
  predicate Exclusive(s: State) {
    && (forall c | c in s.clients :: -1 <= SlotOf(s.clients[c]) < |s.slots|)
    && (forall c | c in s.clients && s.clients[c].Giving? :: s.clients[c].index > 0)
    && (forall c, d | c in s.clients && d in s.clients && c != d && SlotOf(s.clients[c]) >= 0 ::
          SlotOf(s.clients[c]) != SlotOf(s.clients[d]))
    && (forall c | c in s.clients && SlotOf(s.clients[c]) >= 0 :: s.slots[SlotOf(s.clients[c])] == Slot(true, true))
  }

  /** Behind slot 0, a slot in use is held. */
  ghost predicate Accounted(s: State) {
    forall i | 0 < i < |s.slots| && s.slots[i].inUse :: Held(s, i)
  }

  ghost predicate Inv(maxConn: nat, s: State) {
    Counted(maxConn, s) && Exclusive(s) && Accounted(s)
  }

  lemma InitInv(maxConn: nat)
    ensures Inv(maxConn, Init(maxConn))
  {
    assert Permitted(Init(maxConn)) == {};
  }

  lemma StepCounted(maxConn: nat, s: State, step: Step)
    requires Counted(maxConn, s) && Enabled(s, step)
    ensures Counted(maxConn, Do(s, step))
  {
    hide Search;
    var t, c := Do(s, step), step.c;
    if step.Grant? {
      assert Permitted(t) == Permitted(s) + {c} && c !in Permitted(s);
    } else if step.Post? {
      assert Permitted(t) == Permitted(s) - {c} && c in Permitted(s);
    } else {
      assert Permitted(t) == Permitted(s);
    }
  }

  lemma SearchExclusive(s: State, c: ClientId, up: seq<bool>)
    requires Exclusive(s) && Enabled(s, DoSearch(c, up))
    ensures Exclusive(Do(s, DoSearch(c, up)))
  {
    hide Search;
    var t, index := Do(s, DoSearch(c, up)), Search(s.slots, up, 0);
    assert forall d | d in s.clients && d != c :: t.clients[d] == s.clients[d];
    if index >= 0 {
      assert Usable(s.slots, up, index);
      assert forall d | d in s.clients && SlotOf(s.clients[d]) >= 0 :: SlotOf(s.clients[d]) != index;
    }
  }

  lemma GiveExclusive(s: State, c: ClientId)
    requires Exclusive(s) && Enabled(s, LockToGive(c))
    ensures Exclusive(Do(s, LockToGive(c)))
  {
    var t, index := Do(s, LockToGive(c)), s.clients[c].index;
    assert forall d | d in s.clients && d != c :: t.clients[d] == s.clients[d] && SlotOf(s.clients[d]) != index;
  }

  /** A step of c that leaves the slots alone and keeps c's slot or gives it up. */
  lemma SlotsKept(s: State, t: State, c: ClientId)
    requires Exclusive(s) && t.slots == s.slots && c in t.clients && t.clients.Keys == s.clients.Keys + {c}
    requires forall d | d in s.clients && d != c :: t.clients[d] == s.clients[d]
    requires SlotOf(t.clients[c]) == -1 || (c in s.clients && SlotOf(t.clients[c]) == SlotOf(s.clients[c]))
    requires t.clients[c].Giving? ==> t.clients[c].index > 0
    ensures Exclusive(t)
  {
  }

  lemma StepExclusive(s: State, step: Step)
    requires Exclusive(s) && Enabled(s, step)
    ensures Exclusive(Do(s, step))
  {
    hide Search;
    if step.DoSearch? {
      SearchExclusive(s, step.c, step.up);
    } else if step.LockToGive? {
      GiveExclusive(s, step.c);
    } else {
      hide Exclusive, Given, Taken;
      SlotsKept(s, Do(s, step), step.c);
    }
  }

  lemma StepAccounted(s: State, step: Step)
    requires Exclusive(s) && Accounted(s) && Enabled(s, step)
    ensures Accounted(Do(s, step))
  {
    hide Search;
    var t, c := Do(s, step), step.c;
    forall i | 0 < i < |t.slots| && t.slots[i].inUse ensures Held(t, i) {
      if !Holds(t, c, i) {
        assert s.slots[i].inUse;
        var d :| Holds(s, d, i);
        assert d != c;
        assert Holds(t, d, i);
      }
    }
  }

  lemma StepInv(maxConn: nat, s: State, step: Step)
    requires Inv(maxConn, s) && Enabled(s, step)
    ensures Inv(maxConn, Do(s, step))
  {
    hide Counted, Exclusive, Accounted, Do;
    StepCounted(maxConn, s, step);
    StepExclusive(s, step);
    StepAccounted(s, step);
  }

  function Run(s: State, steps: seq<Step>): Option<State>
    decreases |steps|
  {
    if steps == [] then Some(s)
    else if Enabled(s, steps[0]) then Run(Do(s, steps[0]), steps[1..])
    else None
  }

  lemma {:induction false} RunInv(maxConn: nat, s: State, steps: seq<Step>)
    requires Inv(maxConn, s) && Run(s, steps).Some?
    ensures Inv(maxConn, Run(s, steps).value)
    decreases |steps|
  {
    if steps != [] {
      StepInv(maxConn, s, steps[0]);
      RunInv(maxConn, Do(s, steps[0]), steps[1..]);
    }
  }

  /** In every interleaving: permits are conserved, no connection has two users, and a slot other
      than slot 0 is in use exactly while some client holds it. */
  lemma Reachable(maxConn: nat, steps: seq<Step>)
    requires Run(Init(maxConn), steps).Some?
    ensures var s := Run(Init(maxConn), steps).value;
            && s.sem + |Permitted(s)| == maxConn && |s.slots| == maxConn
            && (forall c, d, i | i >= 0 && Holds(s, c, i) && Holds(s, d, i) :: c == d)
            && (forall i | 0 < i < maxConn :: s.slots[i].inUse <==> Held(s, i))
            && (maxConn > 0 && Held(s, 0) ==> s.slots[0].inUse)
  {
    InitInv(maxConn);
    RunInv(maxConn, Init(maxConn), steps);
  }

  // ---- the mutex ----

  /** Between lock and unlock. */
  predicate Inside(pc: Pc) { pc.Searching? || pc.Found? || pc.Given0? }

  predicate MutexKept(s: State) {
    && (forall c | c in s.clients :: Inside(s.clients[c]) <==> s.mutex == Some(c))
    && (s.mutex.Some? ==> s.mutex.value in s.clients)
  }

  lemma StepMutex(s: State, step: Step)
    requires MutexKept(s) && Enabled(s, step)
    ensures MutexKept(Do(s, step))
    ensures Do(s, step).slots != s.slots ==> Do(s, step).mutex == Some(step.c)
  {
    hide Search;
  }

  lemma {:induction false} RunMutex(s: State, steps: seq<Step>)
    requires MutexKept(s) && Run(s, steps).Some?
    ensures MutexKept(Run(s, steps).value)
    decreases |steps|
  {
    if steps != [] {
      StepMutex(s, steps[0]);
      hide Do, Enabled;
      RunMutex(Do(s, steps[0]), steps[1..]);
    }
  }

  /** In every interleaving at most one client is between lock and unlock. */
  lemma OneInside(maxConn: nat, steps: seq<Step>, c: ClientId, d: ClientId)
    requires Run(Init(maxConn), steps).Some?
    requires var s := Run(Init(maxConn), steps).value;
             c in s.clients && d in s.clients && Inside(s.clients[c]) && Inside(s.clients[d])
    ensures c == d
  {
    RunMutex(Init(maxConn), steps);
  }

  // ---- slot 0 ----

  /** Once used, slot 0 is in use for ever ... */
  lemma {:induction false} SlotZeroStays(maxConn: nat, s: State, steps: seq<Step>)
    requires Inv(maxConn, s) && Run(s, steps).Some?
    requires maxConn > 0 && s.slots[0].inUse
    ensures |Run(s, steps).value.slots| > 0 && Run(s, steps).value.slots[0].inUse
    decreases |steps|
  {
    if steps != [] {
      StepInv(maxConn, s, steps[0]);
      SlotZeroStays(maxConn, Do(s, steps[0]), steps[1..]);
    }
  }

  /** ... also when its holder has released it: it has leaked. */
  ghost predicate Leaked(s: State) {
    |s.slots| > 0 && s.slots[0].inUse && !Held(s, 0)
  }

  /** Clients that hold one of the first k slots. */
  function HoldersBelow(s: State, k: nat): set<ClientId> {
    set c | c in s.clients && 0 <= SlotOf(s.clients[c]) < k
  }

  lemma {:induction false} SubsetSize(a: set<ClientId>, b: set<ClientId>)
    requires a <= b
    ensures |a| <= |b|
  {
    if a != {} {
      var x :| x in a;
      SubsetSize(a - {x}, b - {x});
    }
  }

  lemma {:induction false} ManyHolders(s: State, k: nat)
    requires forall i | 0 <= i < k :: Held(s, i)
    ensures |HoldersBelow(s, k)| >= k
  {
    if k > 0 {
      ManyHolders(s, k - 1);
      assert Held(s, k - 1);
      var c :| Holds(s, c, k - 1);
      assert HoldersBelow(s, k) >= HoldersBelow(s, k - 1) + {c} && c !in HoldersBelow(s, k - 1);
      SubsetSize(HoldersBelow(s, k - 1) + {c}, HoldersBelow(s, k));
    }
  }

  /** Somebody who searches leaves at least one slot without a holder. */
  lemma NotAllHeld(maxConn: nat, s: State, c: ClientId)
    requires Counted(maxConn, s) && c in s.clients && s.clients[c].Searching?
    ensures exists i :: 0 <= i < maxConn && !Held(s, i)
  {
    if forall i | 0 <= i < maxConn :: Held(s, i) {
      ManyHolders(s, maxConn);
      var holders := HoldersBelow(s, maxConn);
      assert c in Permitted(s) && c !in holders;
      SubsetSize(holders + {c}, Permitted(s));
    }
  }

  /** A client the semaphore lets through comes away empty exactly when each slot is held, is slot 0
      leaked, or has no connection and gets none. */
  lemma EmptyHanded(maxConn: nat, s: State, c: ClientId, up: seq<bool>)
    requires Inv(maxConn, s) && Enabled(s, DoSearch(c, up))
    ensures Search(s.slots, up, 0) == -1 <==>
            forall i | 0 <= i < maxConn :: Held(s, i) || (i == 0 && Leaked(s)) || !(s.slots[i].isConnected || up[i])
  {
    hide Search;
    assert forall i | 0 <= i < maxConn ::
      Usable(s.slots, up, i) <==> !s.slots[i].inUse && (s.slots[i].isConnected || up[i]);
    assert forall i | 0 < i < maxConn :: s.slots[i].inUse <==> Held(s, i);
    assert maxConn > 0 && Held(s, 0) ==> s.slots[0].inUse;
  }

  /** With every connection attempt succeeding that leaves one case: slot 0 has leaked and all other
      slots are held. */
  lemma EmptyHandedWhenUp(maxConn: nat, s: State, c: ClientId, up: seq<bool>)
    requires Inv(maxConn, s) && Enabled(s, DoSearch(c, up)) && forall i | 0 <= i < |up| :: up[i]
    ensures Search(s.slots, up, 0) == -1 <==> Leaked(s) && forall i | 0 < i < maxConn :: Held(s, i)
  {
    hide Search, Held;
    EmptyHanded(maxConn, s, c, up);
    NotAllHeld(maxConn, s, c);
  }

  // ---- how slots come into use and get connected ----

  /** The step searches and finds slot i. */
  predicate Finds(s: State, step: Step, i: nat) {
    step.DoSearch? && |step.up| == |s.slots| && Search(s.slots, step.up, 0) == i
  }

  /** Some step of the run does. */
  predicate FoundIn(s: State, steps: seq<Step>, i: nat)
    decreases |steps|
  {
    steps != [] && Enabled(s, steps[0]) && (Finds(s, steps[0], i) || FoundIn(Do(s, steps[0]), steps[1..], i))
  }

  lemma SlotCount(maxConn: nat, s: State)
    requires Inv(maxConn, s)
    ensures |s.slots| == maxConn
  {
  }

  lemma StepZero(s: State, step: Step)
    requires Enabled(s, step) && |s.slots| > 0 && Exclusive(s)
    ensures |Do(s, step).slots| > 0
    ensures Do(s, step).slots[0].inUse <==> s.slots[0].inUse || Finds(s, step, 0)
  {
    hide Search;
  }

  /** Slot 0 is in use if and only if it was, or a search of the run found it. */
  lemma {:induction false} SlotZeroTaken(maxConn: nat, s: State, steps: seq<Step>)
    requires Inv(maxConn, s) && Run(s, steps).Some? && maxConn > 0
    ensures var t := Run(s, steps).value;
            |t.slots| == maxConn && (t.slots[0].inUse <==> s.slots[0].inUse || FoundIn(s, steps, 0))
    decreases |steps|
  {
    if steps != [] {
      StepInv(maxConn, s, steps[0]);
      StepZero(s, steps[0]);
      hide Inv, Do, Enabled, Finds;
      SlotCount(maxConn, Do(s, steps[0]));
      SlotZeroTaken(maxConn, Do(s, steps[0]), steps[1..]);
    }
  }

  lemma StepConnected(s: State, step: Step, i: nat)
    requires Enabled(s, step) && i < |s.slots|
    ensures i < |Do(s, step).slots|
    ensures Do(s, step).slots[i].isConnected <==> s.slots[i].isConnected || Finds(s, step, i)
  {
    hide Search;
  }

  /** A connection, once made, is kept: a slot is connected if and only if it was, or a search of the
      run found it, whoever has released it since. */
  lemma {:induction false} ConnectedStays(maxConn: nat, s: State, steps: seq<Step>, i: nat)
    requires Inv(maxConn, s) && Run(s, steps).Some? && i < maxConn
    ensures var t := Run(s, steps).value;
            && |s.slots| == |t.slots| == maxConn
            && (t.slots[i].isConnected <==> s.slots[i].isConnected || FoundIn(s, steps, i))
    decreases |steps|
  {
    SlotCount(maxConn, s);
    if steps != [] {
      StepInv(maxConn, s, steps[0]);
      StepConnected(s, steps[0], i);
      hide Inv, Do, Enabled, Finds;
      ConnectedStays(maxConn, Do(s, steps[0]), steps[1..], i);
    }
  }

  lemma StepLeaked(s: State, step: Step)
    requires Enabled(s, step) && Leaked(s) && Exclusive(s)
    ensures Leaked(Do(s, step))
  {
    hide Search;
    var t, c := Do(s, step), step.c;
    StepZero(s, step);
    assert step.DoSearch? ==> !Usable(s.slots, step.up, 0);
    forall d
      ensures !Holds(t, d, 0)
    {
      assert !Holds(s, d, 0) && !Holds(s, c, 0);
    }
  }

  /** A leak is never mended. */
  lemma {:induction false} LeakStays(maxConn: nat, s: State, steps: seq<Step>)
    requires Inv(maxConn, s) && Run(s, steps).Some? && Leaked(s)
    ensures Leaked(Run(s, steps).value)
    decreases |steps|
  {
    if steps != [] {
      StepInv(maxConn, s, steps[0]);
      StepLeaked(s, steps[0]);
      hide Inv, Do, Enabled, Leaked;
      LeakStays(maxConn, Do(s, steps[0]), steps[1..]);
    }
  }

  /** A pool of one gives out its connection once: after its release no client ever holds one again. */
  lemma PoolOfOne(s: State, steps: seq<Step>, c: ClientId, i: nat)
    requires Inv(1, s) && Run(s, steps).Some? && Leaked(s)
    ensures !Holds(Run(s, steps).value, c, i)
  {
    RunInv(1, s, steps);
    LeakStays(1, s, steps);
    var t := Run(s, steps).value;
    assert !Holds(t, c, 0);
  }

  /** A run that leaks the only slot of a pool of one: one client takes the connection and releases
      it. */
  const ONE_CLIENT: seq<Step> :=
    [Enter(0), Grant(0), LockToSearch(0), DoSearch(0, [true]), UnlockFound(0), Release(0), Post(0)]

  const LEAKED_POOL := State(1, None, [Slot(true, true)], map[0 := Idle])

  lemma Advance(s: State, steps: seq<Step>, t: State)
    requires steps != [] && Enabled(s, steps[0]) && t == Do(s, steps[0])
    ensures Run(s, steps) == Run(t, steps[1..])
  {
  }

  const TAKEN_POOL := State(0, Some(0), [Slot(true, true)], map[0 := Found(0)])

  lemma TakesSlot()
    ensures Run(Init(1), ONE_CLIENT) == Run(TAKEN_POOL, ONE_CLIENT[4..])
  {
    hide Run;
    var free, r := [Slot(false, false)], ONE_CLIENT;
    assert r[1..][1..] == r[2..] && r[2..][1..] == r[3..] && r[3..][1..] == r[4..];
    var s0 := State(1, None, free, map[]);
    assert Init(1) == s0;
    var s1 := s0.(clients := map[0 := Idle]);
    Advance(s0, r, s1);
    var s2 := s1.(sem := 0, clients := map[0 := Granted]);
    Advance(s1, r[1..], s2);
    var s3 := s2.(mutex := Some(0), clients := map[0 := Searching]);
    Advance(s2, r[2..], s3);
    assert Usable(free, [true], 0) && Taken(free, 0) == [Slot(true, true)];
    Advance(s3, r[3..], TAKEN_POOL);
  }

  lemma RunNothing(s: State)
    ensures Run(s, []) == Some(s)
  {
  }

  lemma GivesBack()
    ensures Run(TAKEN_POOL, ONE_CLIENT[4..]) == Some(LEAKED_POOL)
  {
    hide Run;
    var r := ONE_CLIENT;
    assert r[4..][1..] == r[5..] && r[5..][1..] == r[6..] && r[6..][1..] == r[7..] == [];
    var s5 := TAKEN_POOL.(mutex := None, clients := map[0 := Holding(0)]);
    Advance(TAKEN_POOL, r[4..], s5);
    var s6 := s5.(clients := map[0 := Posting]);
    Advance(s5, r[5..], s6);
    Advance(s6, r[6..], LEAKED_POOL);
    RunNothing(LEAKED_POOL);
  }

  lemma OneClient()
    ensures Run(Init(1), ONE_CLIENT) == Some(LEAKED_POOL)
  {
    hide Run;
    TakesSlot();
    GivesBack();
  }

  lemma LeakIsReachable()
    ensures Run(Init(1), ONE_CLIENT) == Some(LEAKED_POOL) && Leaked(LEAKED_POOL) && Inv(1, LEAKED_POOL)
  {
    assert Run(Init(1), ONE_CLIENT) == Some(LEAKED_POOL) by {
      OneClient();
    }
    InitInv(1);
    RunInv(1, Init(1), ONE_CLIENT);
    assert forall c :: !Holds(LEAKED_POOL, c, 0);
  }
}
