/**
  hw5/src/client_registry.c as a transition system: any number of threads, each between two
  semaphore operations of one of the registry's routines, stepping in any order.
*/
module ClientRegistry {
  import opened Wrappers

  const MAX_CLIENTS := 64

  /** A client object; `id` tells objects apart, `fd` is what client_get_fd returns. */
  datatype Client = Client(id: nat, fd: int)

  /** Where a thread is: what it will do next. */
  datatype Phase =
    | Idle
    | RegPin(fd: int) | RegMutex(fd: int) | RegBody(fd: int) | RegUnlock | RegPost
    | UnCli(cli: Client) | UnMutex(cli: Client) | UnBody(cli: Client) | UnUnlock | UnPost
    | WaitMutex | WaitLoop | WaitUnlock
    | ShutMutex | ShutLoop(i: nat) | ShutUnlock

  /**
    The registry, its semaphores and its threads. The last four fields record what happened:
    how many clients were created, and what routines that failed have kept.
  */
  datatype State = State(
    conns: seq<Client>, mutex: nat, pin: nat, cli: nat, threads: map<nat, Phase>, shut: set<Client>,
    created: nat, lostPin: nat, lostCli: nat, lostMutex: nat)

  /** A new thread, a call, or the next step of a call; creating a client may fail. */
  datatype Action = Spawn | Register(fd: int) | Unregister(cli: Client) | WaitForEmpty | ShutdownAll | Go | CreateFails

  // ----- the connections array -----

  /** The first entry with this descriptor, or the length. */
  function FirstFd(s: seq<Client>, fd: int): (i: nat)
    ensures i <= |s| && (i < |s| ==> s[i].fd == fd) && forall j :: 0 <= j < i ==> s[j].fd != fd
  {
    if s == [] then 0 else if s[0].fd == fd then 0 else 1 + FirstFd(s[1..], fd)
  }

  /** Entry i overwritten with the last one, and the array one shorter. */
  function SwapRemoved(s: seq<Client>, i: nat): (t: seq<Client>)
    requires i < |s|
    ensures |t| == |s| - 1
  {
    s[i := s[|s| - 1]][..|s| - 1]
  }

  /** Swap-removal keeps exactly the other entries. */
  lemma SwapKeepsOthers(s: seq<Client>, i: nat)
    requires i < |s|
    ensures multiset(SwapRemoved(s, i)) == multiset(s) - multiset{s[i]}
  {
    var n := |s| - 1;
    assert s == s[..n] + [s[n]];
    if i < n {
      assert SwapRemoved(s, i) == s[..i] + [s[n]] + s[i + 1..n];
      assert s[..n] == s[..i] + [s[i]] + s[i + 1..n];
    } else {
      assert SwapRemoved(s, i) == s[..n];
    }
  }

  predicate NoTwins(s: seq<Client>) {
    forall i, j :: 0 <= i < j < |s| ==> s[i] != s[j]
  }

  /** What is removed for a registered client is that client exactly when no earlier entry has its descriptor. */
  lemma RemovesTheClient(s: seq<Client>, k: nat)
    requires NoTwins(s) && k < |s|
    ensures FirstFd(s, s[k].fd) < |s|
    ensures s[FirstFd(s, s[k].fd)] == s[k] <==> forall j :: 0 <= j < k ==> s[j].fd != s[k].fd
  {
    var i := FirstFd(s, s[k].fd);
    assert i <= k;
  }

  // ----- one step of one thread -----

  function To(s: State, t: nat, p: Phase): State {
    s.(threads := s.threads[t := p])
  }

  /** P on the mutex: possible when it is 1. */
  function Lock(s: State, t: nat, p: Phase): Option<State> {
    if s.mutex > 0 then Some(To(s, t, p).(mutex := s.mutex - 1)) else None
  }

  function Unlock(s: State, t: nat, p: Phase): Option<State> {
    Some(To(s, t, p).(mutex := s.mutex + 1))
  }

  /** The critical section of creg_register. Both failures return without releasing anything. */
  function Enter(s: State, t: nat, fd: int, fails: bool): Option<State> {
    if |s.conns| == MAX_CLIENTS || fails then
      Some(To(s, t, Idle).(lostPin := s.lostPin + 1, lostMutex := s.lostMutex + 1))
    else
      Some(To(s, t, RegUnlock).(conns := s.conns + [Client(s.created, fd)], created := s.created + 1))
  }

  /** The critical section of creg_unregister. An unknown client returns without releasing anything. */
  function Leave(s: State, t: nat, c: Client): Option<State> {
    var i := FirstFd(s.conns, c.fd);
    if i == |s.conns| then
      Some(To(s, t, Idle).(lostCli := s.lostCli + 1, lostMutex := s.lostMutex + 1))
    else
      Some(To(s, t, UnUnlock).(conns := SwapRemoved(s.conns, i)))
  }

  /** The next step of thread t in its routine; None while it is blocked. */
  function Advance(s: State, t: nat): Option<State>
    requires t in s.threads
  {
    match s.threads[t]
    case Idle => None
    case RegPin(fd) => if s.pin > 0 then Some(To(s, t, RegMutex(fd)).(pin := s.pin - 1)) else None
    case RegMutex(fd) => Lock(s, t, RegBody(fd))
    case RegBody(fd) => Enter(s, t, fd, false)
    case RegUnlock => Unlock(s, t, RegPost)
    case RegPost => Some(To(s, t, Idle).(cli := s.cli + 1))
    case UnCli(c) => if s.cli > 0 then Some(To(s, t, UnMutex(c)).(cli := s.cli - 1)) else None
    case UnMutex(c) => Lock(s, t, UnBody(c))
    case UnBody(c) => Leave(s, t, c)
    case UnUnlock => Unlock(s, t, UnPost)
    case UnPost => Some(To(s, t, Idle).(pin := s.pin + 1))
    case WaitMutex => Lock(s, t, WaitLoop)
    case WaitLoop => Some(if |s.conns| > 0 then s else To(s, t, WaitUnlock))
    case WaitUnlock => Unlock(s, t, Idle)
    case ShutMutex => Lock(s, t, ShutLoop(0))
    case ShutLoop(i) =>
      if i < |s.conns| then Some(To(s, t, ShutLoop(i + 1)).(shut := s.shut + {s.conns[i]})) else Some(To(s, t, ShutUnlock))
    case ShutUnlock => Unlock(s, t, Idle)
  }

  function Step(s: State, t: nat, a: Action): Option<State> {
    if t !in s.threads then
      if a.Spawn? then Some(To(s, t, Idle)) else None
    else
      match a
      case Spawn => None
      case Go => Advance(s, t)
      case CreateFails => if s.threads[t].RegBody? then Enter(s, t, s.threads[t].fd, true) else None
      case Register(fd) => if s.threads[t].Idle? then Some(To(s, t, RegPin(fd))) else None
      case Unregister(c) => if s.threads[t].Idle? then Some(To(s, t, UnCli(c))) else None
      case WaitForEmpty => if s.threads[t].Idle? then Some(To(s, t, WaitMutex)) else None
      case ShutdownAll => if s.threads[t].Idle? then Some(To(s, t, ShutMutex)) else None
  }

  /** creg_init. */
  function Init(): State {
    State([], 1, MAX_CLIENTS, 0, map[], {}, 0, 0, 0, 0)
  }

  /** The state after a schedule: which thread does what, in which order. */
  function Run(s: State, schedule: seq<(nat, Action)>): Option<State>
    decreases |schedule|
  {
    if schedule == [] then Some(s)
    else
      match Step(s, schedule[0].0, schedule[0].1)
      case None => None
      case Some(s') => Run(s', schedule[1..])
  }

  // ----- counting threads -----

  /** Registering, with a pin taken and nothing inserted yet. */
  predicate Coming(p: Phase) {
    p.RegMutex? || p.RegBody?
  }

  /** Registering, inserted and not yet announced. */
  predicate Arrived(p: Phase) {
    p.RegUnlock? || p.RegPost?
  }

  /** Unregistering, a client claimed and not yet removed. */
  predicate Going(p: Phase) {
    p.UnMutex? || p.UnBody?
  }

  /** Unregistering, removed and its pin not yet returned. */
  predicate Gone(p: Phase) {
    p.UnUnlock? || p.UnPost?
  }

  predicate Holding(p: Phase) {
    p.RegBody? || p.RegUnlock? || p.UnBody? || p.UnUnlock? || p.WaitLoop? || p.WaitUnlock? || p.ShutLoop? || p.ShutUnlock?
  }

  predicate AtMutex(p: Phase) {
    p.RegMutex? || p.UnMutex? || p.WaitMutex? || p.ShutMutex?
  }

  function Those(threads: map<nat, Phase>, f: Phase -> bool): set<nat> {
    set t | t in threads && f(threads[t])
  }

  function Count(threads: map<nat, Phase>, f: Phase -> bool): nat {
    |Those(threads, f)|
  }

  lemma CountMoves(threads: map<nat, Phase>, t: nat, p: Phase, f: Phase -> bool)
    ensures Count(threads[t := p], f)
         == Count(threads, f) - (if t in threads && f(threads[t]) then 1 else 0) + (if f(p) then 1 else 0)
  {
    var before, after := Those(threads, f), Those(threads[t := p], f);
    assert after - {t} == before - {t};
    assert t in after <==> f(p);
    assert t in after ==> after == (after - {t}) + {t};
    assert t !in after ==> after == after - {t};
    assert t in before ==> before == (before - {t}) + {t};
    assert t !in before ==> before == before - {t};
  }

  lemma CountSome(threads: map<nat, Phase>, t: nat, f: Phase -> bool)
    requires t in threads && f(threads[t])
    ensures Count(threads, f) >= 1
  {
    assert t in Those(threads, f);
  }

  // ----- what every step keeps -----

  /** Slots, announcements and the lock are conserved, whoever holds them. */
  ghost predicate Conserved(s: State) {
    && s.pin + Count(s.threads, Coming) + |s.conns| + Count(s.threads, Gone) + s.lostPin == MAX_CLIENTS
    && s.cli + Count(s.threads, Arrived) + Count(s.threads, Going) + s.lostCli == |s.conns|
    && s.mutex + Count(s.threads, Holding) + s.lostMutex == 1
  }

  /** Client objects are registered once, and never before they are created. */
  ghost predicate Registered(s: State) {
    && (forall i :: 0 <= i < |s.conns| ==> s.conns[i].id < s.created)
    && forall i, j :: 0 <= i < j < |s.conns| ==> s.conns[i].id != s.conns[j].id
  }

  /** Who waits for an empty registry and is through sees it empty; what is to be shut down is. */
  ghost predicate Progress(s: State) {
    forall t :: t in s.threads ==> InPlace(s, s.threads[t])
  }

  predicate InPlace(s: State, p: Phase) {
    match p
    case WaitUnlock => s.conns == []
    case ShutLoop(i) => i <= |s.conns| && forall j :: 0 <= j < i ==> s.conns[j] in s.shut
    case ShutUnlock => forall j :: 0 <= j < |s.conns| ==> s.conns[j] in s.shut
    case _ => true
  }

  ghost predicate Inv(s: State) {
    Conserved(s) && Registered(s) && Progress(s)
  }

  function One(b: bool): nat {
    if b then 1 else 0
  }

  function Was(s: State, t: nat): Phase {
    if t in s.threads then s.threads[t] else Idle
  }

  /** A step of one thread conserves all three if what it takes and gives is what its phase accounts for. */
  lemma Balanced(s: State, s': State, t: nat, p: Phase, q: Phase)
    requires Conserved(s) && s'.threads == s.threads[t := q] && p == Was(s, t)
    requires s'.pin + One(Coming(q)) + |s'.conns| + One(Gone(q)) + s'.lostPin
          == s.pin + One(Coming(p)) + |s.conns| + One(Gone(p)) + s.lostPin
    requires s'.cli + One(Arrived(q)) + One(Going(q)) + s'.lostCli - |s'.conns|
          == s.cli + One(Arrived(p)) + One(Going(p)) + s.lostCli - |s.conns|
    requires s'.mutex + One(Holding(q)) + s'.lostMutex == s.mutex + One(Holding(p)) + s.lostMutex
    ensures Conserved(s')
  {
    CountMoves(s.threads, t, q, Coming);
    CountMoves(s.threads, t, q, Arrived);
    CountMoves(s.threads, t, q, Going);
    CountMoves(s.threads, t, q, Gone);
    CountMoves(s.threads, t, q, Holding);
    hide Count;
  }

  /** At most one thread is inside. */
  lemma AloneInside(s: State, t: nat, u: nat)
    requires Conserved(s) && t in s.threads && Holding(s.threads[t]) && u in s.threads && Holding(s.threads[u])
    ensures t == u
  {
    var those := Those(s.threads, Holding);
    assert {t, u} <= those;
    SubsetSize({t, u}, those);
    assert t != u ==> |{t, u}| == 2;
  }

  lemma SubsetSize<T>(a: set<T>, b: set<T>)
    requires a <= b
    ensures |a| <= |b|
  {
    if a != {} {
      var x :| x in a;
      SubsetSize(a - {x}, b - {x});
    }
  }

  /** Whoever is inside register finds room; whoever is inside unregister finds an entry to look at. */
  lemma RoomInside(s: State, t: nat)
    requires Conserved(s) && t in s.threads
    ensures s.threads[t].RegBody? ==> |s.conns| < MAX_CLIENTS
    ensures s.threads[t].UnBody? ==> |s.conns| > 0
  {
    if s.threads[t].RegBody? {
      CountSome(s.threads, t, Coming);
    }
    if s.threads[t].UnBody? {
      CountSome(s.threads, t, Going);
    }
  }

  predicate Registering(p: Phase) {
    p.RegPin? || p.RegMutex? || p.RegBody? || p.RegUnlock? || p.RegPost?
  }

  predicate Unregistering(p: Phase) {
    p.UnCli? || p.UnMutex? || p.UnBody? || p.UnUnlock? || p.UnPost?
  }

  lemma RegisterConserves(s: State, t: nat, p: Phase)
    requires Conserved(s) && t in s.threads && s.threads[t] == p && Registering(p) && Advance(s, t).Some?
    ensures Conserved(Advance(s, t).value)
  {
    hide Conserved, Count;
    var s' := Advance(s, t).value;
    Balanced(s, s', t, p, s'.threads[t]);
  }

  lemma UnregisterConserves(s: State, t: nat, p: Phase)
    requires Conserved(s) && t in s.threads && s.threads[t] == p && Unregistering(p) && Advance(s, t).Some?
    ensures Conserved(Advance(s, t).value)
  {
    hide Conserved, Count, SwapRemoved, FirstFd;
    var s' := Advance(s, t).value;
    Balanced(s, s', t, p, s'.threads[t]);
  }

  lemma OthersConserve(s: State, t: nat, p: Phase)
    requires Conserved(s) && t in s.threads && s.threads[t] == p && !Registering(p) && !Unregistering(p)
    requires Advance(s, t).Some?
    ensures Conserved(Advance(s, t).value)
  {
    hide Conserved, Count;
    var s' := Advance(s, t).value;
    if s' != s {
      Balanced(s, s', t, p, s'.threads[t]);
    }
  }

  lemma StepConserves(s: State, t: nat, a: Action)
    requires Conserved(s) && Step(s, t, a).Some?
    ensures Conserved(Step(s, t, a).value)
  {
    hide Conserved, Count, Advance;
    var s' := Step(s, t, a).value;
    if a.Go? && t in s.threads {
      var p := s.threads[t];
      if Registering(p) {
        RegisterConserves(s, t, p);
      } else if Unregistering(p) {
        UnregisterConserves(s, t, p);
      } else {
        OthersConserve(s, t, p);
      }
    } else {
      Balanced(s, s', t, Was(s, t), s'.threads[t]);
    }
  }

  /** What one step does to the registered clients: nothing, a new one at the end, or one taken out. */
  lemma StepClients(s: State, t: nat, a: Action)
    requires Step(s, t, a).Some?
    ensures var s' := Step(s, t, a).value;
            if a.Go? && s.threads[t].RegBody? && |s.conns| != MAX_CLIENTS then
              s'.created == s.created + 1 && s'.conns == s.conns + [Client(s.created, s.threads[t].fd)]
            else if a.Go? && s.threads[t].UnBody? && exists c :: c in s.conns && c.fd == s.threads[t].cli.fd then
              && s'.created == s.created && FirstFd(s.conns, s.threads[t].cli.fd) < |s.conns|
              && s'.conns == SwapRemoved(s.conns, FirstFd(s.conns, s.threads[t].cli.fd))
            else s'.conns == s.conns && s'.created == s.created
  {
    if t in s.threads && s.threads[t].UnBody? {
      var fd := s.threads[t].cli.fd;
      var i := FirstFd(s.conns, fd);
      assert i < |s.conns| ==> s.conns[i] in s.conns;
      assert forall c :: c in s.conns ==> exists j :: 0 <= j < |s.conns| && s.conns[j] == c;
    }
    hide SwapRemoved, FirstFd;
  }

  lemma RemovedStaysRegistered(s: seq<Client>, created: nat, i: nat)
    requires i < |s| && forall k :: 0 <= k < |s| ==> s[k].id < created
    requires forall k, j :: 0 <= k < j < |s| ==> s[k].id != s[j].id
    ensures var r := SwapRemoved(s, i);
            && (forall k :: 0 <= k < |r| ==> r[k].id < created)
            && forall k, j :: 0 <= k < j < |r| ==> r[k].id != r[j].id
  {
  }

  lemma StepRegisters(s: State, t: nat, a: Action)
    requires Registered(s) && Step(s, t, a).Some?
    ensures Registered(Step(s, t, a).value)
  {
    StepClients(s, t, a);
    if Was(s, t).UnBody? {
      var i := FirstFd(s.conns, s.threads[t].cli.fd);
      if i < |s.conns| {
        RemovedStaysRegistered(s.conns, s.created, i);
      }
    }
    hide Step, SwapRemoved, FirstFd;
  }

  /** What a step makes of its own thread is in place. */
  lemma StepInPlace(s: State, t: nat, a: Action)
    requires Step(s, t, a).Some? && InPlace(s, Was(s, t))
    ensures InPlace(Step(s, t, a).value, Step(s, t, a).value.threads[t])
  {
    hide SwapRemoved, FirstFd;
  }

  ghost predicate Frames(s: State, t: nat, s': State) {
    && s.shut <= s'.shut && t in s'.threads && s'.threads == s.threads[t := s'.threads[t]]
    && (s'.conns != s.conns ==> Was(s, t).RegBody? || Was(s, t).UnBody?)
  }

  lemma RegisterFrames(s: State, t: nat)
    requires t in s.threads && (Registering(s.threads[t]) || Unregistering(s.threads[t])) && Advance(s, t).Some?
    ensures Frames(s, t, Advance(s, t).value)
  {
    hide SwapRemoved, FirstFd;
  }

  lemma AdvanceFrames(s: State, t: nat)
    requires t in s.threads && Advance(s, t).Some?
    ensures Frames(s, t, Advance(s, t).value)
  {
    if Registering(s.threads[t]) || Unregistering(s.threads[t]) {
      RegisterFrames(s, t);
    } else {
      hide Enter, Leave;
      assert s.threads[t := s.threads[t]] == s.threads;
    }
  }

  lemma StepFrames(s: State, t: nat, a: Action)
    requires Step(s, t, a).Some?
    ensures Frames(s, t, Step(s, t, a).value)
  {
    hide Advance;
    if t in s.threads && a.Go? {
      AdvanceFrames(s, t);
    }
  }

  lemma StepProgresses(s: State, t: nat, a: Action)
    requires Conserved(s) && Progress(s) && Step(s, t, a).Some?
    ensures Progress(Step(s, t, a).value)
  {
    var s' := Step(s, t, a).value;
    StepInPlace(s, t, a);
    StepFrames(s, t, a);
    hide Step, Conserved;
    forall u | u in s'.threads && u != t
      ensures InPlace(s', s'.threads[u])
    {
      assert InPlace(s, s.threads[u]);
      if s'.conns != s.conns && Holding(s.threads[u]) {
        AloneInside(s, t, u);
      }
    }
  }

  lemma StepKeeps(s: State, t: nat, a: Action)
    requires Inv(s) && Step(s, t, a).Some?
    ensures Inv(Step(s, t, a).value)
  {
    hide Step, Conserved, Registered, Progress;
    StepConserves(s, t, a);
    StepRegisters(s, t, a);
    StepProgresses(s, t, a);
  }

  lemma {:induction false} RunKeeps(s: State, schedule: seq<(nat, Action)>)
    requires Inv(s) && Run(s, schedule).Some?
    ensures Inv(Run(s, schedule).value)
    decreases |schedule|
  {
    if schedule != [] {
      StepKeeps(s, schedule[0].0, schedule[0].1);
      RunKeeps(Step(s, schedule[0].0, schedule[0].1).value, schedule[1..]);
    }
  }

  // ----- every run of any number of threads -----

  /** What no schedule can break. */
  ghost predicate Safe(s: State) {
    && |s.conns| <= MAX_CLIENTS && s.mutex <= 1
    && (forall t :: t in s.threads && s.threads[t].RegBody? ==> |s.conns| < MAX_CLIENTS)
    && (forall t :: t in s.threads && s.threads[t].UnBody? ==> |s.conns| > 0)
    && (forall t, u :: t in s.threads && u in s.threads && Holding(s.threads[t]) && Holding(s.threads[u]) ==> t == u)
    && (forall t :: t in s.threads && s.threads[t].WaitUnlock? ==> s.conns == [])
    && (forall t, c :: t in s.threads && s.threads[t].ShutUnlock? && c in s.conns ==> c in s.shut)
    && NoTwins(s.conns)
  }

  lemma InvIsSafe(s: State)
    requires Inv(s)
    ensures Safe(s)
  {
    forall t | t in s.threads
      ensures s.threads[t].RegBody? ==> |s.conns| < MAX_CLIENTS
      ensures s.threads[t].UnBody? ==> |s.conns| > 0
      ensures InPlace(s, s.threads[t])
    {
      RoomInside(s, t);
    }
    forall t, u | t in s.threads && u in s.threads && Holding(s.threads[t]) && Holding(s.threads[u])
      ensures t == u
    {
      AloneInside(s, t, u);
    }
  }

  /**
    From creg_init, whatever the threads do and in whatever order: the slots add up, the branch for a
    full registry is never taken, unregister never searches an empty array, wait_for_empty is through
    only when nothing is registered, and shutdown_all only when every registered client is shut down.
  */
  lemma EveryRunIsSafe(schedule: seq<(nat, Action)>)
    requires Run(Init(), schedule).Some?
    ensures Inv(Run(Init(), schedule).value) && Safe(Run(Init(), schedule).value)
  {
    var none: map<nat, Phase> := map[];
    assert Those(none, Coming) == Those(none, Arrived) == Those(none, Going) == Those(none, Gone) == Those(none, Holding)
        == {};
    RunKeeps(Init(), schedule);
    InvIsSafe(Run(Init(), schedule).value);
  }

  // ----- a lock that is never given back -----

  /** Nobody can enter any more: a failed routine kept the lock, or a waiter spins on a used registry. */
  ghost predicate Frozen(s: State) {
    s.lostMutex > 0 || Spinning(s)
  }

  ghost predicate Spinning(s: State) {
    exists t :: t in s.threads && s.threads[t].WaitLoop? && s.conns != []
  }

  /** In a frozen registry no step changes the clients or lets a thread past the lock. */
  lemma FrozenStep(s: State, t: nat, a: Action)
    requires Inv(s) && Frozen(s) && Step(s, t, a).Some?
    ensures FrozenSame(s, Step(s, t, a).value)
  {
    if s.lostMutex > 0 {
      if t in s.threads && Holding(s.threads[t]) {
        CountSome(s.threads, t, Holding);
      }
    } else {
      var w :| w in s.threads && s.threads[w].WaitLoop? && s.conns != [];
      CountSome(s.threads, w, Holding);
      if t in s.threads && Holding(s.threads[t]) {
        AloneInside(s, t, w);
      }
    }
    StepFrames(s, t, a);
    FrozenMove(s, t, a);
  }

  lemma FrozenMove(s: State, t: nat, a: Action)
    requires Step(s, t, a).Some? && Frozen(s) && s.mutex == 0 && Frames(s, t, Step(s, t, a).value)
    requires t in s.threads && Holding(s.threads[t]) ==> s.threads[t].WaitLoop? && s.conns != []
    ensures FrozenSame(s, Step(s, t, a).value)
  {
    var s' := Step(s, t, a).value;
    assert s'.mutex == 0 && s'.lostMutex == s.lostMutex && s'.conns == s.conns;
    assert t in s.threads && (AtMutex(s.threads[t]) || s.threads[t].WaitLoop?) ==> s'.threads[t] == s.threads[t];
    hide Step;
    if s.lostMutex == 0 {
      var w :| w in s.threads && s.threads[w].WaitLoop? && s.conns != [];
      assert w in s'.threads && s'.threads[w].WaitLoop?;
    }
  }

  /** Still frozen, the same clients, and everyone who waits for the lock or spins still does. */
  ghost predicate FrozenSame(s: State, s': State) {
    && Frozen(s') && s'.conns == s.conns && s'.mutex == 0
    && forall u :: u in s.threads && (AtMutex(s.threads[u]) || (s.threads[u].WaitLoop? && s.conns != [])) ==>
         u in s'.threads && s'.threads[u] == s.threads[u]
  }

  /** Frozen is for ever: no later call registers, unregisters, waits or shuts down anything. */
  lemma {:induction false} FrozenForever(s: State, schedule: seq<(nat, Action)>)
    requires Inv(s) && Frozen(s) && Run(s, schedule).Some?
    ensures FrozenSame(s, Run(s, schedule).value)
    decreases |schedule|
  {
    if schedule == [] {
      StillFrozen(s);
    } else {
      var t, a := schedule[0].0, schedule[0].1;
      StepKeeps(s, t, a);
      FrozenStep(s, t, a);
      hide Step, Inv;
      FrozenForever(Step(s, t, a).value, schedule[1..]);
    }
  }

  lemma StillFrozen(s: State)
    requires Inv(s) && Frozen(s)
    ensures s.mutex == 0
  {
    if s.lostMutex == 0 {
      var w :| w in s.threads && s.threads[w].WaitLoop? && s.conns != [];
      CountSome(s.threads, w, Holding);
    }
  }

  /**
    The steps that freeze a registry that is not: exactly a client_create that fails, the removal of
    a client whose descriptor nobody has, and taking the lock to wait while clients are registered.
  */
  lemma WhatFreezes(s: State, t: nat, a: Action)
    requires Inv(s) && !Frozen(s) && Step(s, t, a).Some?
    ensures Frozen(Step(s, t, a).value)
         <==> || a.CreateFails?
              || (a.Go? && s.threads[t].UnBody? && forall c :: c in s.conns ==> c.fd != s.threads[t].cli.fd)
              || (a.Go? && s.threads[t].WaitMutex? && s.conns != [])
  {
    var s' := Step(s, t, a).value;
    StepFrames(s, t, a);
    if t in s.threads {
      RoomInside(s, t);
    }
    NotSpinning(s, s', t);
    hide Inv, Conserved, Registered, Progress, SwapRemoved, Those;
    if a.Go? && s.threads[t].UnBody? {
      var i := FirstFd(s.conns, s.threads[t].cli.fd);
      assert i < |s.conns| ==> s.conns[i] in s.conns;
    }
  }

  /** A thread that spins now and did not before has just taken the lock, or others have filled the registry. */
  lemma NotSpinning(s: State, s': State, t: nat)
    requires Inv(s) && !Frozen(s) && Frames(s, t, s')
    ensures Spinning(s') <==> s'.threads[t].WaitLoop? && s'.conns != []
  {
    if Spinning(s') {
      var w :| w in s'.threads && s'.threads[w].WaitLoop? && s'.conns != [];
      if w != t {
        assert w in s.threads && s.threads[w].WaitLoop? && s.conns == [];
        AloneInside(s, w, t);
        assert false;
      }
    }
  }

  lemma {:induction false} RunThen(s: State, schedule: seq<(nat, Action)>, t: nat, a: Action)
    requires Run(s, schedule).Some?
    ensures Run(s, schedule + [(t, a)]) == Step(Run(s, schedule).value, t, a)
    decreases |schedule|
  {
    hide Step;
    if schedule == [] {
      assert schedule + [(t, a)] == [(t, a)] && [(t, a)][1..] == [];
    } else {
      assert (schedule + [(t, a)])[1..] == schedule[1..] + [(t, a)];
      RunThen(Step(s, schedule[0].0, schedule[0].1).value, schedule[1..], t, a);
    }
  }

  /** A thread inside creg_register, about to create a client. */
  function InsideRegister(fd: int): seq<(nat, Action)> {
    [(0, Spawn)] + [(0, Register(fd))] + [(0, Go)] + [(0, Go)]
  }

  function OneRegistered(fd: int): seq<(nat, Action)> {
    InsideRegister(fd) + [(0, Go)] + [(0, Go)] + [(0, Go)]
  }

  function Alone(p: Phase): map<nat, Phase> {
    map[0 := p]
  }

  lemma MovesOn(p: Phase, q: Phase)
    ensures Alone(p)[0 := q] == Alone(q)
  {
  }

  lemma RegisterRuns(fd: int)
    ensures Run(Init(), InsideRegister(fd)) == Some(Init().(mutex := 0, pin := 63, threads := Alone(RegBody(fd))))
    ensures Run(Init(), OneRegistered(fd))
         == Some(Init().(conns := [Client(0, fd)], pin := 63, cli := 1, threads := Alone(Idle), created := 1))
  {
    RunThen(Init(), [], 0, Spawn);
    assert [] + [(0, Spawn)] == [(0, Spawn)];
    assert Init().threads[0 := Idle] == Alone(Idle);
    MovesOn(Idle, RegPin(fd));
    MovesOn(RegPin(fd), RegMutex(fd));
    MovesOn(RegMutex(fd), RegBody(fd));
    MovesOn(RegBody(fd), RegUnlock);
    MovesOn(RegUnlock, RegPost);
    MovesOn(RegPost, Idle);
    RunThen(Init(), [(0, Spawn)], 0, Register(fd));
    RunThen(Init(), [(0, Spawn)] + [(0, Register(fd))], 0, Go);
    RunThen(Init(), [(0, Spawn)] + [(0, Register(fd))] + [(0, Go)], 0, Go);
    RunThen(Init(), InsideRegister(fd), 0, Go);
    RunThen(Init(), InsideRegister(fd) + [(0, Go)], 0, Go);
    RunThen(Init(), InsideRegister(fd) + [(0, Go)] + [(0, Go)], 0, Go);
    assert [] + [Client(0, fd)] == [Client(0, fd)];
  }

  /** One more step of the one thread there is. */
  lemma RunsOn(schedule: seq<(nat, Action)>, s: State, a: Action, s': State)
    requires Run(Init(), schedule) == Some(s) && Step(s, 0, a) == Some(s')
    ensures Run(Init(), schedule + [(0, a)]) == Some(s')
  {
    hide Step, Run;
    RunThen(Init(), schedule, 0, a);
  }

  function UnregisterAll(fd: int): seq<(nat, Action)> {
    OneRegistered(fd) + [(0, Unregister(Client(0, fd)))] + [(0, Go)] + [(0, Go)] + [(0, Go)] + [(0, Go)] + [(0, Go)]
  }

  /** The registry after one client has come and gone. */
  function Emptied(): State {
    Init().(threads := Alone(Idle), created := 1)
  }

  /** A client that is unregistered is gone, and every semaphore is back where it was. */
  lemma UnregisterRuns(fd: int)
    ensures Run(Init(), UnregisterAll(fd)) == Some(Emptied())
  {
    var c, one := Client(0, fd), OneRegistered(fd);
    RegisterRuns(fd);
    UnregisterSteps(fd);
    hide *;
    RunsOn(one, Busy([c], 1, 63, 1, Idle), Unregister(c), Busy([c], 1, 63, 1, UnCli(c)));
    var s1 := one + [(0, Unregister(c))];
    RunsOn(s1, Busy([c], 1, 63, 1, UnCli(c)), Go, Busy([c], 1, 63, 0, UnMutex(c)));
    RunsOn(s1 + [(0, Go)], Busy([c], 1, 63, 0, UnMutex(c)), Go, Busy([c], 0, 63, 0, UnBody(c)));
    RunsOn(s1 + [(0, Go)] + [(0, Go)], Busy([c], 0, 63, 0, UnBody(c)), Go, Busy([], 0, 63, 0, UnUnlock));
    var s4 := s1 + [(0, Go)] + [(0, Go)] + [(0, Go)];
    RunsOn(s4, Busy([], 0, 63, 0, UnUnlock), Go, Busy([], 1, 63, 0, UnPost));
    RunsOn(s4 + [(0, Go)], Busy([], 1, 63, 0, UnPost), Go, Busy([], 1, 64, 0, Idle));
  }

  function Busy(conns: seq<Client>, mutex: nat, pin: nat, cli: nat, p: Phase): State {
    Init().(conns := conns, mutex := mutex, pin := pin, cli := cli, threads := Alone(p), created := 1)
  }

  lemma UnregisterSteps(fd: int)
    ensures var c := Client(0, fd);
            && Run(Init(), OneRegistered(fd)) == Some(Busy([c], 1, 63, 1, Idle))
            && Step(Busy([c], 1, 63, 1, Idle), 0, Unregister(c)) == Some(Busy([c], 1, 63, 1, UnCli(c)))
            && Step(Busy([c], 1, 63, 1, UnCli(c)), 0, Go) == Some(Busy([c], 1, 63, 0, UnMutex(c)))
            && Step(Busy([c], 1, 63, 0, UnMutex(c)), 0, Go) == Some(Busy([c], 0, 63, 0, UnBody(c)))
            && Step(Busy([c], 0, 63, 0, UnBody(c)), 0, Go) == Some(Busy([], 0, 63, 0, UnUnlock))
            && Step(Busy([], 0, 63, 0, UnUnlock), 0, Go) == Some(Busy([], 1, 63, 0, UnPost))
            && Step(Busy([], 1, 63, 0, UnPost), 0, Go) == Some(Busy([], 1, 64, 0, Idle))
            && Busy([], 1, 64, 0, Idle) == Emptied()
            && UnregisterAll(fd) == OneRegistered(fd) + [(0, Unregister(c))] + [(0, Go)] + [(0, Go)] + [(0, Go)] + [(0, Go)]
                                    + [(0, Go)]
  {
    RegisterRuns(fd);
    hide Run;
    var c := Client(0, fd);
    MovesOn(Idle, UnCli(c));
    MovesOn(UnCli(c), UnMutex(c));
    MovesOn(UnMutex(c), UnBody(c));
    MovesOn(UnBody(c), UnUnlock);
    MovesOn(UnUnlock, UnPost);
    MovesOn(UnPost, Idle);
    assert SwapRemoved([c], 0) == [];
  }

  /** And then whoever waits for an empty registry gets through. */
  lemma WaitRuns(fd: int)
    ensures Run(Init(), UnregisterAll(fd) + [(0, WaitForEmpty)] + [(0, Go)] + [(0, Go)] + [(0, Go)]) == Some(Emptied())
  {
    UnregisterRuns(fd);
    hide Run, UnregisterAll;
    MovesOn(Idle, WaitMutex);
    MovesOn(WaitMutex, WaitLoop);
    MovesOn(WaitLoop, WaitUnlock);
    MovesOn(WaitUnlock, Idle);
    var done := UnregisterAll(fd);
    RunsOn(done, Emptied(), WaitForEmpty, Busy([], 1, 64, 0, WaitMutex));
    RunsOn(done + [(0, WaitForEmpty)], Busy([], 1, 64, 0, WaitMutex), Go, Busy([], 0, 64, 0, WaitLoop));
    RunsOn(done + [(0, WaitForEmpty)] + [(0, Go)], Busy([], 0, 64, 0, WaitLoop), Go, Busy([], 0, 64, 0, WaitUnlock));
    RunsOn(done + [(0, WaitForEmpty)] + [(0, Go)] + [(0, Go)], Busy([], 0, 64, 0, WaitUnlock), Go, Emptied());
  }

  /** One thread is enough for each of the three: from creg_init it freezes the registry. */
  lemma FreezingRuns(fd: int, stranger: Client)
    requires stranger.fd != fd
    ensures Run(Init(), InsideRegister(fd) + [(0, CreateFails)]).Some?
    ensures Frozen(Run(Init(), InsideRegister(fd) + [(0, CreateFails)]).value)
    ensures Run(Init(), OneRegistered(fd) + [(0, Unregister(stranger))] + [(0, Go)] + [(0, Go)] + [(0, Go)]).Some?
    ensures Frozen(Run(Init(), OneRegistered(fd) + [(0, Unregister(stranger))] + [(0, Go)] + [(0, Go)] + [(0, Go)]).value)
    ensures Run(Init(), OneRegistered(fd) + [(0, WaitForEmpty)] + [(0, Go)]).Some?
    ensures Frozen(Run(Init(), OneRegistered(fd) + [(0, WaitForEmpty)] + [(0, Go)]).value)
  {
    RegisterRuns(fd);
    hide Run, InsideRegister, OneRegistered;
    RunThen(Init(), InsideRegister(fd), 0, CreateFails);
    var one := OneRegistered(fd);
    RunThen(Init(), one, 0, Unregister(stranger));
    RunThen(Init(), one + [(0, Unregister(stranger))], 0, Go);
    RunThen(Init(), one + [(0, Unregister(stranger))] + [(0, Go)], 0, Go);
    RunThen(Init(), one + [(0, Unregister(stranger))] + [(0, Go)] + [(0, Go)], 0, Go);
    RunThen(Init(), one, 0, WaitForEmpty);
    RunThen(Init(), one + [(0, WaitForEmpty)], 0, Go);
    var s := Run(Init(), one + [(0, WaitForEmpty)] + [(0, Go)]).value;
    assert 0 in s.threads && s.threads[0].WaitLoop? && s.conns != [];
  }

  /** When every call has returned and none has failed, the semaphores mirror the count. */
  lemma Quiescent(s: State)
    requires Inv(s) && s.lostPin == 0 && s.lostCli == 0 && s.lostMutex == 0
    requires forall t :: t in s.threads ==> s.threads[t].Idle?
    ensures s.pin == MAX_CLIENTS - |s.conns| && s.cli == |s.conns| && s.mutex == 1
  {
    var ts := s.threads;
    assert Those(ts, Coming) == Those(ts, Arrived) == Those(ts, Going) == Those(ts, Gone) == Those(ts, Holding) == {};
  }

  // ----- the critical sections, in place -----

  class Registry {
    var count: nat
    const connections: array<Client>

    ghost predicate Valid()
      reads this
    {
      connections.Length == MAX_CLIENTS && count <= MAX_CLIENTS
    }

    ghost function Contents(): seq<Client>
      requires Valid()
      reads this, connections
    {
      connections[..count]
    }

    constructor (blank: Client)
      ensures Valid() && fresh(connections) && Contents() == Init().conns
    {
      connections := new Client[MAX_CLIENTS](_ => blank);
      count := 0;
    }

    /** creg_register between P and V of the mutex, given what client_create returned. */
    method RegisterLocked(made: Option<Client>) returns (r: Option<Client>)
      requires Valid()
      modifies this`count, connections
      ensures Valid()
      ensures r == if old(count) == MAX_CLIENTS then None else made
      ensures Contents() == match r case None => old(Contents()) case Some(cli) => old(Contents()) + [cli]
    {
      if count == MAX_CLIENTS || made.None? {
        return None;
      }
      connections[count] := made.value;
      count := count + 1;
      return made;
    }

    /** creg_unregister between P and V of the mutex; -1 when no entry has the descriptor. */
    method UnregisterLocked(client: Client) returns (r: int)
      requires Valid()
      modifies this`count, connections
      ensures Valid()
      ensures r == if FirstFd(old(Contents()), client.fd) == old(count) then -1 else 0
      ensures r == 0 ==> Contents() == SwapRemoved(old(Contents()), FirstFd(old(Contents()), client.fd))
      ensures r == -1 ==> Contents() == old(Contents())
    {
      var i, exists_ := 0, false;
      while i < count
        invariant i <= count && !exists_
        invariant forall j :: 0 <= j < i ==> connections[j].fd != client.fd
      {
        if connections[i].fd == client.fd {
          exists_ := true;
          break;
        }
        i := i + 1;
      }
      assert forall j :: 0 <= j < i ==> Contents()[j] == connections[j];
      if !exists_ {
        return -1;
      }
      assert Contents()[i] == connections[i];
      FirstIs(Contents(), client.fd, i);
      connections[i] := connections[count - 1];
      count := count - 1;
      return 0;
    }

    /** creg_shutdown_all between P and V of the mutex: the descriptors it shuts down, in order. */
    method ShutdownLocked() returns (fds: seq<int>)
      requires Valid()
      ensures |fds| == count && forall i :: 0 <= i < count ==> fds[i] == Contents()[i].fd
    {
      fds := [];
      var i := 0;
      while i < count
        invariant i <= count && |fds| == i
        invariant forall j :: 0 <= j < i ==> fds[j] == connections[j].fd
      {
        fds := fds + [connections[i].fd];
        i := i + 1;
      }
    }
  }

  lemma FirstIs(s: seq<Client>, fd: int, i: nat)
    requires i < |s| && s[i].fd == fd && forall j :: 0 <= j < i ==> s[j].fd != fd
    ensures FirstFd(s, fd) == i
  {
  }
}
