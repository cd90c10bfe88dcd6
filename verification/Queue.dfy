/**
 * The bounded command queue: any number of producer and consumer threads over two counting
 * semaphores, a mutex and a list, as a transition system with a program counter per thread.
 */
module Queue {
  import opened Text

  const NUM_MAX: nat := 1280

  // ----- commands -----

  const ANDROID: Bytes := [97, 110, 100, 114, 111, 105, 100]
  const IOS: Bytes := [105, 111, 115]
  const WINPHONE: Bytes := [119, 105, 110, 112, 104, 111, 110, 101]

  lemma PlatformsSpelled()
    ensures ANDROID == Spell("android") && IOS == Spell("ios") && WINPHONE == Spell("winphone")
  {}

  /** The fields that is_data_ok reads; `rest` stands for the others. */
  datatype Command = Command(sendno: int, appKey: Bytes, receiverType: int, msgType: int, platform: Bytes,
                             rest: seq<Bytes>)

  predicate Contains(s: Bytes, pat: Bytes) {
    exists j :: 0 <= j <= |s| && HasPrefix(s, j, pat)
  }

  predicate IsDataOk(c: Command) {
    && c.sendno > 0
    && c.appKey != []
    && (c.receiverType == 2 || c.receiverType == 3 || c.receiverType == 4 || c.receiverType == 5)
    && (c.msgType == 1 || c.msgType == 2)
    && (var p := CString(c.platform); Contains(p, ANDROID) || Contains(p, IOS) || Contains(p, WINPHONE))
  }

  /** `strstr` finds the pattern exactly if the string is something, the pattern, and something. */
  lemma ContainsParts(s: Bytes, pat: Bytes)
    ensures Contains(s, pat) <==> exists a, b :: s == a + pat + b
  {
    if j :| 0 <= j <= |s| && HasPrefix(s, j, pat) {
      assert s == s[..j] + pat + s[j + |pat|..];
    }
    if a, b :| s == a + pat + b {
      assert s[|a|..|a| + |pat|] == pat;
      assert HasPrefix(s, |a|, pat);
    }
  }

  ghost predicate Names(platform: Bytes, pat: string) {
    exists a, b :: CString(platform) == a + Spell(pat) + b
  }

  /** What is_data_ok asks for. */
  lemma DataOkExactly(c: Command)
    ensures IsDataOk(c) <==>
            && c.sendno >= 1 && |c.appKey| >= 1 && 2 <= c.receiverType <= 5 && 1 <= c.msgType <= 2
            && (Names(c.platform, "android") || Names(c.platform, "ios") || Names(c.platform, "winphone"))
  {
    PlatformsSpelled();
    ContainsParts(CString(c.platform), ANDROID);
    ContainsParts(CString(c.platform), IOS);
    ContainsParts(CString(c.platform), WINPHONE);
  }

  // ----- threads -----

  /** The next statement of a thread: of event_run and store_cmd_data, or of func_routine and get_value. */
  datatype Pc =
    | Fetch                         // get_data_redis, up to its call of is_data_ok
    | WaitEmpty(item: Command)      // sem_wait(&g_sem_empty)
    | LockToPush(item: Command)     // pthread_mutex_lock
    | PushBack(item: Command)       // cmd_head.push_back
    | UnlockPushed                  // pthread_mutex_unlock
    | PostFull                      // sem_post(&g_sem_full)
    | WaitFull                      // sem_wait(&g_sem_full)
    | LockToTake                    // pthread_mutex_lock
    | Front                         // temp = cmd_head.front()
    | PopFront(item: Command)       // cmd_head.pop_front()
    | UnlockTaken(item: Command)    // pthread_mutex_unlock
    | PostEmpty(item: Command)      // sem_post(&g_sem_empty)
    | Check(item: Command)          // the do-while test of func_routine
    | Work(item: Command)           // data_push and store_data_msql

  datatype State = State(
    pcs: seq<Pc>, empty: nat, full: nat, mutex: Option<nat>, list: seq<Command>,
    stored: seq<Command>,           // every command pushed so far
    taken: seq<Command>)            // every command handed to a consumer so far

  predicate Producing(pc: Pc) {
    pc.Fetch? || pc.WaitEmpty? || pc.LockToPush? || pc.PushBack? || pc.UnlockPushed? || pc.PostFull?
  }

  predicate InSection(pc: Pc) {
    pc.PushBack? || pc.UnlockPushed? || pc.Front? || pc.PopFront? || pc.UnlockTaken?
  }

  /** The step thread `t` can take, if it is not blocked; `offer` is what a fetching producer built. */
  function Step(s: State, t: nat, offer: Command): Option<State>
    requires t < |s.pcs|
  {
    match s.pcs[t]
    case Fetch => Some(Go(s, t, if IsDataOk(offer) then WaitEmpty(offer) else Fetch))
    case WaitEmpty(x) => if s.empty == 0 then None else Some(Go(s, t, LockToPush(x)).(empty := s.empty - 1))
    case LockToPush(x) => if s.mutex != None then None else Some(Go(s, t, PushBack(x)).(mutex := Some(t)))
    case PushBack(x) => Some(Go(s, t, UnlockPushed).(list := s.list + [x], stored := s.stored + [x]))
    case UnlockPushed => Some(Go(s, t, PostFull).(mutex := None))
    case PostFull => Some(Go(s, t, Fetch).(full := s.full + 1))
    case WaitFull => if s.full == 0 then None else Some(Go(s, t, LockToTake).(full := s.full - 1))
    case LockToTake => if s.mutex != None then None else Some(Go(s, t, Front).(mutex := Some(t)))
    case Front => if s.list == [] then None else Some(Go(s, t, PopFront(s.list[0])))
    case PopFront(x) =>
      if s.list == [] then None
      else Some(Go(s, t, UnlockTaken(x)).(list := s.list[1..], taken := s.taken + [x]))
    case UnlockTaken(x) => Some(Go(s, t, PostEmpty(x)).(mutex := None))
    case PostEmpty(x) => Some(Go(s, t, Check(x)).(empty := s.empty + 1))
    case Check(x) => Some(Go(s, t, if IsDataOk(x) then Work(x) else WaitFull))
    case Work(_) => Some(Go(s, t, WaitFull))
  }

  function Go(s: State, t: nat, pc: Pc): State
    requires t < |s.pcs|
  {
    s.(pcs := s.pcs[t := pc])
  }

  ghost predicate Init(s: State) {
    && (forall t :: 0 <= t < |s.pcs| ==> s.pcs[t] == Fetch || s.pcs[t] == WaitFull)
    && s.empty == NUM_MAX && s.full == 0 && s.mutex == None
    && s.list == [] && s.stored == [] && s.taken == []
  }

  ghost predicate Next(s: State, s': State) {
    exists t: nat, offer: Command :: t < |s.pcs| && Step(s, t, offer) == Some(s')
  }

  ghost predicate Run(states: seq<State>) {
    && states != [] && Init(states[0])
    && forall i :: 0 <= i < |states| - 1 ==> Next(states[i], states[i + 1])
  }

  // ----- counting threads -----

  /**
   * Slots: between the two semaphore operations of a call. Queued: has a command in the list that
   * `full` does not count.
   */
  datatype Class = Slots | Queued

  function Weight(c: Class, pc: Pc): (w: nat)
    ensures w <= 1
  {
    match c
    case Slots => if pc.Fetch? || pc.WaitEmpty? || pc.WaitFull? || pc.Check? || pc.Work? then 0 else 1
    case Queued => if pc.UnlockPushed? || pc.PostFull? || pc.LockToTake? || pc.Front? || pc.PopFront? then 1 else 0
  }

  function Count(c: Class, pcs: seq<Pc>): nat {
    if pcs == [] then 0 else Weight(c, pcs[0]) + Count(c, pcs[1..])
  }

  lemma {:induction false} CountUpdate(c: Class, pcs: seq<Pc>, t: nat, pc: Pc)
    requires t < |pcs|
    ensures Count(c, pcs[t := pc]) == Count(c, pcs) - Weight(c, pcs[t]) + Weight(c, pc)
  {
    if t == 0 {
      assert pcs[t := pc][1..] == pcs[1..];
    } else {
      assert pcs[t := pc][1..] == pcs[1..][t - 1 := pc];
      CountUpdate(c, pcs[1..], t - 1, pc);
    }
  }

  lemma {:induction false} QueuedAreSlots(pcs: seq<Pc>)
    ensures Count(Queued, pcs) <= Count(Slots, pcs)
  {
    if pcs != [] {
      QueuedAreSlots(pcs[1..]);
    }
  }

  lemma {:induction false} CountPositive(c: Class, pcs: seq<Pc>, t: nat)
    requires t < |pcs| && Weight(c, pcs[t]) == 1
    ensures Count(c, pcs) > 0
  {
    if t > 0 {
      CountPositive(c, pcs[1..], t - 1);
    }
  }

  lemma {:induction false} CountZero(c: Class, pcs: seq<Pc>)
    requires forall t :: 0 <= t < |pcs| ==> Weight(c, pcs[t]) == 0
    ensures Count(c, pcs) == 0
  {
    if pcs != [] {
      CountZero(c, pcs[1..]);
    }
  }

  // ----- the invariant -----

  /** Both semaphores and the calls in flight make up the capacity, and so does the list. */
  ghost predicate Conserved(s: State) {
    && s.empty + s.full + Count(Slots, s.pcs) == NUM_MAX
    && |s.list| == s.full + Count(Queued, s.pcs)
  }

  /** A thread is in the critical section exactly when it holds the mutex. */
  ghost predicate Exclusive(s: State) {
    && (forall t :: 0 <= t < |s.pcs| ==> (InSection(s.pcs[t]) <==> s.mutex == Some(t)))
    && (s.mutex.Some? ==> s.mutex.value < |s.pcs|)
  }

  /** First in, first out; and what a consumer has read is what it removes. */
  ghost predicate Ordered(s: State) {
    && s.stored == s.taken + s.list
    && forall t :: 0 <= t < |s.pcs| && s.pcs[t].PopFront? ==> s.list != [] && s.list[0] == s.pcs[t].item
  }

  ghost predicate ItemOk(pc: Pc) {
    (pc.WaitEmpty? || pc.LockToPush? || pc.PushBack? || pc.PopFront? || pc.UnlockTaken? || pc.PostEmpty?
     || pc.Check? || pc.Work?)
    ==> IsDataOk(pc.item)
  }

  ghost predicate AllOk(cs: seq<Command>) {
    forall k :: 0 <= k < |cs| ==> IsDataOk(cs[k])
  }

  /** Nothing that is_data_ok refuses is stored or held. */
  ghost predicate Checked(s: State) {
    AllOk(s.list) && forall t :: 0 <= t < |s.pcs| ==> ItemOk(s.pcs[t])
  }

  ghost predicate Inv(s: State) {
    Conserved(s) && Exclusive(s) && Ordered(s) && Checked(s)
  }

  lemma InitInv(s: State)
    requires Init(s)
    ensures Inv(s)
  {
    CountZero(Slots, s.pcs);
    CountZero(Queued, s.pcs);
  }

  /** What one thread's step does to the semaphores, the list and its own weights adds up. */
  lemma StepBalances(s: State, t: nat, offer: Command, s': State)
    requires t < |s.pcs| && Step(s, t, offer) == Some(s')
    ensures s'.pcs == s.pcs[t := s'.pcs[t]]
    ensures s'.empty + s'.full + Weight(Slots, s'.pcs[t]) == s.empty + s.full + Weight(Slots, s.pcs[t])
    ensures |s'.list| - s'.full - Weight(Queued, s'.pcs[t]) == |s.list| - s.full - Weight(Queued, s.pcs[t])
  {}

  lemma StepConserves(s: State, t: nat, offer: Command, s': State)
    requires Conserved(s) && t < |s.pcs| && Step(s, t, offer) == Some(s')
    ensures Conserved(s')
  {
    StepBalances(s, t, offer, s');
    CountUpdate(Slots, s.pcs, t, s'.pcs[t]);
    CountUpdate(Queued, s.pcs, t, s'.pcs[t]);
  }

  /** A step takes the mutex only when it is free and gives up only the stepping thread's hold. */
  lemma StepMutex(s: State, t: nat, offer: Command, s': State)
    requires t < |s.pcs| && Step(s, t, offer) == Some(s') && (InSection(s.pcs[t]) <==> s.mutex == Some(t))
    ensures InSection(s'.pcs[t]) <==> s'.mutex == Some(t)
    ensures s'.mutex == s.mutex || s'.mutex == Some(t) || (s.mutex == Some(t) && s'.mutex == None)
    ensures s'.mutex == Some(t) ==> s.mutex == None || s.mutex == Some(t)
  {}

  lemma StepExcludes(s: State, t: nat, offer: Command, s': State)
    requires Exclusive(s) && t < |s.pcs| && Step(s, t, offer) == Some(s')
    ensures Exclusive(s')
  {
    StepBalances(s, t, offer, s');
    StepMutex(s, t, offer, s');
    forall u | 0 <= u < |s'.pcs| ensures InSection(s'.pcs[u]) <==> s'.mutex == Some(u) {
      if u != t {
        assert s'.pcs[u] == s.pcs[u];
      }
    }
  }

  /** Only the holder of the mutex changes the list; the histories change with it. */
  lemma StepList(s: State, t: nat, offer: Command, s': State)
    requires t < |s.pcs| && Step(s, t, offer) == Some(s') && s.stored == s.taken + s.list
    requires s.pcs[t].PopFront? ==> s.list != [] && s.list[0] == s.pcs[t].item
    ensures s'.stored == s'.taken + s'.list
    ensures s'.pcs[t].PopFront? ==> s'.list != [] && s'.list[0] == s'.pcs[t].item
    ensures !InSection(s.pcs[t]) ==> s'.list == s.list
  {
    if s.pcs[t].PopFront? {
      assert s.list == [s.list[0]] + s.list[1..];
      Assoc(s.taken, [s.list[0]], s.list[1..]);
    } else if s.pcs[t].PushBack? {
      Assoc(s.taken, s.list, [s.pcs[t].item]);
    }
  }

  lemma StepOrders(s: State, t: nat, offer: Command, s': State)
    requires Exclusive(s) && Ordered(s) && t < |s.pcs| && Step(s, t, offer) == Some(s')
    ensures Ordered(s')
  {
    StepList(s, t, offer, s');
    StepBalances(s, t, offer, s');
    forall u | 0 <= u < |s'.pcs| && s'.pcs[u].PopFront? ensures s'.list != [] && s'.list[0] == s'.pcs[u].item {
      if u != t {
        assert s'.pcs[u] == s.pcs[u] && InSection(s.pcs[u]) && s.mutex == Some(u);
        assert !InSection(s.pcs[t]);
      }
    }
  }

  lemma StepItem(s: State, t: nat, offer: Command, s': State)
    requires t < |s.pcs| && Step(s, t, offer) == Some(s') && AllOk(s.list) && ItemOk(s.pcs[t])
    ensures ItemOk(s'.pcs[t])
    ensures s'.list == s.list || (s.pcs[t].PushBack? && s'.list == s.list + [s.pcs[t].item])
            || (s.list != [] && s'.list == s.list[1..])
  {}

  lemma StepChecks(s: State, t: nat, offer: Command, s': State)
    requires Checked(s) && t < |s.pcs| && Step(s, t, offer) == Some(s')
    ensures Checked(s')
  {
    StepItem(s, t, offer, s');
    StepBalances(s, t, offer, s');
    forall u | 0 <= u < |s'.pcs| ensures ItemOk(s'.pcs[u]) {
      if u != t {
        assert s'.pcs[u] == s.pcs[u];
      }
    }
  }

  lemma StepInv(s: State, t: nat, offer: Command, s': State)
    requires Inv(s) && t < |s.pcs| && Step(s, t, offer) == Some(s')
    ensures Inv(s')
  {
    StepConserves(s, t, offer, s');
    StepExcludes(s, t, offer, s');
    StepOrders(s, t, offer, s');
    StepChecks(s, t, offer, s');
  }

  lemma {:induction false} RunInv(states: seq<State>)
    requires Run(states)
    ensures Inv(states[|states| - 1])
  {
    var n := |states| - 1;
    if n == 0 {
      InitInv(states[0]);
    } else {
      RunInv(states[..n]);
      assert Next(states[n - 1], states[n - 1 + 1]);
      var t: nat, offer: Command :| t < |states[n - 1].pcs| && Step(states[n - 1], t, offer) == Some(states[n]);
      StepInv(states[n - 1], t, offer, states[n]);
    }
  }

  // ----- the promises, for every reachable state -----

  lemma Safety(states: seq<State>)
    requires Run(states)
    ensures var s := states[|states| - 1];
      && s.empty + s.full + Count(Slots, s.pcs) == 1280
      && |s.list| <= 1280
      && s.taken <= s.stored
      && (forall t, u :: 0 <= t < |s.pcs| && 0 <= u < |s.pcs| && InSection(s.pcs[t]) && InSection(s.pcs[u]) ==> t == u)
      && (forall t :: 0 <= t < |s.pcs| && (s.pcs[t].Front? || s.pcs[t].PopFront?) ==> s.list != [])
      && (forall t :: 0 <= t < |s.pcs| && s.pcs[t].Check? ==> IsDataOk(s.pcs[t].item))
  {
    RunInv(states);
    var s := states[|states| - 1];
    QueuedAreSlots(s.pcs);
    forall t | 0 <= t < |s.pcs| && (s.pcs[t].Front? || s.pcs[t].PopFront?) ensures s.list != [] {
      CountPositive(Queued, s.pcs, t);
    }
    forall t | 0 <= t < |s.pcs| && s.pcs[t].Check? ensures IsDataOk(s.pcs[t].item) {
      assert ItemOk(s.pcs[t]);
    }
  }

  /** Where a thread can be stopped. */
  lemma BlockedAt(s: State, t: nat, offer: Command)
    requires t < |s.pcs| && Step(s, t, offer) == None
    ensures (s.pcs[t].WaitEmpty? && s.empty == 0) || (s.pcs[t].WaitFull? && s.full == 0)
         || (!InSection(s.pcs[t]) && Weight(Slots, s.pcs[t]) == 1 && s.mutex.Some?)
         || (Weight(Queued, s.pcs[t]) == 1 && s.list == [])
  {}

  /** The holder of the mutex is never stopped. */
  lemma HolderSteps(s: State, t: nat, offer: Command)
    requires Inv(s) && t < |s.pcs| && s.mutex == Some(t)
    ensures Step(s, t, offer).Some?
  {
    if Step(s, t, offer) == None {
      assert InSection(s.pcs[t]);
      BlockedAt(s, t, offer);
      CountPositive(Queued, s.pcs, t);
      assert false;
    }
  }

  /** While there is a producer and a consumer, some thread can step. */
  lemma NoDeadlock(s: State, p: nat, c: nat, offer: Command) returns (t: nat)
    requires Inv(s) && p < |s.pcs| && Producing(s.pcs[p]) && c < |s.pcs| && !Producing(s.pcs[c])
    ensures t < |s.pcs| && Step(s, t, offer).Some?
  {
    if s.mutex.Some? {
      t := s.mutex.value;
      HolderSteps(s, t, offer);
    } else if u: nat :| u < |s.pcs| && Weight(Slots, s.pcs[u]) == 1 {
      t := u;
      FreeMutexSteps(s, t, offer);
    } else {
      CountZero(Slots, s.pcs);
      t := if s.empty > 0 then p else c;
      WaiterSteps(s, t, offer);
    }
  }

  /** With the mutex free, a thread between two semaphore operations is not stopped. */
  lemma FreeMutexSteps(s: State, t: nat, offer: Command)
    requires Inv(s) && t < |s.pcs| && s.mutex == None && Weight(Slots, s.pcs[t]) == 1
    ensures Step(s, t, offer).Some?
  {
    if Step(s, t, offer) == None {
      BlockedAt(s, t, offer);
      CountPositive(Queued, s.pcs, t);
      assert false;
    }
  }

  /** A thread outside any call is stopped only by the semaphore of its own side. */
  lemma WaiterSteps(s: State, t: nat, offer: Command)
    requires t < |s.pcs| && Weight(Slots, s.pcs[t]) == 0
    requires if Producing(s.pcs[t]) then s.empty > 0 else s.full > 0
    ensures Step(s, t, offer).Some?
  {}

  /** Threads never change their role, so a run that starts with both kinds keeps both. */
  lemma {:induction false} RunProgresses(states: seq<State>, p: nat, c: nat, offer: Command) returns (t: nat)
    requires Run(states) && p < |states[0].pcs| && c < |states[0].pcs|
    requires states[0].pcs[p] == Fetch && states[0].pcs[c] == WaitFull
    ensures var s := states[|states| - 1]; t < |s.pcs| && Step(s, t, offer).Some?
  {
    RunInv(states);
    RolesLast(states, p);
    RolesLast(states, c);
    t := NoDeadlock(states[|states| - 1], p, c, offer);
  }

  lemma StepRole(s: State, t: nat, offer: Command, s': State)
    requires t < |s.pcs| && Step(s, t, offer) == Some(s')
    ensures |s'.pcs| == |s.pcs| && (Producing(s'.pcs[t]) <==> Producing(s.pcs[t]))
  {}

  lemma RolesStay(s: State, t: nat, offer: Command, s': State, u: nat)
    requires t < |s.pcs| && Step(s, t, offer) == Some(s') && u < |s.pcs|
    ensures |s'.pcs| == |s.pcs| && (Producing(s'.pcs[u]) <==> Producing(s.pcs[u]))
  {
    StepRole(s, t, offer, s');
    StepBalances(s, t, offer, s');
  }

  lemma {:induction false} RolesLast(states: seq<State>, t: nat)
    requires Run(states) && t < |states[0].pcs|
    ensures var s := states[|states| - 1]; t < |s.pcs| && (Producing(s.pcs[t]) <==> Producing(states[0].pcs[t]))
  {
    var n := |states| - 1;
    if n > 0 {
      RolesLast(states[..n], t);
      assert Next(states[n - 1], states[n - 1 + 1]);
      var u: nat, offer: Command :| u < |states[n - 1].pcs| && Step(states[n - 1], u, offer) == Some(states[n]);
      RolesStay(states[n - 1], u, offer, states[n], t);
    }
  }

  // ----- what becomes of every offer -----

  /** The step a thread took, and the command it was offered if it was fetching. */
  datatype Event = Event(thread: nat, offer: Command)

  /** A run with the events between its states. */
  ghost predicate Traced(states: seq<State>, events: seq<Event>) {
    && states != [] && Init(states[0]) && |states| == |events| + 1
    && forall i :: 0 <= i < |events| ==> Takes(states[i], events[i], states[i + 1])
  }

  ghost predicate Takes(s: State, e: Event, s': State) {
    e.thread < |s.pcs| && Step(s, e.thread, e.offer) == Some(s')
  }

  /** Every run has such a history, and every history is one of a run. */
  lemma {:induction false} RunTraced(states: seq<State>) returns (events: seq<Event>)
    requires Run(states)
    ensures Traced(states, events)
  {
    var n := |states| - 1;
    if n == 0 {
      events := [];
    } else {
      var before := RunTraced(states[..n]);
      assert Next(states[n - 1], states[n - 1 + 1]);
      var t: nat, offer: Command :| t < |states[n - 1].pcs| && Step(states[n - 1], t, offer) == Some(states[n]);
      events := before + [Event(t, offer)];
      forall i | 0 <= i < |events| ensures Takes(states[i], events[i], states[i + 1]) {
        if i < n - 1 {
          assert Takes(states[..n][i], before[i], states[..n][i + 1]);
        }
      }
    }
  }

  lemma TracedRun(states: seq<State>, events: seq<Event>)
    requires Traced(states, events)
    ensures Run(states)
  {
    forall i | 0 <= i < |states| - 1 ensures Next(states[i], states[i + 1]) {
      assert Takes(states[i], events[i], states[i + 1]);
    }
  }

  lemma TracedFront(states: seq<State>, events: seq<Event>)
    requires Traced(states, events) && events != []
    ensures Traced(states[..|events|], events[..|events| - 1])
    ensures Takes(states[|events| - 1], events[|events| - 1], states[|events|])
  {
    var n := |events|;
    forall i | 0 <= i < n - 1 ensures Takes(states[..n][i], events[..n - 1][i], states[..n][i + 1]) {
      assert Takes(states[i], events[i], states[i + 1]);
    }
    assert Takes(states[n - 1], events[n - 1], states[n - 1 + 1]);
  }

  function One(c: bool, x: Command): multiset<Command> {
    if c then multiset{x} else multiset{}
  }

  /** The commands offered to a fetching producer that is_data_ok lets through. */
  ghost function Accepted(states: seq<State>, events: seq<Event>): multiset<Command>
    requires Traced(states, events)
  {
    if events == [] then multiset{}
    else
      TracedFront(states, events);
      var n := |events| - 1;
      Accepted(states[..n + 1], events[..n]) + LetIn(states[n].pcs[events[n].thread], events[n].offer)
  }

  /** The commands that a consumer has worked on. */
  ghost function Worked(states: seq<State>, events: seq<Event>): multiset<Command>
    requires Traced(states, events)
  {
    if events == [] then multiset{}
    else
      TracedFront(states, events);
      var n := |events| - 1;
      Worked(states[..n + 1], events[..n]) + Finished(states[n].pcs[events[n].thread])
  }

  /** The command a thread holds: a producer before it has stored it, a consumer after it has taken it. */
  function Held(consumer: bool, pc: Pc): multiset<Command> {
    match pc
    case WaitEmpty(x) => One(!consumer, x)
    case LockToPush(x) => One(!consumer, x)
    case PushBack(x) => One(!consumer, x)
    case UnlockTaken(x) => One(consumer, x)
    case PostEmpty(x) => One(consumer, x)
    case Check(x) => One(consumer, x)
    case Work(x) => One(consumer, x)
    case _ => multiset{}
  }

  function HeldByAll(consumer: bool, pcs: seq<Pc>): multiset<Command> {
    if pcs == [] then multiset{} else Held(consumer, pcs[0]) + HeldByAll(consumer, pcs[1..])
  }

  lemma AddFront<T>(front: multiset<T>, a: multiset<T>, x: multiset<T>, b: multiset<T>, y: multiset<T>)
    requires a + x == b + y
    ensures front + a + x == front + b + y
  {
    assert front + a + x == front + (a + x) && front + b + y == front + (b + y);
  }

  lemma {:induction false} HeldUpdate(consumer: bool, pcs: seq<Pc>, t: nat, pc: Pc)
    requires t < |pcs|
    ensures HeldByAll(consumer, pcs[t := pc]) + Held(consumer, pcs[t]) == HeldByAll(consumer, pcs) + Held(consumer, pc)
  {
    var rest := pcs[1..];
    if t == 0 {
      assert pcs[t := pc][1..] == rest;
    } else {
      assert pcs[t := pc][1..] == rest[t - 1 := pc];
      HeldUpdate(consumer, rest, t - 1, pc);
      AddFront(Held(consumer, pcs[0]), HeldByAll(consumer, rest[t - 1 := pc]), Held(consumer, pcs[t]),
               HeldByAll(consumer, rest), Held(consumer, pc));
    }
  }

  lemma {:induction false} NothingHeld(consumer: bool, pcs: seq<Pc>)
    requires forall t :: 0 <= t < |pcs| ==> Held(consumer, pcs[t]) == multiset{}
    ensures HeldByAll(consumer, pcs) == multiset{}
  {
    if pcs != [] {
      NothingHeld(consumer, pcs[1..]);
    }
  }

  /** The command that a step finishes the work on. */
  function Finished(pc: Pc): multiset<Command> {
    if pc.Work? then multiset{pc.item} else multiset{}
  }

  /** The command that a step lets into the queue. */
  function LetIn(pc: Pc, offer: Command): multiset<Command> {
    One(pc.Fetch? && IsDataOk(offer), offer)
  }

  /** A producer's step hands its command over or keeps it; it neither loses nor doubles one. */
  lemma StepHandsIn(s: State, e: Event, s': State)
    requires Takes(s, e, s')
    ensures var pc, pc' := s.pcs[e.thread], s'.pcs[e.thread];
            multiset(s'.stored) + Held(false, pc') == multiset(s.stored) + Held(false, pc) + LetIn(pc, e.offer)
  {
    var pc := s.pcs[e.thread];
    if pc.PushBack? {
      assert s'.stored == s.stored + [pc.item];
    } else {
      assert s'.stored == s.stored;
    }
  }

  lemma StepTakes(s: State, e: Event, s': State)
    requires Takes(s, e, s')
    ensures var pc := s.pcs[e.thread];
            s'.taken == if pc.PopFront? then s.taken + [pc.item] else s.taken
  {}

  lemma ProducersTakeNothing(pc: Pc)
    requires Producing(pc)
    ensures Held(true, pc) == Finished(pc) == multiset{} && !pc.PopFront?
  {}

  /** From taking a command to working on it a consumer holds it. */
  lemma ConsumerCarries(s: State, t: nat, offer: Command, s': State)
    requires t < |s.pcs| && Step(s, t, offer) == Some(s') && !Producing(s.pcs[t]) && ItemOk(s.pcs[t])
    ensures var pc, pc' := s.pcs[t], s'.pcs[t];
            Held(true, pc') == if pc.PopFront? then multiset{pc.item} else Held(true, pc) - Finished(pc)
  {}

  lemma StepCarries(s: State, e: Event, s': State)
    requires Takes(s, e, s') && ItemOk(s.pcs[e.thread])
    ensures var pc, pc' := s.pcs[e.thread], s'.pcs[e.thread];
            Held(true, pc') + Finished(pc) == if pc.PopFront? then multiset{pc.item} else Held(true, pc)
  {
    StepRole(s, e.thread, e.offer, s');
    if Producing(s.pcs[e.thread]) {
      ProducersTakeNothing(s.pcs[e.thread]);
      ProducersTakeNothing(s'.pcs[e.thread]);
    } else {
      ConsumerCarries(s, e.thread, e.offer, s');
    }
  }

  lemma StepHandsOut(s: State, e: Event, s': State)
    requires Takes(s, e, s') && ItemOk(s.pcs[e.thread])
    ensures var pc, pc' := s.pcs[e.thread], s'.pcs[e.thread];
            multiset(s'.taken) + Held(true, pc) == multiset(s.taken) + Held(true, pc') + Finished(pc)
  {
    StepTakes(s, e, s');
    StepCarries(s, e, s');
  }

  /** One thread's part of a sum is exchanged. */
  lemma Exchange<T>(a: multiset<T>, a': multiset<T>, all: multiset<T>, all': multiset<T>, one: multiset<T>,
                    one': multiset<T>, more: multiset<T>)
    requires a' + one' == a + one + more && all' + one == all + one'
    ensures a' + all' == a + all + more
  {
    forall x ensures (a' + all')[x] == (a + all + more)[x] {
      assert (a' + one')[x] == (a + one + more)[x] && (all' + one)[x] == (all + one')[x];
    }
  }

  lemma StepKeepsOffers(s: State, e: Event, s': State)
    requires Takes(s, e, s')
    ensures multiset(s'.stored) + HeldByAll(false, s'.pcs) ==
            multiset(s.stored) + HeldByAll(false, s.pcs) + LetIn(s.pcs[e.thread], e.offer)
  {
    var pc, pc' := s.pcs[e.thread], s'.pcs[e.thread];
    StepBalances(s, e.thread, e.offer, s');
    StepHandsIn(s, e, s');
    HeldUpdate(false, s.pcs, e.thread, pc');
    Exchange(multiset(s.stored), multiset(s'.stored), HeldByAll(false, s.pcs), HeldByAll(false, s'.pcs),
             Held(false, pc), Held(false, pc'), LetIn(pc, e.offer));
  }

  /** Two sides of a sum grow alike. */
  lemma GrowAlike<T>(a: multiset<T>, a': multiset<T>, all: multiset<T>, all': multiset<T>, one: multiset<T>,
                     one': multiset<T>, more: multiset<T>, worked: multiset<T>)
    requires a' + one == a + one' + more && all' + one == all + one' && a == all + worked
    ensures a' == all' + (worked + more)
  {
    forall x ensures a'[x] == (all' + (worked + more))[x] {
      assert (a' + one)[x] == (a + one' + more)[x] && (all' + one)[x] == (all + one')[x];
      assert a[x] == (all + worked)[x];
    }
  }

  lemma StepKeepsTaken(s: State, e: Event, s': State, worked: multiset<Command>)
    requires Takes(s, e, s') && ItemOk(s.pcs[e.thread])
    requires multiset(s.taken) == HeldByAll(true, s.pcs) + worked
    ensures multiset(s'.taken) == HeldByAll(true, s'.pcs) + (worked + Finished(s.pcs[e.thread]))
  {
    var pc, pc' := s.pcs[e.thread], s'.pcs[e.thread];
    StepBalances(s, e.thread, e.offer, s');
    StepHandsOut(s, e, s');
    HeldUpdate(true, s.pcs, e.thread, pc');
    GrowAlike(multiset(s.taken), multiset(s'.taken), HeldByAll(true, s.pcs), HeldByAll(true, s'.pcs),
              Held(true, pc), Held(true, pc'), Finished(pc), worked);
  }

  /**
   * In every reachable state the offers that is_data_ok let through are, each exactly once, the commands
   * stored so far and those a producer still holds.
   */
  lemma {:induction false} OffersAreStored(states: seq<State>, events: seq<Event>)
    requires Traced(states, events)
    ensures var s := states[|events|]; multiset(s.stored) + HeldByAll(false, s.pcs) == Accepted(states, events)
  {
    if events == [] {
      NothingHeld(false, states[0].pcs);
    } else {
      var n := |events| - 1;
      TracedFront(states, events);
      OffersAreStored(states[..n + 1], events[..n]);
      StepKeepsOffers(states[n], events[n], states[n + 1]);
    }
  }

  /** And the commands taken so far are, each exactly once, those worked on and those a consumer still holds. */
  lemma {:induction false} TakenAreWorked(states: seq<State>, events: seq<Event>)
    requires Traced(states, events)
    ensures var s := states[|events|]; multiset(s.taken) == HeldByAll(true, s.pcs) + Worked(states, events)
  {
    if events == [] {
      NothingHeld(true, states[0].pcs);
    } else {
      var n := |events| - 1;
      TracedFront(states, events);
      TakenAreWorked(states[..n + 1], events[..n]);
      TracedRun(states[..n + 1], events[..n]);
      RunInv(states[..n + 1]);
      StepKeepsTaken(states[n], events[n], states[n + 1], Worked(states[..n + 1], events[..n]));
    }
  }

  // ----- an undisturbed call -----

  /** Thread `t` takes one step after another. */
  ghost predicate Alone(states: seq<State>, t: nat, offer: Command) {
    && states != [] && t < |states[0].pcs|
    && forall i :: 0 <= i < |states| - 1 ==> Takes(states[i], Event(t, offer), states[i + 1])
  }

  /** With the mutex free and room left, an accepted offer is stored by its thread, which is then back at Fetch. */
  lemma OfferIsStored(s: State, t: nat, offer: Command) returns (states: seq<State>)
    requires t < |s.pcs| && s.pcs[t] == Fetch && s.mutex == None && s.empty > 0 && IsDataOk(offer)
    ensures Alone(states, t, offer) && states[0] == s
    ensures states[|states| - 1] ==
            s.(list := s.list + [offer], stored := s.stored + [offer], empty := s.empty - 1, full := s.full + 1)
  {
    var a := Go(s, t, WaitEmpty(offer));
    var b := Go(a, t, LockToPush(offer)).(empty := s.empty - 1);
    var c := Go(b, t, PushBack(offer)).(mutex := Some(t));
    var d := Go(c, t, UnlockPushed).(list := s.list + [offer], stored := s.stored + [offer]);
    var e := Go(d, t, PostFull).(mutex := None);
    var f := Go(e, t, Fetch).(full := s.full + 1);
    states := [s, a, b, c, d, e, f];
    assert f.pcs == s.pcs;
  }

  /** With the mutex free and a command in the list, a waiting consumer takes the first one. */
  lemma FirstIsTaken(s: State, t: nat, offer: Command) returns (states: seq<State>)
    requires t < |s.pcs| && s.pcs[t] == WaitFull && s.mutex == None && s.full > 0 && s.list != []
    ensures Alone(states, t, offer) && states[0] == s
    ensures states[|states| - 1] ==
            s.(pcs := s.pcs[t := Check(s.list[0])], list := s.list[1..], taken := s.taken + [s.list[0]],
               empty := s.empty + 1, full := s.full - 1)
  {
    var x := s.list[0];
    var a := Go(s, t, LockToTake).(full := s.full - 1);
    var b := Go(a, t, Front).(mutex := Some(t));
    var c := Go(b, t, PopFront(x));
    var d := Go(c, t, UnlockTaken(x)).(list := s.list[1..], taken := s.taken + [x]);
    var e := Go(d, t, PostEmpty(x)).(mutex := None);
    var f := Go(e, t, Check(x)).(empty := s.empty + 1);
    states := [s, a, b, c, d, e, f];
    assert f.pcs == s.pcs[t := Check(x)];
  }

  /** An acceptable command that was taken is worked on next. */
  lemma TakenIsWorked(s: State, t: nat, x: Command, offer: Command) returns (states: seq<State>)
    requires t < |s.pcs| && s.pcs[t] == Check(x) && IsDataOk(x)
    ensures Alone(states, t, offer) && states[0] == s
    ensures states[1..] == [s.(pcs := s.pcs[t := Work(x)]), s.(pcs := s.pcs[t := WaitFull])]
  {
    var g := Go(s, t, Work(x));
    var h := Go(g, t, WaitFull);
    states := [s, g, h];
    assert h.pcs == s.pcs[t := WaitFull];
  }
}
