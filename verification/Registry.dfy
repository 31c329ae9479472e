/**
 The change-notification registry shared by interfaces, routes and unicast addresses, as a machine whose
 steps are the points at which threads can interleave.
*/
module Registry {
  import opened Wrappers

  /** A registered callback object; every registration makes a new one. */
  type Callback = nat

  /**
   The thread that holds the add/remove mutex, and how far it has come. Register: Adding wants the second
   mutex, Added holds it and has inserted the callback. Unregister: Removing wants the second mutex,
   Waiting has released it again.
  */
  datatype Holder =
    | Free
    | Adding(c: Callback)
    | Added(c: Callback)
    | Removing(c: Callback)
    | Waiting(c: Callback, removeIt: bool)
    | Cancelling(c: Callback)
    | Clearing(c: Callback)

  /** The second mutex: free, held by the thread that adds, or held by a dispatch with the callbacks it still visits. */
  datatype Lock =
    | Unlocked
    | HeldByAdder
    | Dispatching(todo: set<Callback>)
    | Spawning(todo: set<Callback>, c: Callback)

  /**
   wait has the counter of every callback's wait group. An invocation is spawned, then calling, then ended
   until it has decremented the counter. gone has the callbacks whose Unregister has returned, with or without
   an error, and those whose Register has failed.
  */
  datatype State = State(holder: Holder, lock: Lock, callbacks: set<Callback>, handle: nat, wait: multiset<Callback>,
    spawned: multiset<Callback>, calling: multiset<Callback>, ended: multiset<Callback>,
    created: set<Callback>, returned: set<Callback>, gone: set<Callback>)

  datatype Action =
    // Register
    | BeginRegister(c: Callback)
    | Insert
    | AlreadySubscribed
    | Notify(handle: nat)
    | NotifyFails
    // Unregister
    | BeginUnregister(c: Callback)
    | Delete
    | WaitEnds
    | Cancel
    | CancelFails
    | ClearHandle
    // the dispatch the system calls
    | BeginDispatch
    | AddWait(c: Callback)
    | Spawn
    | EndDispatch
    // an invocation
    | Start(c: Callback)
    | Return(c: Callback)
    | Finish(c: Callback)

  const START := State(Free, Unlocked, {}, 0, multiset{}, multiset{}, multiset{}, multiset{}, {}, {}, {})

  predicate Enabled(s: State, a: Action) {
    match a
    case BeginRegister(c) => s.holder.Free? && c !in s.created
    case Insert => s.holder.Adding? && s.lock.Unlocked?
    case AlreadySubscribed => s.holder.Added? && s.handle != 0
    case Notify(handle) => s.holder.Added? && s.handle == 0 && handle != 0
    case NotifyFails => s.holder.Added? && s.handle == 0
    case BeginUnregister(c) => s.holder.Free? && c in s.returned
    case Delete => s.holder.Removing? && s.lock.Unlocked?
    case WaitEnds => s.holder.Waiting? && s.wait[s.holder.c] == 0
    case Cancel => s.holder.Cancelling?
    case CancelFails => s.holder.Cancelling?
    case ClearHandle => s.holder.Clearing?
    case BeginDispatch => s.lock.Unlocked?
    case AddWait(c) => s.lock.Dispatching? && c in s.lock.todo
    case Spawn => s.lock.Spawning?
    case EndDispatch => s.lock.Dispatching? && s.lock.todo == {}
    case Start(c) => c in s.spawned
    case Return(c) => c in s.calling
    case Finish(c) => c in s.ended
  }

  function Next(s: State, a: Action): State
    requires Enabled(s, a)
  {
    match a
    case BeginRegister(c) => s.(holder := Adding(c), created := s.created + {c})
    case Insert => s.(holder := Added(s.holder.c), lock := HeldByAdder, callbacks := s.callbacks + {s.holder.c})
    case AlreadySubscribed => Registered(s)
    case Notify(handle) => Registered(s.(handle := handle))
    case NotifyFails =>
      s.(callbacks := s.callbacks - {s.holder.c}, handle := 0, lock := Unlocked, holder := Free,
         gone := s.gone + {s.holder.c})
    case BeginUnregister(c) => s.(holder := Removing(c))
    case Delete =>
      var callbacks := s.callbacks - {s.holder.c};
      s.(callbacks := callbacks, holder := Waiting(s.holder.c, callbacks == {} && s.handle != 0))
    case WaitEnds => if s.holder.removeIt then s.(holder := Cancelling(s.holder.c)) else Unregistered(s)
    case Cancel => s.(holder := Clearing(s.holder.c))
    case CancelFails => Unregistered(s)
    case ClearHandle => Unregistered(s.(handle := 0))
    case BeginDispatch => s.(lock := Dispatching(s.callbacks))
    case AddWait(c) => s.(wait := s.wait + multiset{c}, lock := Spawning(s.lock.todo - {c}, c))
    case Spawn => s.(spawned := s.spawned + multiset{s.lock.c}, lock := Dispatching(s.lock.todo))
    case EndDispatch => s.(lock := Unlocked)
    case Start(c) => s.(spawned := s.spawned - multiset{c}, calling := s.calling + multiset{c})
    case Return(c) => s.(calling := s.calling - multiset{c}, ended := s.ended + multiset{c})
    case Finish(c) => s.(ended := s.ended - multiset{c}, wait := s.wait - multiset{c})
  }

  /** Register returns its callback. */
  function Registered(s: State): State
    requires s.holder.Added?
  {
    s.(holder := Free, lock := Unlocked, returned := s.returned + {s.holder.c})
  }

  /** Unregister returns. */
  function Unregistered(s: State): State
    requires !s.holder.Free?
  {
    s.(holder := Free, gone := s.gone + {s.holder.c})
  }

  // ----- Runs

  /** The states of a run: from the start, each reached from the one before by the action at its index. */
  ghost predicate Run(ss: seq<State>, actions: seq<Action>) {
    && |ss| == |actions| + 1 && ss[0] == START
    && forall i | 0 <= i < |actions| :: Enabled(ss[i], actions[i]) && ss[i + 1] == Next(ss[i], actions[i])
  }

  /** Successful notify calls minus successful cancel calls. */
  function Subscriptions(actions: seq<Action>): int {
    if actions == [] then 0 else Subscriptions(actions[..|actions| - 1]) + Change(actions[|actions| - 1])
  }

  function Change(a: Action): int {
    match a
    case Notify(_) => 1
    case Cancel => -1
    case _ => 0
  }

  // ----- The invariant

  /** The wait counters count the invocations that have not decremented them. */
  ghost predicate Counted(s: State) {
    forall c :: s.wait[c] == Outstanding(s, c)
  }

  /** Invocations of c that have been counted and have not finished. */
  function Outstanding(s: State, c: Callback): nat {
    s.spawned[c] + s.calling[c] + s.ended[c] + if s.lock.Spawning? && s.lock.c == c then 1 else 0
  }

  /** A dispatch visits registered callbacks only. */
  predicate Visits(s: State) {
    match s.lock
    case Unlocked => !s.holder.Added?
    case HeldByAdder => s.holder.Added?
    case Dispatching(todo) => !s.holder.Added? && todo <= s.callbacks
    case Spawning(todo, c) => !s.holder.Added? && todo <= s.callbacks && c in s.callbacks
  }

  /** The callback the holder of the mutex works on. */
  predicate Handled(s: State) {
    match s.holder
    case Free => true
    case Adding(c) => c in s.created && c !in s.returned && c !in s.gone && c !in s.callbacks && s.wait[c] == 0
    case Added(c) => c in s.created && c !in s.returned && c !in s.gone && c in s.callbacks && s.wait[c] == 0
    case Removing(c) => c in s.returned
    case Waiting(c, _) => c in s.returned && c !in s.callbacks
    case Cancelling(c) => c in s.returned && c !in s.callbacks && s.wait[c] == 0
    case Clearing(c) => c in s.returned && c !in s.callbacks && s.wait[c] == 0
  }

  predicate Sets(s: State) {
    && s.callbacks <= s.created && s.returned <= s.created && s.gone <= s.created
    && s.callbacks !! s.gone
  }

  /** Invocations are counted for callbacks that are not gone. */
  predicate WaitsForLive(s: State) {
    forall c | c in s.wait :: c in s.created && c !in s.gone
  }

  /** The subscription, given the balance of notify and cancel calls. */
  predicate Subscribed(s: State, balance: int) {
    && balance == (if s.handle != 0 && !s.holder.Clearing? then 1 else 0)
    && match s.holder
       case Added(c) => s.callbacks != {c} ==> s.handle != 0
       case Waiting(_, removeIt) =>
         (s.callbacks != {} ==> s.handle != 0) && (removeIt <==> s.callbacks == {} && s.handle != 0)
       case Cancelling(_) => s.callbacks == {} && s.handle != 0
       case Clearing(_) => s.callbacks == {} && s.handle != 0
       case _ => s.callbacks != {} ==> s.handle != 0
  }

  ghost predicate Inv(s: State, balance: int) {
    Counted(s) && Visits(s) && Handled(s) && Sets(s) && WaitsForLive(s) && Subscribed(s, balance)
  }

  lemma InvStep(s: State, a: Action, balance: int)
    requires Inv(s, balance) && Enabled(s, a)
    ensures Inv(Next(s, a), balance + Change(a))
  {
    CountedStep(s, a, balance);
    VisitsStep(s, a);
    HandledStep(s, a);
    SetsStep(s, a);
    WaitsStep(s, a);
    SubscribedStep(s, a, balance);
  }

  lemma CountedStep(s: State, a: Action, balance: int)
    requires Inv(s, balance) && Enabled(s, a)
    ensures Counted(Next(s, a))
  {
    hide Handled, Sets, Subscribed, Enabled, Next, Outstanding, Visits;
    forall c ensures Next(s, a).wait[c] == Outstanding(Next(s, a), c) {
      assert s.wait[c] == Outstanding(s, c);
      CountedAt(s, a, c);
    }
  }

  lemma CountedAt(s: State, a: Action, c: Callback)
    requires Visits(s) && Enabled(s, a) && s.wait[c] == Outstanding(s, c)
    ensures Next(s, a).wait[c] == Outstanding(Next(s, a), c)
  {
    hide Next, Enabled, Outstanding, Visits;
    match a {
      case Start(_) => MoveCounted(s, a, c);
      case Return(_) => MoveCounted(s, a, c);
      case Finish(_) => FinishCounted(s, a, c);
      case AddWait(_) => SpawnCounted(s, a, c);
      case Spawn => SpawnCounted(s, a, c);
      case _ => OthersCounted(s, a, c);
    }
  }

  lemma MoveCounted(s: State, a: Action, c: Callback)
    requires a.Start? || a.Return?
    requires Enabled(s, a) && s.wait[c] == Outstanding(s, c)
    ensures Next(s, a).wait[c] == Outstanding(Next(s, a), c)
  {
  }

  lemma FinishCounted(s: State, a: Action, c: Callback)
    requires a.Finish? && Enabled(s, a) && s.wait[c] == Outstanding(s, c)
    ensures Next(s, a).wait[c] == Outstanding(Next(s, a), c)
  {
  }

  lemma SpawnCounted(s: State, a: Action, c: Callback)
    requires a.AddWait? || a.Spawn?
    requires Enabled(s, a) && s.wait[c] == Outstanding(s, c)
    ensures Next(s, a).wait[c] == Outstanding(Next(s, a), c)
  {
  }

  lemma OthersCounted(s: State, a: Action, c: Callback)
    requires !a.Start? && !a.Return? && !a.Finish? && !a.AddWait? && !a.Spawn?
    requires Visits(s) && Enabled(s, a) && s.wait[c] == Outstanding(s, c)
    ensures Next(s, a).wait[c] == Outstanding(Next(s, a), c)
  {
  }

  lemma VisitsStep(s: State, a: Action)
    requires Visits(s) && Handled(s) && Enabled(s, a)
    ensures Visits(Next(s, a))
  {
  }

  lemma HandledStep(s: State, a: Action)
    requires Visits(s) && Handled(s) && Sets(s) && WaitsForLive(s) && Enabled(s, a)
    ensures Handled(Next(s, a))
  {
  }

  lemma SubscribedStep(s: State, a: Action, balance: int)
    requires Visits(s) && Handled(s) && Subscribed(s, balance) && Enabled(s, a)
    ensures Subscribed(Next(s, a), balance + Change(a))
  {
  }

  lemma SetsStep(s: State, a: Action)
    requires Visits(s) && Handled(s) && Sets(s) && Enabled(s, a)
    ensures Sets(Next(s, a))
  {
  }

  lemma WaitsStep(s: State, a: Action)
    requires Visits(s) && Handled(s) && Sets(s) && WaitsForLive(s) && Enabled(s, a)
    ensures WaitsForLive(Next(s, a))
  {
    hide Enabled, Next, Sets, Visits;
    forall c | c in Next(s, a).wait ensures c in Next(s, a).created && c !in Next(s, a).gone {
      WaitAt(s, a, c);
    }
  }

  lemma WaitAt(s: State, a: Action, c: Callback)
    requires Visits(s) && Handled(s) && Sets(s) && WaitsForLive(s) && Enabled(s, a) && c in Next(s, a).wait
    ensures c in Next(s, a).created && c !in Next(s, a).gone
  {
    assert a.AddWait? || c in s.wait;
  }

  lemma {:induction false} InvHolds(ss: seq<State>, actions: seq<Action>, i: nat)
    requires Run(ss, actions) && i < |ss|
    ensures Inv(ss[i], Subscriptions(actions[..i]))
  {
    hide Inv, Enabled, Next;
    if i == 0 {
      StartHolds();
    } else {
      InvHolds(ss, actions, i - 1);
      InvStep(ss[i - 1], actions[i - 1], Subscriptions(actions[..i - 1]));
      assert actions[..i][..i - 1] == actions[..i - 1];
    }
  }

  lemma StartHolds()
    ensures Inv(START, 0)
  {
  }

  // ----- What the registry promises

  lemma GoneStays(s: State, a: Action, c: Callback)
    requires Enabled(s, a) && c in s.gone
    ensures c in Next(s, a).gone
  {
  }

  lemma {:induction false} GoneForever(ss: seq<State>, actions: seq<Action>, i: nat, j: nat, c: Callback)
    requires Run(ss, actions) && i <= j < |ss| && c in ss[i].gone
    ensures c in ss[j].gone
    decreases j
  {
    hide Enabled, Next;
    if i == j {
    } else {
      GoneForever(ss, actions, i, j - 1, c);
      GoneStays(ss[j - 1], actions[j - 1], c);
    }
  }

  /**
   Once Unregister of a callback has returned, even with an error, no invocation of it runs or waits to run,
   none starts at any later point of the run, and no dispatch will visit it. The same holds for a callback
   whose registration failed.
  */
  lemma Quiescence(ss: seq<State>, actions: seq<Action>, i: nat, j: nat, c: Callback)
    requires Run(ss, actions) && i <= j < |ss| && c in ss[i].gone
    ensures c !in ss[j].spawned && c !in ss[j].calling && c !in ss[j].ended && c !in ss[j].callbacks
    ensures j < |actions| ==> actions[j] != Start(c) && actions[j] != AddWait(c)
  {
    hide Next;
    GoneForever(ss, actions, i, j, c);
    InvHolds(ss, actions, j);
    if j < |actions| {
      assert Enabled(ss[j], actions[j]);
    }
  }

  /**
   Whenever the add/remove mutex is free there is exactly one subscription if the handle is set and none if it
   is not, also after notify or cancel calls that failed; and callbacks are registered only while subscribed.
  */
  lemma SubscriptionConserved(ss: seq<State>, actions: seq<Action>, i: nat)
    requires Run(ss, actions) && i < |ss| && ss[i].holder.Free?
    ensures Subscriptions(actions[..i]) == if ss[i].handle != 0 then 1 else 0
    ensures ss[i].callbacks != {} ==> ss[i].handle != 0
  {
    InvHolds(ss, actions, i);
  }

  /** At no point of a run is there more than one subscription, or a negative number. */
  lemma OneSubscription(ss: seq<State>, actions: seq<Action>, i: nat)
    requires Run(ss, actions) && i < |ss|
    ensures 0 <= Subscriptions(actions[..i]) <= 1
  {
    InvHolds(ss, actions, i);
  }

  /** While Unregister waits, its counter is never increased: the wait group is not reused under the waiter. */
  lemma WaitOnlyShrinks(ss: seq<State>, actions: seq<Action>, i: nat)
    requires Run(ss, actions) && i < |actions| && ss[i].holder.Waiting?
    ensures var c := ss[i].holder.c; ss[i + 1].wait[c] <= ss[i].wait[c]
  {
    hide Enabled, Next;
    InvHolds(ss, actions, i);
    ShrinkStep(ss[i], actions[i]);
  }

  lemma ShrinkStep(s: State, a: Action)
    requires Visits(s) && Handled(s) && s.holder.Waiting? && Enabled(s, a)
    ensures Next(s, a).wait[s.holder.c] <= s.wait[s.holder.c]
  {
  }

  /** Steps that invocations of c have before them, counted in the wait group. */
  function Work(s: State, c: Callback): nat {
    3 * s.spawned[c] + 2 * s.calling[c] + s.ended[c] + if s.lock.Spawning? && s.lock.c == c then 4 else 0
  }

  /**
   Unregister does not wait in vain: its wait is over, or an invocation it waits for can take a step, which leaves
   less to wait for. Whatever else happens meanwhile never adds to it.
  */
  lemma WaiterProgress(ss: seq<State>, actions: seq<Action>, i: nat) returns (a: Action)
    requires Run(ss, actions) && i < |ss| && ss[i].holder.Waiting?
    ensures Enabled(ss[i], a)
    ensures var c := ss[i].holder.c;
      a == WaitEnds || (a in {Spawn, Start(c), Return(c), Finish(c)} && Work(Next(ss[i], a), c) < Work(ss[i], c))
  {
    InvHolds(ss, actions, i);
    a := Progress(ss[i], ss[i].holder.c);
  }

  lemma Progress(s: State, c: Callback) returns (a: Action)
    requires Counted(s) && s.holder.Waiting? && c == s.holder.c
    ensures Enabled(s, a)
    ensures a == WaitEnds || (a in {Spawn, Start(c), Return(c), Finish(c)} && Work(Next(s, a), c) < Work(s, c))
  {
    assert s.wait[c] == Outstanding(s, c);
    if s.wait[c] == 0 {
      a := WaitEnds;
    } else if c in s.ended {
      a := Finish(c);
    } else if c in s.calling {
      a := Return(c);
    } else if c in s.spawned {
      a := Start(c);
    } else {
      a := Spawn;
    }
  }

  lemma WorkOnlyShrinks(ss: seq<State>, actions: seq<Action>, i: nat)
    requires Run(ss, actions) && i < |actions| && ss[i].holder.Waiting?
    ensures var c := ss[i].holder.c; Work(ss[i + 1], c) <= Work(ss[i], c)
  {
    hide Enabled, Next, Work;
    InvHolds(ss, actions, i);
    WorkStep(ss[i], actions[i]);
  }

  lemma WorkStep(s: State, a: Action)
    requires Visits(s) && Handled(s) && s.holder.Waiting? && Enabled(s, a)
    ensures Work(Next(s, a), s.holder.c) <= Work(s, s.holder.c)
  {
  }

  // ----- What is registered, and when the subscription goes

  /** The callbacks are those whose Register has returned, without those that are deleted, and one being added. */
  predicate ListsThem(s: State) {
    match s.holder
    case Added(c) => s.callbacks == s.returned - s.gone + {c}
    case Waiting(c, _) => s.callbacks == s.returned - s.gone - {c}
    case Cancelling(c) => s.callbacks == s.returned - s.gone - {c}
    case Clearing(c) => s.callbacks == s.returned - s.gone - {c}
    case _ => s.callbacks == s.returned - s.gone
  }

  lemma ListsStep(s: State, a: Action)
    requires Handled(s) && ListsThem(s) && Enabled(s, a)
    ensures ListsThem(Next(s, a))
  {
  }

  /**
   In every state, the callbacks are exactly those whose Register has returned and whose Unregister has not come to
   deleting them, and one that is being added.
  */
  lemma {:induction false} RegisteredExactly(ss: seq<State>, actions: seq<Action>, i: nat)
    requires Run(ss, actions) && i < |ss|
    ensures ListsThem(ss[i])
  {
    hide Enabled, Next, ListsThem, Handled;
    if i == 0 {
      NothingListed();
    } else {
      RegisteredExactly(ss, actions, i - 1);
      InvHolds(ss, actions, i - 1);
      ListsStep(ss[i - 1], actions[i - 1]);
    }
  }

  lemma NothingListed()
    ensures ListsThem(START)
  {
  }

  predicate Unregisters(h: Holder) { h.Waiting? || h.Cancelling? || h.Clearing? }

  /** An Unregister that leaves no callback leaves no subscription either, unless the system refuses to cancel it. */
  lemma LastOneUnsubscribes(ss: seq<State>, actions: seq<Action>, i: nat)
    requires Run(ss, actions) && i < |actions| && Unregisters(ss[i].holder) && ss[i + 1].holder.Free?
    requires actions[i] != CancelFails && ss[i + 1].callbacks == {}
    ensures ss[i + 1].handle == 0
  {
    InvHolds(ss, actions, i);
  }

  /** A handle goes with callbacks, where no Unregister has still to decide about it. */
  predicate HandleIsUsed(s: State) {
    match s.holder
    case Added(c) => s.handle != 0 ==> s.callbacks != {c}
    case Waiting(_, _) => true
    case Cancelling(_) => true
    case Clearing(_) => true
    case _ => s.handle != 0 ==> s.callbacks != {}
  }

  lemma UsedStep(s: State, a: Action, balance: int)
    requires Handled(s) && Subscribed(s, balance) && HandleIsUsed(s) && Enabled(s, a) && a != CancelFails
    ensures HandleIsUsed(Next(s, a))
  {
  }

  lemma {:induction false} UsedHolds(ss: seq<State>, actions: seq<Action>, i: nat)
    requires Run(ss, actions) && i < |ss| && CancelFails !in actions[..i]
    ensures HandleIsUsed(ss[i])
  {
    hide Enabled, Next, HandleIsUsed, Handled, Subscribed;
    if i == 0 {
      NothingUsed();
    } else {
      assert actions[..i] == actions[..i - 1] + [actions[i - 1]];
      UsedHolds(ss, actions, i - 1);
      InvHolds(ss, actions, i - 1);
      UsedStep(ss[i - 1], actions[i - 1], Subscriptions(actions[..i - 1]));
    }
  }

  lemma NothingUsed()
    ensures HandleIsUsed(START)
  {
  }

  /**
   As long as the system has not refused to cancel: with the mutex free, there is a subscription exactly while there is
   a callback.
  */
  lemma SubscribedExactlyWhileNeeded(ss: seq<State>, actions: seq<Action>, i: nat)
    requires Run(ss, actions) && i < |ss| && ss[i].holder.Free? && CancelFails !in actions[..i]
    ensures ss[i].handle != 0 <==> ss[i].callbacks != {}
  {
    hide Enabled, Next;
    InvHolds(ss, actions, i);
    UsedHolds(ss, actions, i);
  }

  // ----- What a dispatch does

  /** How often c is counted. */
  function Adds(actions: seq<Action>, c: Callback): nat {
    if actions == [] then 0
    else Adds(actions[..|actions| - 1], c) + if actions[|actions| - 1] == AddWait(c) then 1 else 0
  }

  /** The callbacks a dispatch has still to visit. */
  function ToVisit(l: Lock): set<Callback> {
    match l
    case Dispatching(todo) => todo
    case Spawning(todo, _) => todo
    case _ => {}
  }

  lemma VisitStep(s: State, a: Action, c: Callback)
    requires Visits(s) && Enabled(s, a) && (s.lock.Dispatching? || s.lock.Spawning?) && a != EndDispatch
    ensures var t := Next(s, a);
      && (t.lock.Dispatching? || t.lock.Spawning?)
      && (c in ToVisit(s.lock) <==> c in ToVisit(t.lock) || a == AddWait(c))
      && (a == AddWait(c) ==> c !in ToVisit(t.lock))
  {
    if !a.AddWait? && !a.Spawn? {
      LockStays(s, a);
    }
  }

  lemma LockStays(s: State, a: Action)
    requires Visits(s) && Enabled(s, a) && (s.lock.Dispatching? || s.lock.Spawning?)
    requires a != EndDispatch && !a.AddWait? && !a.Spawn?
    ensures Next(s, a).lock == s.lock
  {
  }

  lemma {:induction false} VisitedSoFar(ss: seq<State>, actions: seq<Action>, i: nat, j: nat, c: Callback)
    requires Run(ss, actions) && i < j < |ss| && actions[i] == BeginDispatch && EndDispatch !in actions[i..j]
    ensures ss[j].lock.Dispatching? || ss[j].lock.Spawning?
    ensures Adds(actions[i..j], c) + (if c in ToVisit(ss[j].lock) then 1 else 0)
      == if c in ss[i].callbacks then 1 else 0
    decreases j
  {
    hide Enabled, Next;
    assert actions[i..j] == actions[i..j - 1] + [actions[j - 1]];
    if j == i + 1 {
      FirstVisit(ss[i]);
    } else {
      VisitedSoFar(ss, actions, i, j - 1, c);
      InvHolds(ss, actions, j - 1);
      VisitStep(ss[j - 1], actions[j - 1], c);
    }
  }

  lemma FirstVisit(s: State)
    requires Enabled(s, BeginDispatch)
    ensures Next(s, BeginDispatch).lock == Dispatching(s.callbacks)
  {
  }

  /**
   From its beginning to its end, whatever happens in between, a dispatch counts one invocation of each callback that
   was registered when it began, and none of any other.
  */
  lemma DispatchInvokesEachOnce(ss: seq<State>, actions: seq<Action>, i: nat, j: nat, c: Callback)
    requires Run(ss, actions) && i < j < |actions|
    requires actions[i] == BeginDispatch && actions[j] == EndDispatch && EndDispatch !in actions[i..j]
    ensures Adds(actions[i..j], c) == if c in ss[i].callbacks then 1 else 0
  {
    hide Next;
    VisitedSoFar(ss, actions, i, j, c);
    assert Enabled(ss[j], actions[j]);
  }

  /** No deadlock: while a call, a dispatch or an invocation is under way, one of them can take a step. */
  lemma SomeThreadCanMove(ss: seq<State>, actions: seq<Action>, i: nat) returns (a: Action)
    requires Run(ss, actions) && i < |ss|
    requires !ss[i].holder.Free? || !ss[i].lock.Unlocked?
    ensures Enabled(ss[i], a) && !a.BeginRegister? && !a.BeginUnregister? && !a.BeginDispatch?
  {
    InvHolds(ss, actions, i);
    a := MoveOf(ss[i]);
  }

  lemma MoveOf(s: State) returns (a: Action)
    requires Counted(s) && Visits(s) && (!s.holder.Free? || !s.lock.Unlocked?)
    ensures Enabled(s, a) && !a.BeginRegister? && !a.BeginUnregister? && !a.BeginDispatch?
  {
    match s.lock {
      case Spawning(_, _) => a := Spawn;
      case Dispatching(todo) =>
        if c :| c in todo {
          a := AddWait(c);
        } else {
          a := EndDispatch;
        }
      case HeldByAdder => a := if s.handle == 0 then NotifyFails else AlreadySubscribed;
      case Unlocked =>
        match s.holder {
          case Adding(_) => a := Insert;
          case Removing(_) => a := Delete;
          case Waiting(c, _) => a := Progress(s, c);
          case Cancelling(_) => a := Cancel;
          case Clearing(_) => a := ClearHandle;
          case Free =>
          case Added(_) =>
        }
    }
  }

  /** The counter never drops below zero: an invocation that finishes has been counted. */
  lemma CountersStayPositive(ss: seq<State>, actions: seq<Action>, i: nat, c: Callback)
    requires Run(ss, actions) && i < |actions| && actions[i] == Finish(c)
    ensures ss[i].wait[c] > 0 && ss[i + 1].wait[c] == ss[i].wait[c] - 1
  {
    InvHolds(ss, actions, i);
  }

  // ----- The code between the steps

  /** The state after the actions, if each is enabled in turn. */
  function After(s: State, actions: seq<Action>): Option<State> {
    if actions == [] then Some(s)
    else match After(s, actions[..|actions| - 1])
      case None => None
      case Some(t) =>
        var a := actions[|actions| - 1];
        if Enabled(t, a) then Some(Next(t, a)) else None
  }

  lemma Then(s: State, actions: seq<Action>, a: Action)
    requires After(s, actions).Some? && Enabled(After(s, actions).value, a)
    ensures After(s, actions + [a]) == Some(Next(After(s, actions).value, a))
  {
    hide Enabled, Next;
    assert (actions + [a])[..|actions|] == actions;
  }

  lemma First(s: State, a: Action)
    requires Enabled(s, a)
    ensures After(s, [a]) == Some(Next(s, a))
  {
    hide Enabled, Next;
    assert [] + [a] == [a];
    Then(s, [], a);
  }

  /** A dispatch visits one callback. */
  lemma Visit(s: State, actions: seq<Action>, t: State, c: Callback) returns (u: State)
    requires After(s, actions) == Some(t) && t.lock.Dispatching? && c in t.lock.todo
    ensures After(s, actions + [AddWait(c), Spawn]) == Some(u)
    ensures u == t.(wait := t.wait + multiset{c}, spawned := t.spawned + multiset{c},
      lock := Dispatching(t.lock.todo - {c}))
  {
    Then(s, actions, AddWait(c));
    var v := Next(t, AddWait(c));
    Then(s, actions + [AddWait(c)], Spawn);
    assert actions + [AddWait(c)] + [Spawn] == actions + [AddWait(c), Spawn];
    u := Next(v, Spawn);
  }

  /** Every callback in done is counted once more, and no other. */
  ghost predicate OnceMore(before: multiset<Callback>, now: multiset<Callback>, done: set<Callback>) {
    forall c :: now[c] == before[c] + if c in done then 1 else 0
  }

  lemma NothingMore(counts: multiset<Callback>, all: set<Callback>)
    ensures OnceMore(counts, counts, all - all)
  {
  }

  lemma AndOnce(before: multiset<Callback>, now: multiset<Callback>, all: set<Callback>, todo: set<Callback>,
      c: Callback)
    requires OnceMore(before, now, all - todo) && c in todo && todo <= all
    ensures OnceMore(before, now + multiset{c}, all - (todo - {c}))
  {
  }

  /**
   The shared variables, with the sections of code that run under the mutexes. Each section is a sequence of
   actions of the machine: s is the state before, the result the state after them.
  */
  class Shared {
    var callbacks: set<Callback>
    var handle: nat
    var wait: multiset<Callback>

    constructor ()
      ensures Matches(START)
    {
      callbacks, handle, wait := {}, 0, multiset{};
    }

    ghost predicate Matches(s: State)
      reads this
    {
      callbacks == s.callbacks && handle == s.handle && wait == s.wait
    }

    /** Register, from the point where it holds the first mutex. */
    method Register(c: Callback, ghost s: State) returns (ok: bool, ghost actions: seq<Action>, ghost t: State)
      requires Matches(s) && s.holder == Adding(c) && s.lock.Unlocked?
      modifies this
      ensures After(s, actions) == Some(t) && Matches(t) && t.holder.Free?
      ensures if ok then c in t.returned else t.gone == s.gone + {c}
      ensures ok ==> callbacks == old(callbacks) + {c} && handle != 0
      ensures old(handle) != 0 ==> ok && handle == old(handle)
      ensures !ok ==> callbacks == old(callbacks) - {c} && handle == 0
    {
      callbacks := callbacks + {c};
      actions, t := [Insert], Next(s, Insert);
      Then(s, [], Insert);
      if handle == 0 {
        var notified: nat := *;
        if notified == 0 {
          callbacks := callbacks - {c};
          handle := 0;
          Then(s, actions, NotifyFails);
          actions, t := actions + [NotifyFails], Next(t, NotifyFails);
          return false, actions, t;
        }
        handle := notified;
        Then(s, actions, Notify(notified));
        actions, t := actions + [Notify(notified)], Next(t, Notify(notified));
      } else {
        Then(s, actions, AlreadySubscribed);
        actions, t := actions + [AlreadySubscribed], Next(t, AlreadySubscribed);
      }
      ok := true;
    }

    /** Unregister, from the point where it holds the first mutex to the point where it waits. */
    method Delete(c: Callback, ghost s: State) returns (removeIt: bool)
      requires Matches(s) && s.holder == Removing(c) && s.lock.Unlocked?
      modifies this`callbacks
      ensures var t := Next(s, Action.Delete); Matches(t) && t.holder == Waiting(c, removeIt)
      ensures callbacks == old(callbacks) - {c} && (removeIt <==> callbacks == {} && handle != 0)
    {
      callbacks := callbacks - {c};
      removeIt := callbacks == {} && handle != 0;
    }

    /** Unregister, from the end of the waiting. */
    method Cancel(c: Callback, removeIt: bool, ghost s: State)
      returns (ok: bool, ghost actions: seq<Action>, ghost t: State)
      requires Matches(s) && s.holder == Waiting(c, removeIt) && s.wait[c] == 0
      modifies this`handle
      ensures After(s, actions) == Some(t) && Matches(t) && t.holder.Free? && t.gone == s.gone + {c}
      ensures handle == if removeIt && ok then 0 else old(handle)
      ensures !removeIt ==> ok
    {
      actions, t, ok := [WaitEnds], Next(s, WaitEnds), true;
      Then(s, [], WaitEnds);
      if removeIt {
        ok := *;
        if !ok {
          Then(s, actions, CancelFails);
          actions, t := actions + [CancelFails], Next(t, CancelFails);
          return;
        }
        Then(s, actions, Action.Cancel);
        actions, t := actions + [Action.Cancel], Next(t, Action.Cancel);
        handle := 0;
        Then(s, actions, ClearHandle);
        actions, t := actions + [ClearHandle], Next(t, ClearHandle);
      }
    }

    /** The dispatch, which spawns one invocation of every registered callback. */
    method Dispatch(ghost s: State) returns (ghost actions: seq<Action>, ghost t: State)
      requires Matches(s) && s.lock.Unlocked?
      modifies this`wait
      ensures After(s, actions) == Some(t) && Matches(t) && t.lock.Unlocked?
      ensures OnceMore(s.spawned, t.spawned, callbacks) && OnceMore(old(wait), wait, callbacks)
    {
      hide After, OnceMore;
      NothingMore(s.spawned, callbacks);
      NothingMore(wait, callbacks);
      actions, t := [BeginDispatch], Next(s, BeginDispatch);
      First(s, BeginDispatch);
      var todo := callbacks;
      while todo != {}
        invariant After(s, actions) == Some(t) && Matches(t) && t.lock == Dispatching(todo)
        invariant t.callbacks == s.callbacks && todo <= s.callbacks
        invariant OnceMore(s.spawned, t.spawned, callbacks - todo) && OnceMore(old(wait), wait, callbacks - todo)
        decreases todo
      {
        var c :| c in todo;
        AndOnce(s.spawned, t.spawned, callbacks, todo, c);
        AndOnce(old(wait), wait, callbacks, todo, c);
        wait := wait + multiset{c};
        ghost var u := Visit(s, actions, t, c);
        actions, t := actions + [AddWait(c), Spawn], u;
        todo := todo - {c};
      }
      assert callbacks - todo == callbacks;
      Then(s, actions, EndDispatch);
      actions, t := actions + [EndDispatch], Next(t, EndDispatch);
    }
  }
}
