/** Where the flow table loses sockets and payloads, with runs that get there, and exactly when it does. */
module FlowTableLimits {
  import opened Wrappers
  import opened FlowTable

  /** The state after the actions, if each is enabled in turn. */
  function After(s: State, flows: Flows, actions: seq<Action>): Option<State>
    decreases |actions|
  {
    if actions == [] then Some(s)
    else if Enabled(s, actions[0]) then After(Next(s, flows, actions[0]), flows, actions[1..])
    else None
  }

  /** A run that has come to s can go on to t. */
  ghost predicate Reaches(s: State, flows: Flows, t: State) {
    exists actions :: After(s, flows, actions) == Some(t)
  }

  lemma ReachesItself(s: State, flows: Flows)
    ensures Reaches(s, flows, s)
  {
    assert After(s, flows, []) == Some(s);
  }

  lemma Reach(r: State, s: State, flows: Flows, a: Action)
    requires Reaches(r, flows, s) && Enabled(s, a)
    ensures Reaches(r, flows, Next(s, flows, a))
  {
    hide Enabled, Next;
    var actions :| After(r, flows, actions) == Some(s);
    AfterAppend(r, s, flows, actions, a);
  }

  lemma {:induction false} AfterAppend(r: State, s: State, flows: Flows, actions: seq<Action>, a: Action)
    requires After(r, flows, actions) == Some(s) && Enabled(s, a)
    ensures After(r, flows, actions + [a]) == Some(Next(s, flows, a))
    decreases |actions|
  {
    hide Enabled, Next;
    if actions == [] {
      assert ([] + [a])[1..] == [];
      assert After(Next(s, flows, a), flows, []) == Some(Next(s, flows, a));
    } else {
      assert (actions + [a])[1..] == actions[1..] + [a];
      AfterAppend(Next(r, flows, actions[0]), s, flows, actions[1..], a);
    }
  }

  /** What a step keeps, every continuation keeps. */
  lemma {:induction false} InvAfter(s: State, flows: Flows, actions: seq<Action>)
    requires Inv(s, flows) && After(s, flows, actions).Some?
    ensures Inv(After(s, flows, actions).value, flows)
    ensures Listed(s, flows) && Harmless(flows) ==> Listed(After(s, flows, actions).value, flows)
    decreases |actions|
  {
    hide Enabled, Next, Inv, Listed, Harmless;
    if actions == [] {
    } else {
      InvStep(s, flows, actions[0]);
      if Listed(s, flows) && Harmless(flows) {
        ListedStep(s, flows, actions[0]);
      }
      InvAfter(Next(s, flows, actions[0]), flows, actions[1..]);
    }
  }

  lemma ReachedFits(t: State, flows: Flows)
    requires Reaches(START, flows, t)
    ensures Inv(t, flows) && (Harmless(flows) ==> Listed(t, flows))
  {
    hide Inv, Listed, Harmless, After;
    StartFits(flows);
    var actions :| After(START, flows, actions) == Some(t);
    InvAfter(START, flows, actions);
  }

  // ----- Two sockets for one key

  /** A call dials, installs its connection and writes, while no other moves. */
  lemma InstallAlone(r: State, s: State, flows: Flows, c: Call) returns (t: State)
    requires Reaches(r, flows, s) && s.lock == None && c !in s.phase && c !in s.writers
    requires flows(c).key !in s.connections
    ensures Reaches(r, flows, t)
    ensures t == s.(phase := s.phase[c := Finished(Sent(c))], connections := s.connections[flows(c).key := c],
      open := s.open + {c}, reader := s.reader[c := Reading])
  {
    hide Reaches;
    Reach(r, s, flows, Begin(c));
    t := To(s, c, Looking);
    Reach(r, t, flows, LookUp(c));
    t := To(s, c, Missed);
    assert s.phase[c := Looking][c := Missed] == s.phase[c := Missed];
    Reach(r, t, flows, TakeLock(c));
    t := To(s, c, Locked).(lock := Some(c));
    assert s.phase[c := Missed][c := Locked] == s.phase[c := Locked];
    Reach(r, t, flows, LookAgain(c));
    t := To(s, c, Dialling).(lock := Some(c));
    assert s.phase[c := Locked][c := Dialling] == s.phase[c := Dialling];
    t := InstallLocked(r, s, flows, c, t);
  }

  lemma InstallLocked(r: State, s: State, flows: Flows, c: Call, s': State) returns (t: State)
    requires Reaches(r, flows, s') && s' == To(s, c, Dialling).(lock := Some(c))
    requires s.lock == None && c !in s.writers
    ensures Reaches(r, flows, t)
    ensures t == s.(phase := s.phase[c := Finished(Sent(c))], connections := s.connections[flows(c).key := c],
      open := s.open + {c}, reader := s.reader[c := Reading])
  {
    hide Reaches;
    Reach(r, s', flows, Dial(c));
    t := To(s, c, Dialled).(lock := Some(c), open := s.open + {c});
    assert s.phase[c := Dialling][c := Dialled] == s.phase[c := Dialled];
    Reach(r, t, flows, StartReader(c));
    t := To(s, c, Spawned).(lock := Some(c), open := s.open + {c}, reader := s.reader[c := Reading]);
    assert s.phase[c := Dialled][c := Spawned] == s.phase[c := Spawned];
    t := StoreLocked(r, s, flows, c, t);
  }

  lemma StoreLocked(r: State, s: State, flows: Flows, c: Call, s': State) returns (t: State)
    requires Reaches(r, flows, s') && s.lock == None && c !in s.writers
    requires s' == To(s, c, Spawned).(lock := Some(c), open := s.open + {c}, reader := s.reader[c := Reading])
    ensures Reaches(r, flows, t)
    ensures t == s.(phase := s.phase[c := Finished(Sent(c))], connections := s.connections[flows(c).key := c],
      open := s.open + {c}, reader := s.reader[c := Reading])
  {
    hide Reaches;
    Reach(r, s', flows, Install(c));
    t := To(s, c, Installed).(lock := Some(c), open := s.open + {c}, reader := s.reader[c := Reading],
      connections := s.connections[flows(c).key := c]);
    assert s.phase[c := Spawned][c := Installed] == s.phase[c := Installed];
    t := WriteLocked(r, s, flows, c, t);
  }

  lemma WriteLocked(r: State, s: State, flows: Flows, c: Call, s': State) returns (t: State)
    requires Reaches(r, flows, s') && s.lock == None && c !in s.writers
    requires s' == To(s, c, Installed).(lock := Some(c), open := s.open + {c}, reader := s.reader[c := Reading],
      connections := s.connections[flows(c).key := c])
    ensures Reaches(r, flows, t)
    ensures t == s.(phase := s.phase[c := Finished(Sent(c))], connections := s.connections[flows(c).key := c],
      open := s.open + {c}, reader := s.reader[c := Reading])
  {
    hide Reaches;
    t := s';
    Reach(r, t, flows, TakeOwnWriteLock(c));
    t := t.(phase := s.phase[c := Writing(c, true)], writers := s.writers[c := c]);
    assert s.phase[c := Installed][c := Writing(c, true)] == s.phase[c := Writing(c, true)];
    t := FinishLocked(r, s, flows, c, t);
  }

  lemma FinishLocked(r: State, s: State, flows: Flows, c: Call, s': State) returns (t: State)
    requires Reaches(r, flows, s') && s.lock == None && c !in s.writers
    requires s' == To(s, c, Writing(c, true)).(lock := Some(c), open := s.open + {c}, reader := s.reader[c := Reading],
      connections := s.connections[flows(c).key := c], writers := s.writers[c := c])
    ensures Reaches(r, flows, t)
    ensures t == s.(phase := s.phase[c := Finished(Sent(c))], connections := s.connections[flows(c).key := c],
      open := s.open + {c}, reader := s.reader[c := Reading])
  {
    hide Reaches;
    Reach(r, s', flows, Write(c));
    t := Next(s', flows, Write(c));
    assert s.phase[c := Writing(c, true)][c := Finished(Sent(c))] == s.phase[c := Finished(Sent(c))];
    assert s.writers[c := c] - {c} == s.writers;
  }

  /** The reader of c deletes the entry of d, and e, of the flow of d, dials again. */
  lemma ForeignDeletion(flows: Flows, c: Call, d: Call, e: Call) returns (t: State)
    requires flows(c).identify != flows(c).key && flows(d).key == flows(c).identify
    requires d != e && flows(e).key == flows(d).key
    ensures Reaches(START, flows, t) && !OneSocketEach(t, flows)
  {
    hide Reaches;
    ReachesItself(START, flows);
    t := InstallAlone(START, START, flows, d);
    t := InstallAlone(START, t, flows, c);
    Reach(START, t, flows, CloseSocket(c));
    t := Next(t, flows, CloseSocket(c));
    Reach(START, t, flows, Remove(c));
    t := Next(t, flows, Remove(c));
    t := InstallAlone(START, t, flows, e);
    assert d in t.open && e in t.open;
  }

  lemma HarmIsPossible(flows: Flows) returns (t: State)
    requires !Harmless(flows)
    ensures Reaches(START, flows, t) && !OneSocketEach(t, flows)
  {
    hide OneSocketEach, Reaches, Sole;
    var c, d :| flows(d).key == flows(c).identify && flows(c).identify != flows(c).key && !Sole(flows, d);
    var e := Another(flows, d);
    t := ForeignDeletion(flows, c, d, e);
  }

  lemma Another(flows: Flows, d: Call) returns (e: Call)
    requires !Sole(flows, d)
    ensures e != d && flows(e).key == flows(d).key
  {
    e :| flows(e).key == flows(d).key && e != d;
  }

  /**
   The table keeps one open socket per flow in every run exactly when no connection can delete the entry of another
   flow that has more than one call.
  */
  lemma OneSocketExactlyWhenHarmless(flows: Flows)
    ensures (forall s | Reaches(START, flows, s) :: OneSocketEach(s, flows)) <==> Harmless(flows)
  {
    hide OneSocketEach, Reaches, Harmless, Inv, Listed;
    if Harmless(flows) {
      forall s | Reaches(START, flows, s) ensures OneSocketEach(s, flows) {
        ReachedFits(s, flows);
        InvGivesOneSocket(s, flows);
      }
    } else {
      var t := HarmIsPossible(flows);
    }
  }

  // ----- Dropped payloads

  /** The first lookup of c at index a has missed, the second at index b has hit. */
  predicate MissedThenHit(ss: seq<State>, flows: Flows, actions: seq<Action>, a: nat, b: nat, c: Call)
    requires a < b < |actions| <= |ss|
  {
    && actions[a] == LookUp(c) && flows(c).key !in ss[a].connections
    && actions[b] == LookAgain(c) && flows(c).key in ss[b].connections
  }

  predicate HasMissed(p: Phase) { p.Missed? || p.Locked? }

  lemma MissStep(s: State, flows: Flows, a: Action, c: Call)
    requires Enabled(s, a)
    ensures var t := Next(s, flows, a);
      && (c in t.phase && HasMissed(t.phase[c]) ==>
            (a == LookUp(c) && flows(c).key !in s.connections) || (c in s.phase && HasMissed(s.phase[c])))
      && (In(t, c, Finished(Dropped)) <==>
            In(s, c, Finished(Dropped)) || (a == LookAgain(c) && flows(c).key in s.connections))
      && (a == LookAgain(c) ==> c in s.phase && HasMissed(s.phase[c]))
  {
  }

  lemma {:induction false} HasLookedUp(ss: seq<State>, flows: Flows, actions: seq<Action>, i: nat, c: Call)
    returns (a: nat)
    requires Run(ss, flows, actions) && i < |ss| && c in ss[i].phase && HasMissed(ss[i].phase[c])
    ensures a < i && actions[a] == LookUp(c) && flows(c).key !in ss[a].connections
  {
    hide Enabled, Next, HasMissed;
    NothingBegun(c);
    MissStep(ss[i - 1], flows, actions[i - 1], c);
    if actions[i - 1] == LookUp(c) && flows(c).key !in ss[i - 1].connections {
      a := i - 1;
    } else {
      a := HasLookedUp(ss, flows, actions, i - 1, c);
    }
  }

  lemma NothingBegun(c: Call)
    ensures c !in START.phase
  {
  }

  /**
   A payload is dropped exactly when the first lookup of its call finds no entry and the second finds one: another
   call has installed a connection in between.
  */
  lemma {:induction false} DroppedExactly(ss: seq<State>, flows: Flows, actions: seq<Action>, i: nat, c: Call)
    requires Run(ss, flows, actions) && i < |ss|
    ensures In(ss[i], c, Finished(Dropped))
      <==> exists a, b | 0 <= a < b < i :: MissedThenHit(ss, flows, actions, a, b, c)
  {
    hide Enabled, Next, HasMissed;
    if i == 0 {
      NothingBegun(c);
    } else {
      DroppedExactly(ss, flows, actions, i - 1, c);
      MissStep(ss[i - 1], flows, actions[i - 1], c);
      if actions[i - 1] == LookAgain(c) && flows(c).key in ss[i - 1].connections {
        var a := HasLookedUp(ss, flows, actions, i - 1, c);
        assert a != i - 1;
        assert MissedThenHit(ss, flows, actions, a, i - 1, c);
      }
    }
  }

  /** A run in which c drops its payload: d installs the connection of the flow between the two lookups of c. */
  lemma DroppingIsReached(flows: Flows, c: Call, d: Call) returns (t: State)
    requires c != d && flows(c).key == flows(d).key
    ensures Reaches(START, flows, t) && In(t, c, Finished(Dropped))
  {
    hide Reaches;
    ReachesItself(START, flows);
    Reach(START, START, flows, Begin(c));
    t := Next(START, flows, Begin(c));
    Reach(START, t, flows, LookUp(c));
    t := Next(t, flows, LookUp(c));
    t := InstallAlone(START, t, flows, d);
    Reach(START, t, flows, TakeLock(c));
    t := Next(t, flows, TakeLock(c));
    Reach(START, t, flows, LookAgain(c));
    t := Next(t, flows, LookAgain(c));
  }

  // ----- Lost payloads

  /** The entry of k is x, whose reader has closed the socket. */
  predicate ClosedEntry(s: State, k: string, x: Call) {
    k in s.connections && s.connections[k] == x && x in s.reader && !s.reader[x].Reading?
  }

  /** c has not begun, or is on its way to write to the closed socket of x, or has done so. */
  predicate OnlyLoses(s: State, c: Call, x: Call) {
    c in s.phase ==>
      s.phase[c] == Looking || s.phase[c] == Found(x) || s.phase[c] == Writing(x, false)
      || s.phase[c] == Finished(Lost(x))
  }

  lemma LosingStep(s: State, flows: Flows, a: Action, k: string, x: Call, c: Call)
    requires Inv(s, flows) && Enabled(s, a) && ClosedEntry(s, k, x) && OnlyLoses(s, c, x) && c != x
    requires flows(c).key == k && (a.Remove? ==> flows(a.c).identify != k)
    ensures var t := Next(s, flows, a); ClosedEntry(t, k, x) && OnlyLoses(t, c, x)
  {
    hide WritersFit, LockFits, EntriesFit, CallFits, ClosedEntry, OnlyLoses, Enabled, Next;
    assert a.c in s.phase ==> CallFits(s, flows, a.c);
    ClosedEntryStep(s, flows, a, k, x);
    assert CallFits(s, flows, x);
    LoserStep(s, flows, a, k, x, c);
  }

  lemma ClosedEntryStep(s: State, flows: Flows, a: Action, k: string, x: Call)
    requires Enabled(s, a) && ClosedEntry(s, k, x) && DomainsFit(s)
    requires (a.c in s.phase ==> CallFits(s, flows, a.c)) && (a.Remove? ==> flows(a.c).identify != k)
    ensures x in s.phase && ClosedEntry(Next(s, flows, a), k, x)
  {
  }

  lemma LoserStep(s: State, flows: Flows, a: Action, k: string, x: Call, c: Call)
    requires Enabled(s, a) && ClosedEntry(s, k, x) && OnlyLoses(s, c, x) && c != x && flows(c).key == k
    requires x in s.phase && CallFits(s, flows, x)
    ensures OnlyLoses(Next(s, flows, a), c, x)
  {
  }

  /**
   Once the socket of an entry is closed and no identify field is its key, every call of the flow that begins later
   writes its payload to the closed socket, or has not come to writing yet.
  */
  lemma {:induction false} ClosedFlowLosesPayloads(ss: seq<State>, flows: Flows, actions: seq<Action>, i: nat, j: nat,
      k: string, c: Call)
    requires Run(ss, flows, actions) && i <= j < |ss| && k in ss[i].connections
    requires ClosedEntry(ss[i], k, ss[i].connections[k]) && forall d :: flows(d).identify != k
    requires c !in ss[i].phase && flows(c).key == k
    ensures ClosedEntry(ss[j], k, ss[i].connections[k]) && OnlyLoses(ss[j], c, ss[i].connections[k])
    decreases j
  {
    hide Enabled, Next, Inv, CallFits;
    var x := ss[i].connections[k];
    InvHolds(ss, flows, actions, i);
    FreshIsOther(ss[i], flows, k, c);
    if i == j {
    } else {
      ClosedFlowLosesPayloads(ss, flows, actions, i, j - 1, k, c);
      InvHolds(ss, flows, actions, j - 1);
      LosingStep(ss[j - 1], flows, actions[j - 1], k, x, c);
    }
  }

  lemma FreshIsOther(s: State, flows: Flows, k: string, c: Call)
    requires Inv(s, flows) && k in s.connections && c !in s.phase
    ensures c != s.connections[k] && c !in s.reader && c !in s.writers
  {
    hide LockFits;
    forall x | x in s.writers ensures x in s.reader {
      assert CallFits(s, flows, s.writers[x]);
    }
  }

  /** A run in which c loses its payload: the socket of d, which holds the entry, is closed. */
  lemma LosingIsReached(flows: Flows, c: Call, d: Call) returns (t: State)
    requires c != d && flows(c).key == flows(d).key
    ensures Reaches(START, flows, t) && In(t, c, Finished(Lost(d)))
  {
    hide Reaches;
    ReachesItself(START, flows);
    t := InstallAlone(START, START, flows, d);
    Reach(START, t, flows, CloseSocket(d));
    t := Next(t, flows, CloseSocket(d));
    t := WriteThrough(START, t, flows, c);
  }

  /** A fresh call finds the entry of its flow and writes to it. */
  lemma WriteThrough(r: State, s: State, flows: Flows, c: Call) returns (t: State)
    requires Reaches(r, flows, s) && c !in s.phase && flows(c).key in s.connections
    requires s.connections[flows(c).key] !in s.writers
    ensures Reaches(r, flows, t)
    ensures var x := s.connections[flows(c).key]; In(t, c, Finished(if x in s.open then Sent(x) else Lost(x)))
  {
    hide Reaches;
    Reach(r, s, flows, Begin(c));
    t := Next(s, flows, Begin(c));
    Reach(r, t, flows, LookUp(c));
    t := Next(t, flows, LookUp(c));
    Reach(r, t, flows, TakeWriteLock(c));
    t := Next(t, flows, TakeWriteLock(c));
    Reach(r, t, flows, Write(c));
    t := Next(t, flows, Write(c));
  }

  // ----- When a flow is dead

  /** Only calls of the flow itself have its key in their identify field. */
  ghost predicate OwnField(flows: Flows, k: string) {
    forall y :: flows(y).identify == k ==> flows(y).key == k
  }

  /** A reader that has still to delete the entry of k. */
  predicate WillDelete(s: State, flows: Flows, k: string, y: Call) {
    Alive(s, y) && flows(y).identify == k
  }

  /**
   The entry of k is x, whose socket is closed, and no reader will delete it. (A reader that goes before its entry is
   stored leaves an entry that nobody deletes.)
  */
  ghost predicate Dead(s: State, flows: Flows, k: string, x: Call) {
    ClosedEntry(s, k, x) && forall y :: !WillDelete(s, flows, k, y)
  }

  /** Some continuation sends the payload of c to an open socket. */
  ghost predicate CanBeSent(s: State, flows: Flows, c: Call) {
    exists t | Reaches(s, flows, t) :: IsSent(t, c)
  }

  predicate IsSent(s: State, c: Call) {
    c in s.phase && s.phase[c].Finished? && s.phase[c].result.Sent?
  }

  lemma NotBeforeInstall(s: State, flows: Flows, c: Call)
    requires Inv(s, flows) && c in s.phase && flows(c).key in s.connections
    ensures !BeforeInstall(s.phase[c])
  {
    hide WritersFit, LockFits, EntriesFit;
    assert CallFits(s, flows, c);
  }

  lemma DeadStep(s: State, flows: Flows, a: Action, k: string, x: Call)
    requires Inv(s, flows) && OwnField(flows, k) && Enabled(s, a) && Dead(s, flows, k, x)
    ensures a.Remove? ==> flows(a.c).identify != k
    ensures ClosedEntry(Next(s, flows, a), k, x) ==> Dead(Next(s, flows, a), flows, k, x)
  {
    hide Inv, OwnField;
    assert !WillDelete(s, flows, k, a.c);
    forall y ensures !WillDelete(Next(s, flows, a), flows, k, y) {
      assert !WillDelete(s, flows, k, y);
      if a == StartReader(y) && flows(y).identify == k {
        OwnKey(flows, k, y);
        NotBeforeInstall(s, flows, y);
      }
    }
  }

  lemma OwnKey(flows: Flows, k: string, y: Call)
    requires OwnField(flows, k) && flows(y).identify == k
    ensures flows(y).key == k
  {
  }

  lemma {:induction false} DeadNeverSends(s: State, flows: Flows, actions: seq<Action>, k: string, x: Call, c: Call)
    requires Inv(s, flows) && OwnField(flows, k)
    requires Dead(s, flows, k, x) && OnlyLoses(s, c, x) && c != x && flows(c).key == k
    ensures var t := After(s, flows, actions); t.Some? ==> !IsSent(t.value, c)
    decreases |actions|
  {
    hide Enabled, Next, Inv, ClosedEntry, WillDelete;
    if actions == [] || !Enabled(s, actions[0]) {
    } else {
      var a, t := actions[0], Next(s, flows, actions[0]);
      DeadStep(s, flows, a, k, x);
      LosingStep(s, flows, a, k, x, c);
      InvStep(s, flows, a);
      DeadNeverSends(t, flows, actions[1..], k, x, c);
    }
  }

  // ----- A flow that is not dead can send

  /** How many steps the holder of the lock has before it at most. */
  function Rank(s: State, h: Call): nat
    requires h in s.phase
  {
    match s.phase[h]
    case Locked => 7
    case Dialling => 6
    case Dialled => 5
    case Spawned => 4
    case Installed => if h in s.writers then 3 else 2
    case _ => 1
  }

  /** The step that brings the holder of the lock on, its dial failing if it comes to that. */
  function HolderStep(s: State, h: Call): Action
    requires h in s.phase
  {
    match s.phase[h]
    case Locked => LookAgain(h)
    case Dialling => FailDial(h)
    case Dialled => StartReader(h)
    case Spawned => Install(h)
    case Installed => if h in s.writers then Write(s.writers[h]) else TakeOwnWriteLock(h)
    case _ => Write(h)
  }

  lemma HolderAdvances(s: State, flows: Flows, h: Call, k: string, y: Call, c: Call)
    requires Inv(s, flows) && s.lock == Some(h) && k in s.connections && WillDelete(s, flows, k, y) && c !in s.phase
    ensures h in s.phase && HoldsLock(s.phase[h]) && Enabled(s, HolderStep(s, h))
    ensures var t := Next(s, flows, HolderStep(s, h));
      && k in t.connections && WillDelete(t, flows, k, y) && c !in t.phase
      && (t.lock == None || (t.lock == s.lock && h in t.phase && Rank(t, h) < Rank(s, h)))
  {
    hide EntriesFit, CallFits, Rank, HolderStep, WillDelete, HoldsLock, Enabled;
    assert CallFits(s, flows, h);
    assert h in s.writers ==> CallFits(s, flows, s.writers[h]);
    HolderCan(s, flows, h);
    WriterOf(s, flows, h);
    HolderComesOn(s, flows, h, k, y, c);
  }

  lemma HolderCan(s: State, flows: Flows, h: Call)
    requires LockFits(s) && WritersFit(s) && s.lock == Some(h)
    ensures h in s.phase && HoldsLock(s.phase[h]) && Enabled(s, HolderStep(s, h))
  {
  }

  /** The writer to the connection of the holder of the lock holds the lock only if it is the holder. */
  lemma WriterOf(s: State, flows: Flows, h: Call)
    requires WritersFit(s) && s.lock == Some(h) && h in s.phase && CallFits(s, flows, h)
    requires h in s.writers ==> s.writers[h] in s.phase && CallFits(s, flows, s.writers[h])
    ensures h in s.writers ==> In(s, s.writers[h], Writing(h, s.writers[h] == h))
  {
  }

  lemma HolderComesOn(s: State, flows: Flows, h: Call, k: string, y: Call, c: Call)
    requires s.lock == Some(h) && h in s.phase && HoldsLock(s.phase[h]) && Enabled(s, HolderStep(s, h))
    requires k in s.connections && WillDelete(s, flows, k, y) && c !in s.phase
    requires h in s.writers ==> In(s, s.writers[h], Writing(h, s.writers[h] == h))
    ensures var t := Next(s, flows, HolderStep(s, h));
      && k in t.connections && WillDelete(t, flows, k, y) && c !in t.phase
      && (t.lock == None || (t.lock == s.lock && h in t.phase && Rank(t, h) < Rank(s, h)))
  {
  }

  /** The lock can become free while a reader waits to delete. */
  lemma {:induction false} FreeLock(r: State, s: State, flows: Flows, k: string, y: Call, c: Call) returns (t: State)
    requires Reaches(r, flows, s) && Inv(s, flows) && k in s.connections && WillDelete(s, flows, k, y) && c !in s.phase
    ensures Reaches(r, flows, t) && Inv(t, flows) && k in t.connections && WillDelete(t, flows, k, y) && c !in t.phase
    ensures t.lock == None
    decreases if s.lock.Some? && s.lock.value in s.phase then 1 + Rank(s, s.lock.value) else 0
  {
    hide Reaches, Inv, Next, Enabled, Rank, HolderStep, WillDelete;
    if s.lock == None {
      t := s;
    } else {
      var h := s.lock.value;
      HolderAdvances(s, flows, h, k, y, c);
      InvStep(s, flows, HolderStep(s, h));
      Reach(r, s, flows, HolderStep(s, h));
      t := FreeLock(r, Next(s, flows, HolderStep(s, h)), flows, k, y, c);
    }
  }

  /** An open entry: whoever holds its write lock writes, then the fresh call does. */
  lemma SendThroughOpen(s: State, flows: Flows, k: string, c: Call)
    requires Inv(s, flows) && c !in s.phase && flows(c).key == k && k in s.connections
    requires s.reader[s.connections[k]].Reading?
    ensures CanBeSent(s, flows, c)
  {
    hide Reaches, WritersFit, LockFits;
    var x := s.connections[k];
    assert CallFits(s, flows, x) && x in s.open;
    ReachesItself(s, flows);
    var t := s;
    if x in s.writers {
      t := FreeWriteLock(s, flows, x, c);
    }
    t := WriteThrough(s, t, flows, c);
    assert IsSent(t, c);
  }

  lemma FreeWriteLock(s: State, flows: Flows, x: Call, c: Call) returns (t: State)
    requires Inv(s, flows) && x in s.writers && c !in s.phase && Reaches(s, flows, s)
    ensures Reaches(s, flows, t) && x !in t.writers && c !in t.phase
    ensures t.connections == s.connections && t.open == s.open
  {
    hide Reaches, LockFits, EntriesFit, CallFits;
    var w := s.writers[x];
    Reach(s, s, flows, Write(w));
    t := Next(s, flows, Write(w));
  }

  /** A reader will delete the entry: the fresh call dials after that. */
  lemma SendAfterRemoval(s: State, flows: Flows, k: string, y: Call, c: Call)
    requires Inv(s, flows) && c !in s.phase && flows(c).key == k && k in s.connections && WillDelete(s, flows, k, y)
    ensures CanBeSent(s, flows, c)
  {
    hide Reaches, Inv;
    ReachesItself(s, flows);
    var t := FreeLock(s, s, flows, k, y, c);
    FreshIsOther(t, flows, k, c);
    if t.reader[y].Reading? {
      Reach(s, t, flows, CloseSocket(y));
      t := Next(t, flows, CloseSocket(y));
    }
    Reach(s, t, flows, Remove(y));
    t := Next(t, flows, Remove(y));
    t := InstallAlone(s, t, flows, c);
    assert IsSent(t, c);
  }

  /**
   In every reached state, the payload of a call that has not begun can still be sent exactly when the entry of its
   flow has an open socket or some reader has still to delete it, if only calls of the flow have its key as their
   field. (With such a reader it can be sent in any case.)
  */
  lemma SendableExactlyUnlessDead(s: State, flows: Flows, k: string, c: Call)
    requires Reaches(START, flows, s) && OwnField(flows, k)
    requires k in s.connections && c !in s.phase && flows(c).key == k
    ensures CanBeSent(s, flows, c) <==> !Dead(s, flows, k, s.connections[k])
  {
    hide Reaches, Inv, OnlyLoses, OwnField, WillDelete, Listed, Harmless;
    ReachedFits(s, flows);
    var x := s.connections[k];
    FreshIsOther(s, flows, k, c);
    ReaderOfEntry(s, flows, k);
    if Dead(s, flows, k, x) {
      FreshOnlyLoses(s, c, x);
      forall t | Reaches(s, flows, t) ensures !IsSent(t, c) {
        ReachedNeverSends(s, flows, t, k, x, c);
      }
    } else if s.reader[x].Reading? {
      SendThroughOpen(s, flows, k, c);
    } else {
      var y :| WillDelete(s, flows, k, y);
      SendAfterRemoval(s, flows, k, y, c);
    }
  }

  lemma ReaderOfEntry(s: State, flows: Flows, k: string)
    requires Inv(s, flows) && k in s.connections
    ensures s.connections[k] in s.reader
  {
    hide CallFits, WritersFit, LockFits;
  }

  lemma FreshOnlyLoses(s: State, c: Call, x: Call)
    requires c !in s.phase
    ensures OnlyLoses(s, c, x)
  {
  }

  lemma ReachedNeverSends(s: State, flows: Flows, t: State, k: string, x: Call, c: Call)
    requires Inv(s, flows) && OwnField(flows, k) && Reaches(s, flows, t)
    requires Dead(s, flows, k, x) && OnlyLoses(s, c, x) && c != x && flows(c).key == k
    ensures !IsSent(t, c)
  {
    hide Inv, OwnField, Dead, OnlyLoses, After, IsSent;
    var actions :| After(s, flows, actions) == Some(t);
    DeadNeverSends(s, flows, actions, k, x, c);
  }
}
