/**
 Forwarder.handle: the first packet of a client opens the connection to the server, later packets wait until
 it is available. A machine whose steps are the points at which handlers can interleave, for runs without
 the janitor and without Close.
*/
module Forwarder {
  import opened Wrappers

  /** A call of handle with one packet. An entry of the table is named after the call that made it. */
  type Call = nat

  /** The client each packet comes from, and whether the destination has an IPv4 form, as its first byte is read. */
  datatype Setup = Setup(client: Call -> string, ipv4: bool)

  datatype Phase =
    | Opening                   // made the entry
    | Dialling
    | DialFailed                // about to delete the entry
    | Connected                 // about to publish the socket
    | Published                 // about to send its own packet
    | Reading                   // relays answers until a read fails
    | Waiting(e: Call)          // found entry e, waits for its channel
    | Passed(e: Call)           // past the channel, about to send
    | Done(end: End)

  datatype End = GaveUp | Closed | Sent(e: Call) | NoSocket | Panicked

  /**
   The table, the entries with a socket, the entries whose channel is closed; and whether a handler has panicked,
   which ends the process, because no handler recovers.
  */
  datatype State = State(phase: map<Call, Phase>, connections: map<string, Call>, udp: set<Call>, available: set<Call>,
    crashed: bool)

  const START := State(map[], map[], {}, {}, false)

  datatype Action =
    | Enter(c: Call)
    | CheckAddress(c: Call)
    | Dial(c: Call)
    | FailDial(c: Call)
    | GiveUp(c: Call)
    | Publish(c: Call)
    | SendFirst(c: Call)
    | FailRead(c: Call)
    | Pass(c: Call)
    | Send(c: Call)

  predicate In(s: State, c: Call, p: Phase) { c in s.phase && s.phase[c] == p }

  predicate Enabled(s: State, a: Action) {
    !s.crashed && CanTake(s, a)
  }

  predicate CanTake(s: State, a: Action) {
    match a
    case Enter(c) => c !in s.phase
    case CheckAddress(c) => In(s, c, Opening)
    case Dial(c) => In(s, c, Dialling)
    case FailDial(c) => In(s, c, Dialling)
    case GiveUp(c) => In(s, c, DialFailed)
    case Publish(c) => In(s, c, Connected)
    case SendFirst(c) => In(s, c, Published)
    case FailRead(c) => In(s, c, Reading)
    case Pass(c) => c in s.phase && s.phase[c].Waiting? && s.phase[c].e in s.available
    case Send(c) => c in s.phase && s.phase[c].Passed?
  }

  function To(s: State, c: Call, p: Phase): State { s.(phase := s.phase[c := p]) }

  function Panic(s: State, c: Call): State { To(s, c, Done(Panicked)).(crashed := true) }

  function Next(s: State, setup: Setup, a: Action): State
    requires Enabled(s, a)
  {
    match a
    case Enter(c) =>
      var k := setup.client(c);
      if k in s.connections then To(s, c, Waiting(s.connections[k]))
      else To(s, c, Opening).(connections := s.connections[k := c])
    case CheckAddress(c) => if setup.ipv4 then To(s, c, Dialling) else Panic(s, c)
    case Dial(c) => To(s, c, Connected)
    case FailDial(c) => To(s, c, DialFailed)
    case GiveUp(c) => To(s, c, Done(GaveUp)).(connections := s.connections - {setup.client(c)})
    case Publish(c) => PublishSocket(s, setup, c)
    case SendFirst(c) => To(s, c, Reading)
    case FailRead(c) => To(s, c, Done(Closed)).(connections := s.connections - {setup.client(c)})
    case Pass(c) => To(s, c, Passed(s.phase[c].e))
    case Send(c) => To(s, c, Done(if s.phase[c].e in s.udp then Sent(s.phase[c].e) else NoSocket))
  }

  /**
   Stores the socket in the entry that is in the table now and closes its channel; a missing entry and a channel
   that is closed already are run-time panics.
  */
  function PublishSocket(s: State, setup: Setup, c: Call): State {
    var k := setup.client(c);
    if k !in s.connections then Panic(s, c) else
    var e := s.connections[k];
    if e in s.available then Panic(s, c).(udp := s.udp + {e})
    else To(s, c, Published).(udp := s.udp + {e}, available := s.available + {e})
  }

  ghost predicate Run(ss: seq<State>, setup: Setup, actions: seq<Action>) {
    && |ss| == |actions| + 1 && ss[0] == START
    && forall i | 0 <= i < |actions| :: Enabled(ss[i], actions[i]) && ss[i + 1] == Next(ss[i], setup, actions[i])
  }

  // ----- The invariant

  /** The opener of a connection, from making its entry to deleting it. */
  predicate Opens(p: Phase) {
    p.Opening? || p.Dialling? || p.DialFailed? || p.Connected? || p.Published? || p.Reading?
  }

  predicate HasPublished(p: Phase) {
    p.Published? || p.Reading? || p == Done(Closed)
  }

  predicate PhaseFits(s: State, setup: Setup, c: Call)
    requires c in s.phase
  {
    var p := s.phase[c];
    && (Opens(p) ==> setup.client(c) in s.connections && s.connections[setup.client(c)] == c)
    && (HasPublished(p) <==> c in s.available)
    && (p.Waiting? ==> p.e in s.phase && setup.client(p.e) == setup.client(c) && !IsPacket(s.phase[p.e]))
    && (p.Passed? ==> p.e in s.available && setup.client(p.e) == setup.client(c))
    && p != Done(NoSocket)
    && (p == Done(Panicked) ==> s.crashed && !setup.ipv4 && c !in s.available)
    && (p.Done? && p.end.Sent? ==> p.end.e in s.available && setup.client(p.end.e) == setup.client(c))
  }

  /** A call that found an entry. */
  predicate IsPacket(p: Phase) { p.Waiting? || p.Passed? || (p.Done? && (p.end.Sent? || p.end.NoSocket?)) }

  predicate TableFits(s: State, setup: Setup) {
    && (forall k | k in s.connections ::
          var e := s.connections[k];
          setup.client(e) == k && e in s.phase && (Opens(s.phase[e]) || s.phase[e] == Done(Panicked)))
    && s.available <= s.udp && s.available <= s.phase.Keys
  }

  predicate Inv(s: State, setup: Setup) {
    TableFits(s, setup) && forall c | c in s.phase :: PhaseFits(s, setup, c)
  }

  lemma TableStep(s: State, setup: Setup, a: Action)
    requires TableFits(s, setup) && Enabled(s, a) && (a.c in s.phase ==> PhaseFits(s, setup, a.c))
    ensures TableFits(Next(s, setup, a), setup)
  {
    hide Enabled, Next, PhaseFits, TableFits;
    if a.Enter? || a.Publish? {
      EntryStep(s, setup, a);
    } else {
      OtherStep(s, setup, a);
    }
  }

  lemma EntryStep(s: State, setup: Setup, a: Action)
    requires TableFits(s, setup) && Enabled(s, a) && (a.c in s.phase ==> PhaseFits(s, setup, a.c))
    requires a.Enter? || a.Publish?
    ensures TableFits(Next(s, setup, a), setup)
  {
  }

  lemma OtherStep(s: State, setup: Setup, a: Action)
    requires TableFits(s, setup) && Enabled(s, a) && (a.c in s.phase ==> PhaseFits(s, setup, a.c))
    requires !a.Enter? && !a.Publish?
    ensures TableFits(Next(s, setup, a), setup)
  {
  }

  /** What a step needs of its own call and of another call d. */
  predicate StepFits(s: State, setup: Setup, a: Action, d: Call) {
    && TableFits(s, setup) && Enabled(s, a)
    && (a.c in s.phase ==> PhaseFits(s, setup, a.c))
    && (d in s.phase ==> PhaseFits(s, setup, d))
  }

  lemma PhaseStep(s: State, setup: Setup, a: Action, d: Call)
    requires StepFits(s, setup, a, d)
    ensures d in Next(s, setup, a).phase ==> PhaseFits(Next(s, setup, a), setup, d)
  {
    hide StepFits, Next, PhaseFits, Enabled;
    match a {
      case Enter(_) => EnterStep(s, setup, a, d);
      case Pass(_) => PacketStep(s, setup, a, d);
      case Send(_) => PacketStep(s, setup, a, d);
      case Publish(_) => PublishStep(s, setup, a, d);
      case GiveUp(_) => RemovalStep(s, setup, a, d);
      case FailRead(_) => RemovalStep(s, setup, a, d);
      case _ => OpenerStep(s, setup, a, d);
    }
  }

  lemma EnterStep(s: State, setup: Setup, a: Action, d: Call)
    requires StepFits(s, setup, a, d) && a.Enter?
    ensures d in Next(s, setup, a).phase ==> PhaseFits(Next(s, setup, a), setup, d)
  {
  }

  lemma PacketStep(s: State, setup: Setup, a: Action, d: Call)
    requires StepFits(s, setup, a, d) && (a.Pass? || a.Send?)
    ensures d in Next(s, setup, a).phase ==> PhaseFits(Next(s, setup, a), setup, d)
  {
  }

  lemma OpenerStep(s: State, setup: Setup, a: Action, d: Call)
    requires StepFits(s, setup, a, d) && (a.CheckAddress? || a.Dial? || a.FailDial? || a.SendFirst?)
    ensures d in Next(s, setup, a).phase ==> PhaseFits(Next(s, setup, a), setup, d)
  {
  }

  lemma RemovalStep(s: State, setup: Setup, a: Action, d: Call)
    requires StepFits(s, setup, a, d) && (a.GiveUp? || a.FailRead?)
    ensures d in Next(s, setup, a).phase ==> PhaseFits(Next(s, setup, a), setup, d)
  {
  }

  lemma PublishStep(s: State, setup: Setup, a: Action, d: Call)
    requires StepFits(s, setup, a, d) && a.Publish?
    ensures d in Next(s, setup, a).phase ==> PhaseFits(Next(s, setup, a), setup, d)
  {
  }

  lemma InvStep(s: State, setup: Setup, a: Action)
    requires Inv(s, setup) && Enabled(s, a)
    ensures Inv(Next(s, setup, a), setup)
  {
    hide Enabled, Next, PhaseFits, TableFits;
    assert a.c in s.phase ==> PhaseFits(s, setup, a.c);
    TableStep(s, setup, a);
    forall d | d in Next(s, setup, a).phase ensures PhaseFits(Next(s, setup, a), setup, d) {
      assert StepFits(s, setup, a, d);
      PhaseStep(s, setup, a, d);
    }
  }

  lemma StartFits(setup: Setup)
    ensures Inv(START, setup)
  {
  }

  lemma {:induction false} InvHolds(ss: seq<State>, setup: Setup, actions: seq<Action>, i: nat)
    requires Run(ss, setup, actions) && i < |ss|
    ensures Inv(ss[i], setup)
  {
    hide Inv, Enabled, Next;
    if i == 0 {
      StartFits(setup);
    } else {
      InvHolds(ss, setup, actions, i - 1);
      InvStep(ss[i - 1], setup, actions[i - 1]);
    }
  }

  // ----- What the election guarantees

  /** Each client has at most one opener or reader, and its entry is the one in the table. */
  lemma OneOpener(ss: seq<State>, setup: Setup, actions: seq<Action>, i: nat, c: Call, d: Call)
    requires Run(ss, setup, actions) && i < |ss| && setup.client(c) == setup.client(d)
    requires c in ss[i].phase && Opens(ss[i].phase[c]) && d in ss[i].phase && Opens(ss[i].phase[d])
    ensures c == d && setup.client(c) in ss[i].connections && ss[i].connections[setup.client(c)] == c
  {
    hide Enabled, Next, TableFits;
    InvHolds(ss, setup, actions, i);
    assert PhaseFits(ss[i], setup, c) && PhaseFits(ss[i], setup, d);
  }

  /** Whatever is deleted from the table is the deleting call's own entry. */
  lemma RemovalsAreOwn(ss: seq<State>, setup: Setup, actions: seq<Action>, i: nat, k: string)
    requires Run(ss, setup, actions) && i < |actions|
    requires k in ss[i].connections && k !in ss[i + 1].connections
    ensures (actions[i].GiveUp? || actions[i].FailRead?) && ss[i].connections[k] == actions[i].c
  {
    hide TableFits;
    InvHolds(ss, setup, actions, i);
    assert actions[i].c in ss[i].phase ==> PhaseFits(ss[i], setup, actions[i].c);
  }

  /** No handler sends a packet without a socket, whatever the destination. */
  lemma NeverSocketless(ss: seq<State>, setup: Setup, actions: seq<Action>, i: nat, c: Call)
    requires Run(ss, setup, actions) && i < |ss| && c in ss[i].phase
    ensures ss[i].phase[c] != Done(NoSocket)
  {
    hide Enabled, Next, TableFits;
    InvHolds(ss, setup, actions, i);
    assert PhaseFits(ss[i], setup, c);
  }

  /**
   A handler panics exactly when it has made an entry and the destination has no IPv4 form. So no socket is ever
   stored in a missing entry, and no channel is closed twice.
  */
  lemma PanicsExactlyWithoutIpv4(ss: seq<State>, setup: Setup, actions: seq<Action>, i: nat, c: Call)
    requires Run(ss, setup, actions) && i < |actions|
    ensures !In(ss[i], c, Done(Panicked))
    ensures In(ss[i + 1], c, Done(Panicked)) <==> actions[i] == CheckAddress(c) && !setup.ipv4
  {
    hide TableFits;
    InvHolds(ss, setup, actions, i);
    InvHolds(ss, setup, actions, i + 1);
    assert c in ss[i].phase ==> PhaseFits(ss[i], setup, c);
    assert c in ss[i + 1].phase ==> PhaseFits(ss[i + 1], setup, c);
  }

  /** A run in which a handler panics: any first packet for a destination without an IPv4 form. */
  lemma PanicIsReached(setup: Setup, c: Call) returns (ss: seq<State>)
    requires !setup.ipv4
    ensures Run(ss, setup, [Enter(c), CheckAddress(c)]) && In(ss[2], c, Done(Panicked))
  {
    var s1 := Next(START, setup, Enter(c));
    ss := [START, s1, Next(s1, setup, CheckAddress(c))];
  }

  /** With a destination that has an IPv4 form no handler ever panics. */
  lemma NeverPanics(ss: seq<State>, setup: Setup, actions: seq<Action>, i: nat, c: Call)
    requires Run(ss, setup, actions) && i < |ss| && setup.ipv4
    ensures !In(ss[i], c, Done(Panicked))
  {
    hide Enabled, Next, TableFits;
    InvHolds(ss, setup, actions, i);
    assert c in ss[i].phase ==> PhaseFits(ss[i], setup, c);
  }

  /** How often the channel of an entry is closed. */
  function Closes(ss: seq<State>, setup: Setup, actions: seq<Action>, i: nat, e: Call): nat
    requires i <= |actions| <= |ss|
  {
    if i == 0 then 0
    else
      Closes(ss, setup, actions, i - 1, e)
      + if actions[i - 1].Publish? && setup.client(actions[i - 1].c) in ss[i - 1].connections
           && ss[i - 1].connections[setup.client(actions[i - 1].c)] == e then 1 else 0
  }

  /** Every channel is closed at most once, by the call that made the entry. */
  lemma {:induction false} ClosedAtMostOnce(ss: seq<State>, setup: Setup, actions: seq<Action>, i: nat, e: Call)
    requires Run(ss, setup, actions) && i <= |actions|
    ensures Closes(ss, setup, actions, i, e) == if e in ss[i].available then 1 else 0
  {
    hide Enabled, Next;
    if i == 0 {
    } else {
      ClosedAtMostOnce(ss, setup, actions, i - 1, e);
      InvHolds(ss, setup, actions, i - 1);
      CloseStep(ss[i - 1], setup, actions[i - 1], e);
    }
  }

  lemma CloseStep(s: State, setup: Setup, a: Action, e: Call)
    requires Inv(s, setup) && Enabled(s, a)
    ensures e in Next(s, setup, a).available <==>
      e in s.available || (a.Publish? && setup.client(a.c) in s.connections && s.connections[setup.client(a.c)] == e)
    ensures a.Publish? && setup.client(a.c) in s.connections && s.connections[setup.client(a.c)] == e ==>
      e !in s.available && e == a.c
  {
    hide TableFits;
    assert a.c in s.phase ==> PhaseFits(s, setup, a.c);
  }

  /** A packet that is past the channel has the socket of a connection of its own client. */
  lemma PassedHasSocket(ss: seq<State>, setup: Setup, actions: seq<Action>, i: nat, c: Call)
    requires Run(ss, setup, actions) && i < |ss| && c in ss[i].phase && ss[i].phase[c].Passed?
    ensures var e := ss[i].phase[c].e; e in ss[i].udp && setup.client(e) == setup.client(c)
  {
    hide Enabled, Next;
    InvHolds(ss, setup, actions, i);
    assert PhaseFits(ss[i], setup, c);
  }

  /**
   In a process that has not crashed, a waiting packet can go on exactly when the opener has published its socket.
  */
  lemma WaitersDependOnTheDial(ss: seq<State>, setup: Setup, actions: seq<Action>, i: nat, c: Call)
    requires Run(ss, setup, actions) && i < |ss| && c in ss[i].phase && ss[i].phase[c].Waiting?
    ensures var e := ss[i].phase[c].e;
      e in ss[i].phase && (Enabled(ss[i], Pass(c)) <==> !ss[i].crashed && HasPublished(ss[i].phase[e]))
  {
    hide Next, TableFits;
    InvHolds(ss, setup, actions, i);
    assert PhaseFits(ss[i], setup, c);
    assert PhaseFits(ss[i], setup, ss[i].phase[c].e);
  }

  predicate HasFailed(s: State, e: Call) { In(s, e, DialFailed) || In(s, e, Done(GaveUp)) }

  lemma StuckStep(s: State, setup: Setup, a: Action, c: Call, e: Call)
    requires Inv(s, setup) && Enabled(s, a) && In(s, c, Waiting(e)) && HasFailed(s, e)
    ensures In(Next(s, setup, a), c, Waiting(e)) && HasFailed(Next(s, setup, a), e)
  {
    hide TableFits;
    assert PhaseFits(s, setup, e);
  }

  /** A packet that waits for an opener whose dial has failed waits for the rest of the run. */
  lemma {:induction false} FailedDialStrandsWaiters(ss: seq<State>, setup: Setup, actions: seq<Action>, i: nat, j: nat,
      c: Call, e: Call)
    requires Run(ss, setup, actions) && i <= j < |ss| && In(ss[i], c, Waiting(e)) && HasFailed(ss[i], e)
    ensures In(ss[j], c, Waiting(e)) && HasFailed(ss[j], e)
    decreases j
  {
    hide Enabled, Next, HasFailed, Inv;
    if i == j {
    } else {
      FailedDialStrandsWaiters(ss, setup, actions, i, j - 1, c, e);
      InvHolds(ss, setup, actions, j - 1);
      StuckStep(ss[j - 1], setup, actions[j - 1], c, e);
    }
  }

  // ----- Which waiters can be released

  /** The state after the actions, if each is enabled in turn. */
  function After(s: State, setup: Setup, actions: seq<Action>): Option<State>
    decreases |actions|
  {
    if actions == [] then Some(s)
    else if Enabled(s, actions[0]) then After(Next(s, setup, actions[0]), setup, actions[1..])
    else None
  }

  /** The actions bring the packet c past the channel of entry e. */
  predicate Releases(s: State, setup: Setup, actions: seq<Action>, c: Call, e: Call) {
    var t := After(s, setup, actions);
    t.Some? && In(t.value, c, Passed(e))
  }

  lemma {:induction false} FailedNeverReleases(s: State, setup: Setup, actions: seq<Action>, c: Call, e: Call)
    requires Inv(s, setup) && In(s, c, Waiting(e)) && HasFailed(s, e)
    ensures !Releases(s, setup, actions, c, e)
    decreases |actions|
  {
    hide Inv, Next, Enabled, HasFailed;
    if actions == [] || !Enabled(s, actions[0]) {
    } else {
      InvStep(s, setup, actions[0]);
      StuckStep(s, setup, actions[0], c, e);
      FailedNeverReleases(Next(s, setup, actions[0]), setup, actions[1..], c, e);
    }
  }

  lemma CrashedNeverReleases(s: State, setup: Setup, actions: seq<Action>, c: Call, e: Call)
    requires s.crashed && In(s, c, Waiting(e))
    ensures !Releases(s, setup, actions, c, e)
  {
  }

  /** An opener that has not failed publishes its socket when its dial succeeds. */
  lemma Release(s: State, setup: Setup, c: Call, e: Call) returns (actions: seq<Action>)
    requires Inv(s, setup) && In(s, c, Waiting(e)) && !HasFailed(s, e) && !s.crashed
    requires In(s, e, Opening) ==> setup.ipv4
    ensures Releases(s, setup, actions, c, e)
  {
    hide TableFits;
    assert PhaseFits(s, setup, c) && PhaseFits(s, setup, e);
    if In(s, e, Opening) {
      var t := Next(s, setup, CheckAddress(e));
      InvStep(s, setup, CheckAddress(e));
      var rest := ReleaseDialling(t, setup, c, e);
      actions := [CheckAddress(e)] + rest;
      assert actions[1..] == rest;
    } else if In(s, e, Dialling) {
      actions := ReleaseDialling(s, setup, c, e);
    } else if In(s, e, Connected) {
      actions := ReleaseConnected(s, setup, c, e);
    } else {
      assert HasPublished(s.phase[e]);
      actions := [Pass(c)];
      assert actions[1..] == [];
      assert After(Next(s, setup, Pass(c)), setup, []) == Some(Next(s, setup, Pass(c)));
    }
  }

  lemma ReleaseDialling(s: State, setup: Setup, c: Call, e: Call) returns (actions: seq<Action>)
    requires Inv(s, setup) && In(s, c, Waiting(e)) && In(s, e, Dialling) && !s.crashed
    ensures Releases(s, setup, actions, c, e)
  {
    hide Inv;
    InvStep(s, setup, Dial(e));
    var rest := ReleaseConnected(Next(s, setup, Dial(e)), setup, c, e);
    actions := [Dial(e)] + rest;
    assert actions[1..] == rest;
  }

  lemma ReleaseConnected(s: State, setup: Setup, c: Call, e: Call) returns (actions: seq<Action>)
    requires Inv(s, setup) && In(s, c, Waiting(e)) && In(s, e, Connected) && !s.crashed
    ensures Releases(s, setup, actions, c, e)
  {
    hide TableFits;
    assert PhaseFits(s, setup, e);
    var t := Next(s, setup, Publish(e));
    actions := [Publish(e), Pass(c)];
    assert actions[1..] == [Pass(c)] && actions[1..][1..] == [];
    assert Enabled(t, Pass(c));
    assert After(t, setup, [Pass(c)]) == Some(Next(t, setup, Pass(c)));
  }

  /**
   In every reached state, a packet that waits can still be released by some continuation of the run exactly when
   its opener has not failed to dial, nor is bound to panic, and the process has not crashed.
  */
  lemma ReleasableExactlyUnlessFailed(ss: seq<State>, setup: Setup, actions: seq<Action>, i: nat, c: Call, e: Call)
    requires Run(ss, setup, actions) && i < |ss| && In(ss[i], c, Waiting(e))
    ensures (exists more :: Releases(ss[i], setup, more, c, e))
      <==> !HasFailed(ss[i], e) && !ss[i].crashed && (In(ss[i], e, Opening) ==> setup.ipv4)
  {
    hide Inv, Releases, HasFailed, Enabled, Next;
    var s := ss[i];
    InvHolds(ss, setup, actions, i);
    if !HasFailed(s, e) && !s.crashed && (In(s, e, Opening) ==> setup.ipv4) {
      var more := Release(s, setup, c, e);
    } else {
      forall more ensures !Releases(s, setup, more, c, e) {
        if HasFailed(s, e) {
          FailedNeverReleases(s, setup, more, c, e);
        } else if s.crashed {
          CrashedNeverReleases(s, setup, more, c, e);
        } else {
          DoomedNeverReleases(s, setup, more, c, e);
        }
      }
    }
  }

  /** The opener cannot leave the check of the address but by a panic. */
  lemma {:induction false} DoomedNeverReleases(s: State, setup: Setup, actions: seq<Action>, c: Call, e: Call)
    requires Inv(s, setup) && In(s, c, Waiting(e)) && In(s, e, Opening) && !setup.ipv4
    ensures !Releases(s, setup, actions, c, e)
    decreases |actions|
  {
    hide Inv, Next, Enabled;
    if actions == [] || !Enabled(s, actions[0]) {
    } else {
      var t := Next(s, setup, actions[0]);
      InvStep(s, setup, actions[0]);
      DoomedStep(s, setup, actions[0], c, e);
      if t.crashed {
        CrashedNeverReleases(t, setup, actions[1..], c, e);
      } else {
        DoomedNeverReleases(t, setup, actions[1..], c, e);
      }
    }
  }

  lemma DoomedStep(s: State, setup: Setup, a: Action, c: Call, e: Call)
    requires Inv(s, setup) && Enabled(s, a) && In(s, c, Waiting(e)) && In(s, e, Opening) && !setup.ipv4
    ensures var t := Next(s, setup, a); In(t, c, Waiting(e)) && (t.crashed || In(t, e, Opening))
  {
    hide TableFits;
    assert PhaseFits(s, setup, e);
  }

  /** A run in which a packet is stranded: it arrives while the opener dials, and the dial fails. */
  lemma StrandingIsReached(setup: Setup, e: Call, c: Call) returns (ss: seq<State>)
    requires c != e && setup.client(c) == setup.client(e) && setup.ipv4
    ensures Run(ss, setup, [Enter(e), CheckAddress(e), Enter(c), FailDial(e)])
    ensures In(ss[4], c, Waiting(e)) && HasFailed(ss[4], e)
  {
    var s1 := Next(START, setup, Enter(e));
    var s2 := Next(s1, setup, CheckAddress(e));
    var s3 := Next(s2, setup, Enter(c));
    ss := [START, s1, s2, s3, Next(s3, setup, FailDial(e))];
  }
}
