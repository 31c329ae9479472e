/** What the states of the flow table say about the steps that have led to them. */
module FlowHistory {
  import opened FlowTable

  // ----- Entries

  /** The step stores or deletes the entry of k. */
  predicate Touches(flows: Flows, a: Action, k: string) {
    (a.Install? && flows(a.c).key == k) || (a.Remove? && flows(a.c).identify == k)
  }

  /** The connection x was stored under k by step j, and no step before the i-th has touched k since. */
  predicate StoredBy(flows: Flows, actions: seq<Action>, i: nat, j: nat, k: string, x: Call)
    requires i <= |actions|
  {
    && j < i && actions[j] == Install(x) && flows(x).key == k
    && forall m | j < m < i :: !Touches(flows, actions[m], k)
  }

  lemma EntryStep(s: State, flows: Flows, a: Action, k: string)
    requires Enabled(s, a)
    ensures var t := Next(s, flows, a);
      && (!Touches(flows, a, k) ==>
            && (k in t.connections <==> k in s.connections)
            && (k in s.connections ==> t.connections[k] == s.connections[k]))
      && (a.Install? && flows(a.c).key == k ==> k in t.connections && t.connections[k] == a.c)
      && (a.Remove? && flows(a.c).identify == k ==> k !in t.connections)
  {
  }

  /** The table has the connection that was stored last, if nothing has deleted it since. */
  lemma {:induction false} EntriesExactly(ss: seq<State>, flows: Flows, actions: seq<Action>, i: nat, k: string,
      x: Call)
    requires Run(ss, flows, actions) && i < |ss|
    ensures k in ss[i].connections && ss[i].connections[k] == x
      <==> exists j: nat :: StoredBy(flows, actions, i, j, k, x)
  {
    hide Enabled, Next, Touches;
    if i == 0 {
    } else {
      var h, a := i - 1, actions[i - 1];
      EntriesExactly(ss, flows, actions, h, k, x);
      EntryStep(ss[h], flows, a, k);
      TouchedBy(flows, a, k);
      forall j: nat | StoredBy(flows, actions, h, j, k, x) && !Touches(flows, a, k)
        ensures StoredBy(flows, actions, i, j, k, x)
      {
      }
      if a == Install(x) && flows(x).key == k {
        assert StoredBy(flows, actions, i, h, k, x);
      }
      forall j: nat | StoredBy(flows, actions, i, j, k, x) && j != h ensures StoredBy(flows, actions, h, j, k, x) {
      }
    }
  }

  lemma TouchedBy(flows: Flows, a: Action, k: string)
    ensures Touches(flows, a, k) <==> (a.Install? && flows(a.c).key == k) || (a.Remove? && flows(a.c).identify == k)
  {
  }

  // ----- Sockets

  lemma SocketStep(s: State, flows: Flows, a: Action, x: Call)
    requires Enabled(s, a)
    ensures x in Next(s, flows, a).open <==> a == Dial(x) || (x in s.open && a != CloseSocket(x))
    ensures x in s.reader ==> x in Next(s, flows, a).reader
    ensures a == CloseSocket(x) ==> x in s.reader
  {
  }

  lemma DialsFirst(s: State, flows: Flows, x: Call)
    requires Inv(s, flows) && Enabled(s, Dial(x))
    ensures x !in s.reader
  {
    hide LockFits, WritersFit, EntriesFit;
    assert CallFits(s, flows, x);
  }

  lemma {:induction false} ClosedHasReader(ss: seq<State>, flows: Flows, actions: seq<Action>, i: nat, x: Call)
    requires Run(ss, flows, actions) && i < |ss| && CloseSocket(x) in actions[..i]
    ensures x in ss[i].reader
  {
    hide Enabled, Next;
    assert actions[..i] == actions[..i - 1] + [actions[i - 1]];
    SocketStep(ss[i - 1], flows, actions[i - 1], x);
    if CloseSocket(x) in actions[..i - 1] {
      ClosedHasReader(ss, flows, actions, i - 1, x);
    }
  }

  /** A socket is open from the dial that made it until its reader closes it. */
  lemma {:induction false} OpenExactly(ss: seq<State>, flows: Flows, actions: seq<Action>, i: nat, x: Call)
    requires Run(ss, flows, actions) && i < |ss|
    ensures x in ss[i].open <==> Dial(x) in actions[..i] && CloseSocket(x) !in actions[..i]
  {
    hide Enabled, Next, Inv;
    if i == 0 {
    } else {
      assert actions[..i] == actions[..i - 1] + [actions[i - 1]];
      OpenExactly(ss, flows, actions, i - 1, x);
      SocketStep(ss[i - 1], flows, actions[i - 1], x);
      if actions[i - 1] == Dial(x) {
        InvHolds(ss, flows, actions, i - 1);
        DialsFirst(ss[i - 1], flows, x);
        if CloseSocket(x) in actions[..i - 1] {
          ClosedHasReader(ss, flows, actions, i - 1, x);
        }
      }
    }
  }

  // ----- Payloads

  /** The connection call c writes to: its own once it has installed it, or the one its first lookup has found. */
  ghost predicate Target(ss: seq<State>, flows: Flows, actions: seq<Action>, i: nat, c: Call, x: Call)
    requires i <= |actions| <= |ss|
  {
    (x == c && Install(c) in actions[..i]) || exists j: nat | j < i :: Finds(ss[j], flows, actions[j], c, x)
  }

  /** The first lookup of c finds x. */
  predicate Finds(s: State, flows: Flows, a: Action, c: Call, x: Call) {
    a == LookUp(c) && flows(c).key in s.connections && s.connections[flows(c).key] == x
  }

  /** c is on its way to write to x. */
  predicate Heads(s: State, c: Call, x: Call) {
    && c in s.phase
    && (s.phase[c] == Found(x) || (s.phase[c].Writing? && s.phase[c].x == x) || (s.phase[c].Installed? && x == c))
  }

  lemma HeadsStep(s: State, flows: Flows, a: Action, c: Call, x: Call)
    requires Enabled(s, a) && Heads(Next(s, flows, a), c, x)
    ensures Heads(s, c, x) || (a == Install(c) && x == c) || Finds(s, flows, a, c, x)
  {
  }

  lemma {:induction false} HeadsForTarget(ss: seq<State>, flows: Flows, actions: seq<Action>, i: nat, c: Call, x: Call)
    requires Run(ss, flows, actions) && i < |ss| && Heads(ss[i], c, x)
    ensures Target(ss, flows, actions, i, c, x)
  {
    hide Enabled, Next, Heads, Finds;
    NowhereYet(c, x);
    assert actions[..i] == actions[..i - 1] + [actions[i - 1]];
    HeadsStep(ss[i - 1], flows, actions[i - 1], c, x);
    if Heads(ss[i - 1], c, x) {
      HeadsForTarget(ss, flows, actions, i - 1, c, x);
    }
  }

  lemma NowhereYet(c: Call, x: Call)
    ensures !Heads(START, c, x)
  {
  }

  /** Step j writes the payload of c to x. */
  ghost predicate Delivers(ss: seq<State>, flows: Flows, actions: seq<Action>, j: nat, c: Call, x: Call)
    requires j < |actions| <= |ss|
  {
    actions[j] == Write(c) && Heads(ss[j], c, x) && Target(ss, flows, actions, j, c, x)
  }

  lemma SentStep(s: State, flows: Flows, a: Action, c: Call, x: Call)
    requires Enabled(s, a)
    ensures In(Next(s, flows, a), c, Finished(Sent(x)))
      <==> In(s, c, Finished(Sent(x))) || (a == Write(c) && Heads(s, c, x) && x in s.open)
  {
  }

  lemma LostStep(s: State, flows: Flows, a: Action, c: Call, x: Call)
    requires Enabled(s, a)
    ensures In(Next(s, flows, a), c, Finished(Lost(x)))
      <==> In(s, c, Finished(Lost(x))) || (a == Write(c) && Heads(s, c, x) && x !in s.open)
  {
  }

  lemma FailedStep(s: State, flows: Flows, a: Action, c: Call)
    requires Enabled(s, a)
    ensures In(Next(s, flows, a), c, Finished(DialFailed)) <==> In(s, c, Finished(DialFailed)) || a == FailDial(c)
  {
  }

  lemma DeliversHere(ss: seq<State>, flows: Flows, actions: seq<Action>, j: nat, c: Call, x: Call)
    requires Run(ss, flows, actions) && j < |actions|
    ensures Delivers(ss, flows, actions, j, c, x) <==> actions[j] == Write(c) && Heads(ss[j], c, x)
  {
    hide Enabled, Next, Heads, Target;
    if actions[j] == Write(c) && Heads(ss[j], c, x) {
      HeadsForTarget(ss, flows, actions, j, c, x);
    }
  }

  /** A payload was sent exactly by a write to the target of its call at a time when the target's socket was open. */
  lemma {:induction false} SentExactly(ss: seq<State>, flows: Flows, actions: seq<Action>, i: nat, c: Call, x: Call)
    requires Run(ss, flows, actions) && i < |ss|
    ensures In(ss[i], c, Finished(Sent(x)))
      <==> exists j: nat | j < i :: Delivers(ss, flows, actions, j, c, x) && x in ss[j].open
  {
    hide Enabled, Next, Heads, Target, Delivers;
    if i == 0 {
    } else {
      SentExactly(ss, flows, actions, i - 1, c, x);
      SentStep(ss[i - 1], flows, actions[i - 1], c, x);
      DeliversHere(ss, flows, actions, i - 1, c, x);
    }
  }

  /** It was lost exactly by such a write at a time when the socket was closed. */
  lemma {:induction false} LostExactly(ss: seq<State>, flows: Flows, actions: seq<Action>, i: nat, c: Call, x: Call)
    requires Run(ss, flows, actions) && i < |ss|
    ensures In(ss[i], c, Finished(Lost(x)))
      <==> exists j: nat | j < i :: Delivers(ss, flows, actions, j, c, x) && x !in ss[j].open
  {
    hide Enabled, Next, Heads, Target, Delivers;
    if i == 0 {
    } else {
      LostExactly(ss, flows, actions, i - 1, c, x);
      LostStep(ss[i - 1], flows, actions[i - 1], c, x);
      DeliversHere(ss, flows, actions, i - 1, c, x);
    }
  }

  /** A call ends without a connection exactly when its dial has failed. */
  lemma {:induction false} FailedExactly(ss: seq<State>, flows: Flows, actions: seq<Action>, i: nat, c: Call)
    requires Run(ss, flows, actions) && i < |ss|
    ensures In(ss[i], c, Finished(DialFailed)) <==> FailDial(c) in actions[..i]
  {
    hide Enabled, Next;
    if i == 0 {
    } else {
      assert actions[..i] == actions[..i - 1] + [actions[i - 1]];
      FailedExactly(ss, flows, actions, i - 1, c);
      FailedStep(ss[i - 1], flows, actions[i - 1], c);
    }
  }
}
