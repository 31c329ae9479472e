/** What the states of the forwarder say about the steps that have led to them. */
module ForwarderHistory {
  import opened Forwarder

  // ----- Entries

  /** The step deletes the entry of the client k. */
  predicate Deletes(setup: Setup, a: Action, k: string) {
    (a.GiveUp? || a.FailRead?) && setup.client(a.c) == k
  }

  /** Step j is a packet of client k that finds no entry and makes one. */
  predicate MakesEntry(s: State, setup: Setup, a: Action, k: string, e: Call) {
    a == Enter(e) && setup.client(e) == k && k !in s.connections
  }

  /** No step from j on, before the i-th, deletes the entry of k. */
  predicate KeptSince(setup: Setup, actions: seq<Action>, j: nat, i: nat, k: string)
    requires i <= |actions|
  {
    forall m | j < m < i :: !Deletes(setup, actions[m], k)
  }

  lemma EntryStep(s: State, setup: Setup, a: Action, k: string, e: Call)
    requires Enabled(s, a)
    ensures var t := Next(s, setup, a);
      k in t.connections && t.connections[k] == e <==>
        MakesEntry(s, setup, a, k, e) || (k in s.connections && s.connections[k] == e && !Deletes(setup, a, k))
  {
  }

  /**
   The entry of a client is the one made by its last packet that found none, until the dial of that packet or a read
   fails: the next packet then opens again.
  */
  lemma {:induction false} EntriesExactly(ss: seq<State>, setup: Setup, actions: seq<Action>, i: nat, k: string,
      e: Call)
    requires Run(ss, setup, actions) && i < |ss|
    ensures k in ss[i].connections && ss[i].connections[k] == e
      <==> exists j: nat | j < i :: MakesEntry(ss[j], setup, actions[j], k, e) && KeptSince(setup, actions, j, i, k)
  {
    hide Enabled, Next, Deletes, MakesEntry;
    if i == 0 {
    } else {
      var h, a := i - 1, actions[i - 1];
      EntriesExactly(ss, setup, actions, h, k, e);
      EntryStep(ss[h], setup, a, k, e);
      forall j: nat | j < h ensures KeptSince(setup, actions, j, i, k) <==>
        KeptSince(setup, actions, j, h, k) && !Deletes(setup, a, k)
      {
      }
      if MakesEntry(ss[h], setup, a, k, e) {
        assert KeptSince(setup, actions, h, i, k);
      }
    }
  }

  // ----- Channels

  lemma ChannelStep(s: State, setup: Setup, a: Action, e: Call)
    requires Inv(s, setup) && Enabled(s, a)
    ensures e in Next(s, setup, a).available <==> e in s.available || a == Publish(e)
    ensures e in Next(s, setup, a).udp <==> e in s.udp || a == Publish(e)
  {
    hide TableFits;
    assert a.c in s.phase ==> PhaseFits(s, setup, a.c);
  }

  /** An entry has its socket, and its channel is closed, exactly when the packet that made it has published. */
  lemma {:induction false} PublishedExactly(ss: seq<State>, setup: Setup, actions: seq<Action>, i: nat, e: Call)
    requires Run(ss, setup, actions) && i < |ss|
    ensures e in ss[i].available <==> Publish(e) in actions[..i]
    ensures e in ss[i].udp <==> Publish(e) in actions[..i]
  {
    hide Enabled, Next, Inv;
    if i == 0 {
    } else {
      assert actions[..i] == actions[..i - 1] + [actions[i - 1]];
      PublishedExactly(ss, setup, actions, i - 1, e);
      InvHolds(ss, setup, actions, i - 1);
      ChannelStep(ss[i - 1], setup, actions[i - 1], e);
    }
  }

  // ----- Packets

  /** The packet c finds the entry e of its client. */
  predicate Finds(s: State, setup: Setup, a: Action, c: Call, e: Call) {
    a == Enter(c) && setup.client(c) in s.connections && s.connections[setup.client(c)] == e
  }

  /** c has found e, and has not been sent. */
  predicate Follows(s: State, c: Call, e: Call) { In(s, c, Waiting(e)) || In(s, c, Passed(e)) }

  lemma PacketStep(s: State, setup: Setup, a: Action, c: Call, e: Call)
    requires Enabled(s, a)
    ensures var t := Next(s, setup, a);
      && (Follows(t, c, e) <==> Finds(s, setup, a, c, e) || (Follows(s, c, e) && a != Send(c)))
      && (In(t, c, Done(Sent(e))) <==> In(s, c, Done(Sent(e))) || (Follows(s, c, e) && a == Send(c) && e in s.udp))
  {
  }

  lemma DoneStep(s: State, setup: Setup, a: Action, c: Call)
    requires Enabled(s, a)
    ensures a == Send(c) || (c in s.phase && s.phase[c].Done?) ==>
      c in Next(s, setup, a).phase && Next(s, setup, a).phase[c].Done?
  {
  }

  lemma SentOverItsSocket(s: State, setup: Setup, c: Call, e: Call)
    requires Inv(s, setup) && Enabled(s, Send(c)) && Follows(s, c, e)
    ensures e in s.udp
  {
    assert PhaseFits(s, setup, c);
  }

  /** A packet that has been sent is done with. */
  lemma {:induction false} SentIsDone(ss: seq<State>, setup: Setup, actions: seq<Action>, i: nat, c: Call)
    requires Run(ss, setup, actions) && i < |ss| && Send(c) in actions[..i]
    ensures c in ss[i].phase && ss[i].phase[c].Done?
  {
    hide Enabled, Next;
    assert actions[..i] == actions[..i - 1] + [actions[i - 1]];
    DoneStep(ss[i - 1], setup, actions[i - 1], c);
    if Send(c) in actions[..i - 1] {
      SentIsDone(ss, setup, actions, i - 1, c);
    }
  }

  /**
   A packet that finds an entry goes to the socket of that entry when it is sent, and to no other; until then it waits
   or has passed the channel.
  */
  lemma {:induction false} PacketsExactly(ss: seq<State>, setup: Setup, actions: seq<Action>, i: nat, c: Call, e: Call)
    requires Run(ss, setup, actions) && i < |ss|
    ensures In(ss[i], c, Done(Sent(e))) <==>
      Send(c) in actions[..i] && exists j: nat | j < i :: Finds(ss[j], setup, actions[j], c, e)
    ensures Follows(ss[i], c, e) <==>
      Send(c) !in actions[..i] && exists j: nat | j < i :: Finds(ss[j], setup, actions[j], c, e)
  {
    hide Enabled, Next, Inv, Follows, Finds;
    if i == 0 {
      NothingFollows(c, e);
    } else {
      var h := i - 1;
      assert actions[..i] == actions[..h] + [actions[h]];
      PacketsExactly(ss, setup, actions, h, c, e);
      InvHolds(ss, setup, actions, h);
      PacketStep(ss[h], setup, actions[h], c, e);
      if actions[h] == Send(c) && Follows(ss[h], c, e) {
        SentOverItsSocket(ss[h], setup, c, e);
      }
      if Finds(ss[h], setup, actions[h], c, e) {
        FindsFirst(ss[h], setup, actions[h], c, e);
        if Send(c) in actions[..h] {
          SentIsDone(ss, setup, actions, h, c);
        }
      }
    }
  }

  lemma OpenerStep(s: State, setup: Setup, a: Action, c: Call)
    requires Enabled(s, a)
    ensures var t := Next(s, setup, a);
      && (In(t, c, Done(GaveUp)) <==> In(s, c, Done(GaveUp)) || a == GiveUp(c))
      && (In(t, c, Done(Closed)) <==> In(s, c, Done(Closed)) || a == FailRead(c))
      && (In(t, c, Reading) <==> a == SendFirst(c) || (In(s, c, Reading) && a != FailRead(c)))
    ensures a == FailRead(c) ==> In(s, c, Reading)
  {
  }

  /** How the packet that opens a connection fares: it gives up, or is sent first and reads until a read fails. */
  lemma {:induction false} OpenersExactly(ss: seq<State>, setup: Setup, actions: seq<Action>, i: nat, c: Call)
    requires Run(ss, setup, actions) && i < |ss|
    ensures In(ss[i], c, Done(GaveUp)) <==> GiveUp(c) in actions[..i]
    ensures In(ss[i], c, Done(Closed)) <==> FailRead(c) in actions[..i]
    ensures In(ss[i], c, Reading) || In(ss[i], c, Done(Closed)) <==> SendFirst(c) in actions[..i]
  {
    hide Enabled, Next;
    if i == 0 {
    } else {
      assert actions[..i] == actions[..i - 1] + [actions[i - 1]];
      OpenersExactly(ss, setup, actions, i - 1, c);
      OpenerStep(ss[i - 1], setup, actions[i - 1], c);
    }
  }

  lemma FindsFirst(s: State, setup: Setup, a: Action, c: Call, e: Call)
    requires Enabled(s, a) && Finds(s, setup, a, c, e)
    ensures c !in s.phase && a == Enter(c)
  {
  }

  lemma NothingFollows(c: Call, e: Call)
    ensures !Follows(START, c, e) && !In(START, c, Done(Sent(e)))
  {
  }
}
