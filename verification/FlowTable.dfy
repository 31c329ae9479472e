/**
 The UDP flow table: attachConnect looks a flow up without the lock, again with it, and dials at most once;
 run reads until its socket fails, closes it and deletes an entry. A machine whose steps are the points at
 which calls and readers can interleave.
*/
module FlowTable {
  import opened Wrappers

  /** A call of attachConnect. Each brings its own payload and connection object, so it also names these. */
  type Call = nat

  /** The identify argument, under which the table is searched, and the identify field of the connection. */
  datatype Flow = Flow(key: string, identify: string)

  type Flows = Call -> Flow

  datatype Result =
    | Sent(x: Call)     // written to the open socket of connection x
    | Lost(x: Call)     // written to the socket of connection x after it was closed
    | Dropped           // the second lookup found an entry: nothing is written
    | DialFailed

  datatype Phase =
    | Looking
    | Found(x: Call)                // the first lookup hit
    | Missed
    | Locked                        // holds the lock, before the second lookup
    | Dialling
    | Dialled
    | Spawned                       // the reader has been started
    | Installed                     // the entry has been stored
    | Writing(x: Call, own: bool)   // holds the write lock of x, and the lock if x is its own
    | Finished(result: Result)

  /** The reader of a connection: absent until started. */
  datatype Reader = Reading | Closed | Gone

  datatype State = State(phase: map<Call, Phase>, lock: Option<Call>, writers: map<Call, Call>,
    connections: map<string, Call>, open: set<Call>, reader: map<Call, Reader>)

  const START := State(map[], None, map[], map[], {}, map[])

  datatype Action =
    | Begin(c: Call)
    | LookUp(c: Call)
    | TakeLock(c: Call)
    | LookAgain(c: Call)
    | Dial(c: Call)
    | FailDial(c: Call)
    | StartReader(c: Call)
    | Install(c: Call)
    | TakeWriteLock(c: Call)
    | TakeOwnWriteLock(c: Call)
    | Write(c: Call)
    | CloseSocket(c: Call)
    | Remove(c: Call)

  predicate In(s: State, c: Call, p: Phase) { c in s.phase && s.phase[c] == p }

  predicate Enabled(s: State, a: Action) {
    match a
    case Begin(c) => c !in s.phase
    case LookUp(c) => In(s, c, Looking)
    case TakeLock(c) => In(s, c, Missed) && s.lock == None
    case LookAgain(c) => In(s, c, Locked)
    case Dial(c) => In(s, c, Dialling)
    case FailDial(c) => In(s, c, Dialling)
    case StartReader(c) => In(s, c, Dialled)
    case Install(c) => In(s, c, Spawned)
    case TakeWriteLock(c) => c in s.phase && s.phase[c].Found? && s.phase[c].x !in s.writers
    case TakeOwnWriteLock(c) => In(s, c, Installed) && c !in s.writers
    case Write(c) => c in s.phase && s.phase[c].Writing?
    case CloseSocket(c) => c in s.reader && s.reader[c].Reading?
    case Remove(c) => c in s.reader && s.reader[c].Closed?
  }

  function To(s: State, c: Call, p: Phase): State { s.(phase := s.phase[c := p]) }

  function Next(s: State, flows: Flows, a: Action): State
    requires Enabled(s, a)
  {
    match a
    case Begin(c) => To(s, c, Looking)
    case LookUp(c) =>
      var key := flows(c).key;
      To(s, c, if key in s.connections then Found(s.connections[key]) else Missed)
    case TakeLock(c) => To(s, c, Locked).(lock := Some(c))
    case LookAgain(c) =>
      if flows(c).key in s.connections then To(s, c, Finished(Dropped)).(lock := None) else To(s, c, Dialling)
    case Dial(c) => To(s, c, Dialled).(open := s.open + {c})
    case FailDial(c) => To(s, c, Finished(DialFailed)).(lock := None)
    case StartReader(c) => To(s, c, Spawned).(reader := s.reader[c := Reading])
    case Install(c) => To(s, c, Installed).(connections := s.connections[flows(c).key := c])
    case TakeWriteLock(c) => To(s, c, Writing(s.phase[c].x, false)).(writers := s.writers[s.phase[c].x := c])
    case TakeOwnWriteLock(c) => To(s, c, Writing(c, true)).(writers := s.writers[c := c])
    case Write(c) =>
      var x := s.phase[c].x;
      To(s, c, Finished(if x in s.open then Sent(x) else Lost(x)))
        .(lock := if s.phase[c].own then None else s.lock, writers := s.writers - {x})
    case CloseSocket(c) => s.(open := s.open - {c}, reader := s.reader[c := Closed])
    case Remove(c) => s.(connections := s.connections - {flows(c).identify}, reader := s.reader[c := Gone])
  }

  ghost predicate Run(ss: seq<State>, flows: Flows, actions: seq<Action>) {
    && |ss| == |actions| + 1 && ss[0] == START
    && forall i | 0 <= i < |actions| :: Enabled(ss[i], actions[i]) && ss[i + 1] == Next(ss[i], flows, actions[i])
  }

  /** c is the only call of its flow. */
  ghost predicate Sole(flows: Flows, c: Call) {
    forall d :: flows(d).key == flows(c).key ==> d == c
  }

  /** No connection's identify field is the key of another flow that has more than one call. */
  ghost predicate Harmless(flows: Flows) {
    forall c, d :: flows(d).key == flows(c).identify ==> flows(c).identify == flows(c).key || Sole(flows, d)
  }

  /** The two ways the field is meant to be filled: not at all, or with the key. */
  lemma EmptyOrKeyIsHarmless(flows: Flows)
    requires forall c :: flows(c).key != "" && (flows(c).identify == "" || flows(c).identify == flows(c).key)
    ensures Harmless(flows)
  {
  }

  // ----- The invariant

  predicate HoldsLock(p: Phase) {
    p.Locked? || p.Dialling? || p.Dialled? || p.Spawned? || p.Installed? || (p.Writing? && p.own)
  }

  predicate BeforeInstall(p: Phase) { p.Dialling? || p.Dialled? || p.Spawned? }

  /** The reader of c has been started and has not deleted yet. */
  predicate Alive(s: State, c: Call) { c in s.reader && !s.reader[c].Gone? }

  predicate IsEntry(s: State, flows: Flows, c: Call) {
    flows(c).key in s.connections && s.connections[flows(c).key] == c
  }

  /** x is a connection of the flow of c and its reader has been started. */
  predicate SameFlow(s: State, flows: Flows, x: Call, c: Call) {
    x in s.reader && flows(x).key == flows(c).key
  }

  predicate PhaseFits(s: State, flows: Flows, c: Call)
    requires c in s.phase
  {
    match s.phase[c]
    case Looking => c !in s.reader
    case Found(x) => c !in s.reader && SameFlow(s, flows, x, c)
    case Missed => c !in s.reader
    case Locked => c !in s.reader
    case Dialling => c !in s.reader && flows(c).key !in s.connections
    case Dialled => c !in s.reader && flows(c).key !in s.connections && c in s.open
    case Spawned => c in s.reader && flows(c).key !in s.connections
    case Installed => c in s.reader
    case Writing(x, own) => SameFlow(s, flows, x, c) && (own <==> x == c) && (!own ==> c !in s.reader)
    case Finished(r) => r.Sent? || r.Lost? ==> SameFlow(s, flows, r.x, c)
  }

  /** What holds for every call on its own. */
  predicate CallFits(s: State, flows: Flows, c: Call)
    requires c in s.phase
  {
    var p := s.phase[c];
    && PhaseFits(s, flows, c)
    && (HoldsLock(p) ==> s.lock == Some(c))
    && (p.Writing? ==> p.x in s.writers && s.writers[p.x] == c)
    && (c in s.open ==> p.Dialled? || (c in s.reader && s.reader[c].Reading?))
    && (c in s.reader && s.reader[c].Reading? ==> c in s.open)
  }

  predicate LockFits(s: State) {
    s.lock.Some? ==> s.lock.value in s.phase && HoldsLock(s.phase[s.lock.value])
  }

  predicate WritersFit(s: State) {
    forall x | x in s.writers ::
      s.writers[x] in s.phase && s.phase[s.writers[x]].Writing? && s.phase[s.writers[x]].x == x
  }

  /** Entries are connections of their own key with a socket and a reader. */
  predicate EntriesFit(s: State, flows: Flows) {
    forall k | k in s.connections :: s.connections[k] in s.reader && flows(s.connections[k]).key == k
  }

  predicate DomainsFit(s: State) {
    s.reader.Keys <= s.phase.Keys && s.open <= s.phase.Keys
  }

  /** What holds for all flows, whatever their identify fields are. */
  ghost predicate Inv(s: State, flows: Flows) {
    && LockFits(s) && WritersFit(s) && EntriesFit(s, flows) && DomainsFit(s)
    && forall c | c in s.phase :: CallFits(s, flows, c)
  }

  /** A live connection is being installed, is the entry of its key, or belongs to the only call of its flow. */
  ghost predicate IsListed(s: State, flows: Flows, c: Call) {
    (c in s.phase && BeforeInstall(s.phase[c])) || IsEntry(s, flows, c) || Sole(flows, c)
  }

  /** What holds besides when no connection can delete the entry of another flow. */
  ghost predicate Listed(s: State, flows: Flows) {
    forall c | Alive(s, c) :: IsListed(s, flows, c)
  }

  lemma OneAlive(s: State, flows: Flows, c: Call, d: Call)
    requires Inv(s, flows) && Listed(s, flows) && Alive(s, c) && Alive(s, d) && flows(c).key == flows(d).key
    ensures c == d
  {
    hide WritersFit, EntriesFit;
    assert IsListed(s, flows, c) && IsListed(s, flows, d);
    assert CallFits(s, flows, c) && CallFits(s, flows, d);
  }

  /** The facts about calls that a step of one call needs for itself and for another call d. */
  predicate StepFits(s: State, flows: Flows, a: Action, d: Call) {
    && LockFits(s) && EntriesFit(s, flows) && DomainsFit(s) && Enabled(s, a)
    && (a.c in s.phase ==> CallFits(s, flows, a.c))
    && (d in s.phase ==> CallFits(s, flows, d))
  }

  predicate StaysFit(s: State, flows: Flows, a: Action, d: Call)
    requires Enabled(s, a)
  {
    var t := Next(s, flows, a);
    d in t.phase ==> CallFits(t, flows, d)
  }

  lemma LookStep(s: State, flows: Flows, a: Action, d: Call)
    requires StepFits(s, flows, a, d) && (a.Begin? || a.LookUp?)
    ensures StaysFit(s, flows, a, d)
  {
  }

  lemma TakeLockStep(s: State, flows: Flows, a: Action, d: Call)
    requires StepFits(s, flows, a, d) && a.TakeLock?
    ensures StaysFit(s, flows, a, d)
  {
  }

  lemma LookAgainStep(s: State, flows: Flows, a: Action, d: Call)
    requires StepFits(s, flows, a, d) && a.LookAgain?
    ensures StaysFit(s, flows, a, d)
  {
  }

  lemma DialStep(s: State, flows: Flows, a: Action, d: Call)
    requires StepFits(s, flows, a, d) && (a.Dial? || a.FailDial?)
    ensures StaysFit(s, flows, a, d)
  {
  }

  lemma InstallStep(s: State, flows: Flows, a: Action, d: Call)
    requires StepFits(s, flows, a, d) && (a.StartReader? || a.Install?)
    ensures StaysFit(s, flows, a, d)
  {
  }

  lemma TakeWriteLockStep(s: State, flows: Flows, a: Action, d: Call)
    requires StepFits(s, flows, a, d) && a.TakeWriteLock?
    ensures StaysFit(s, flows, a, d)
  {
  }

  lemma TakeOwnWriteLockStep(s: State, flows: Flows, a: Action, d: Call)
    requires StepFits(s, flows, a, d) && a.TakeOwnWriteLock?
    ensures StaysFit(s, flows, a, d)
  {
  }

  lemma WriteStep(s: State, flows: Flows, a: Action, d: Call)
    requires StepFits(s, flows, a, d) && a.Write?
    ensures StaysFit(s, flows, a, d)
  {
  }

  lemma ReaderStep(s: State, flows: Flows, a: Action, d: Call)
    requires StepFits(s, flows, a, d) && (a.CloseSocket? || a.Remove?)
    ensures StaysFit(s, flows, a, d)
  {
  }

  lemma LockStep(s: State, flows: Flows, a: Action)
    requires LockFits(s) && Enabled(s, a) && (a.c in s.phase ==> CallFits(s, flows, a.c))
    ensures LockFits(Next(s, flows, a))
  {
    hide IsEntry, Alive, SameFlow;
  }

  lemma WritersStep(s: State, flows: Flows, a: Action)
    requires WritersFit(s) && Enabled(s, a) && (a.c in s.phase ==> CallFits(s, flows, a.c))
    ensures WritersFit(Next(s, flows, a))
  {
    hide IsEntry, Alive, SameFlow;
  }

  lemma EntriesStep(s: State, flows: Flows, a: Action)
    requires EntriesFit(s, flows) && Enabled(s, a) && (a.c in s.phase ==> CallFits(s, flows, a.c))
    ensures EntriesFit(Next(s, flows, a), flows)
  {
    hide IsEntry, Alive, SameFlow;
  }

  lemma DomainsStep(s: State, flows: Flows, a: Action)
    requires DomainsFit(s) && Enabled(s, a)
    ensures DomainsFit(Next(s, flows, a))
  {
  }

  lemma InvStep(s: State, flows: Flows, a: Action)
    requires Inv(s, flows) && Enabled(s, a)
    ensures Inv(Next(s, flows, a), flows)
  {
    hide Enabled, Next, CallFits, LockFits, WritersFit, EntriesFit, DomainsFit, StaysFit;
    LockStep(s, flows, a);
    WritersStep(s, flows, a);
    EntriesStep(s, flows, a);
    DomainsStep(s, flows, a);
    forall d | d in Next(s, flows, a).phase ensures CallFits(Next(s, flows, a), flows, d) {
      CallStep(s, flows, a, d);
      StayingFits(s, flows, a, d);
    }
  }

  lemma ListedStep(s: State, flows: Flows, a: Action)
    requires Inv(s, flows) && Listed(s, flows) && Harmless(flows) && Enabled(s, a)
    ensures Listed(Next(s, flows, a), flows)
  {
    hide Enabled, Next, Inv, IsListed, Alive, Harmless;
    forall d | Alive(Next(s, flows, a), d) ensures IsListed(Next(s, flows, a), flows, d) {
      if a.Remove? {
        RemoveKeepsListed(s, flows, a.c, d);
      } else {
        StepKeepsListed(s, flows, a, d);
      }
    }
  }

  lemma StepKeepsListed(s: State, flows: Flows, a: Action, d: Call)
    requires Inv(s, flows) && Enabled(s, a) && !a.Remove? && Alive(Next(s, flows, a), d)
    requires Alive(s, d) ==> IsListed(s, flows, d)
    ensures IsListed(Next(s, flows, a), flows, d)
  {
    hide WritersFit, EntriesFit, LockFits, Sole, CallFits, DomainsFit;
    assert a.c in s.phase ==> CallFits(s, flows, a.c);
    if a.StartReader? || a.Install? {
      DialledIsListed(s, flows, a, d);
    } else {
      StaysListed(s, flows, a, d);
    }
  }

  lemma DialledIsListed(s: State, flows: Flows, a: Action, d: Call)
    requires Enabled(s, a) && (a.StartReader? || a.Install?) && CallFits(s, flows, a.c)
    requires Alive(Next(s, flows, a), d) && (Alive(s, d) ==> IsListed(s, flows, d))
    ensures IsListed(Next(s, flows, a), flows, d)
  {
    hide Sole;
  }

  lemma StaysListed(s: State, flows: Flows, a: Action, d: Call)
    requires Enabled(s, a) && !a.StartReader? && !a.Install? && !a.Remove?
    requires a.c in s.phase ==> CallFits(s, flows, a.c)
    requires Alive(Next(s, flows, a), d) && (Alive(s, d) ==> IsListed(s, flows, d))
    ensures IsListed(Next(s, flows, a), flows, d)
  {
    hide Sole;
  }

  /** Deleting removes the entry of a live connection only when it is its own, or no other call can miss it. */
  lemma RemoveKeepsListed(s: State, flows: Flows, c: Call, d: Call)
    requires Inv(s, flows) && Listed(s, flows) && Harmless(flows) && Enabled(s, Remove(c))
    requires Alive(Next(s, flows, Remove(c)), d)
    ensures IsListed(Next(s, flows, Remove(c)), flows, d)
  {
    hide Inv, Sole;
    assert Alive(s, d) && Alive(s, c) && d != c && IsListed(s, flows, d);
    if flows(d).key == flows(c).identify && flows(c).identify == flows(c).key {
      OneAlive(s, flows, c, d);
    }
  }

  lemma StayingFits(s: State, flows: Flows, a: Action, d: Call)
    requires Enabled(s, a) && StaysFit(s, flows, a, d) && d in Next(s, flows, a).phase
    ensures CallFits(Next(s, flows, a), flows, d)
  {
    hide Enabled, Next, CallFits;
  }

  lemma CallStep(s: State, flows: Flows, a: Action, d: Call)
    requires StepFits(s, flows, a, d)
    ensures StaysFit(s, flows, a, d)
  {
    hide StepFits, StaysFit;
    match a {
      case Begin(_) => LookStep(s, flows, a, d);
      case LookUp(_) => LookStep(s, flows, a, d);
      case TakeLock(_) => TakeLockStep(s, flows, a, d);
      case LookAgain(_) => LookAgainStep(s, flows, a, d);
      case Dial(_) => DialStep(s, flows, a, d);
      case FailDial(_) => DialStep(s, flows, a, d);
      case StartReader(_) => InstallStep(s, flows, a, d);
      case Install(_) => InstallStep(s, flows, a, d);
      case TakeWriteLock(_) => TakeWriteLockStep(s, flows, a, d);
      case TakeOwnWriteLock(_) => TakeOwnWriteLockStep(s, flows, a, d);
      case Write(_) => WriteStep(s, flows, a, d);
      case CloseSocket(_) => ReaderStep(s, flows, a, d);
      case Remove(_) => ReaderStep(s, flows, a, d);
    }
  }

  lemma StartFits(flows: Flows)
    ensures Inv(START, flows) && Listed(START, flows)
  {
  }

  lemma {:induction false} InvHolds(ss: seq<State>, flows: Flows, actions: seq<Action>, i: nat)
    requires Run(ss, flows, actions) && i < |ss|
    ensures Inv(ss[i], flows)
  {
    hide Inv, Enabled, Next;
    if i == 0 {
      StartFits(flows);
    } else {
      InvHolds(ss, flows, actions, i - 1);
      InvStep(ss[i - 1], flows, actions[i - 1]);
    }
  }

  lemma {:induction false} ListedHolds(ss: seq<State>, flows: Flows, actions: seq<Action>, i: nat)
    requires Run(ss, flows, actions) && Harmless(flows) && i < |ss|
    ensures Listed(ss[i], flows)
  {
    hide Inv, Listed, Enabled, Next, Harmless;
    if i == 0 {
      StartFits(flows);
    } else {
      ListedHolds(ss, flows, actions, i - 1);
      InvHolds(ss, flows, actions, i - 1);
      ListedStep(ss[i - 1], flows, actions[i - 1]);
    }
  }

  // ----- What the table promises

  /** At most one open socket for each key. */
  ghost predicate OneSocketEach(s: State, flows: Flows) {
    forall c, d | c in s.open && d in s.open && flows(c).key == flows(d).key :: c == d
  }

  lemma InvGivesOneSocket(s: State, flows: Flows)
    requires Inv(s, flows) && Listed(s, flows)
    ensures OneSocketEach(s, flows)
  {
    hide LockFits, WritersFit, EntriesFit;
    forall c, d | c in s.open && d in s.open && flows(c).key == flows(d).key ensures c == d {
      assert CallFits(s, flows, c) && CallFits(s, flows, d);
      assert Alive(s, c) ==> IsListed(s, flows, c);
      assert Alive(s, d) ==> IsListed(s, flows, d);
    }
  }

  /** One open socket per flow, in every interleaving of calls and readers. */
  lemma OneSocketPerFlow(ss: seq<State>, flows: Flows, actions: seq<Action>, i: nat)
    requires Run(ss, flows, actions) && Harmless(flows) && i < |ss|
    ensures OneSocketEach(ss[i], flows)
  {
    hide Inv, Listed, OneSocketEach;
    InvHolds(ss, flows, actions, i);
    ListedHolds(ss, flows, actions, i);
    InvGivesOneSocket(ss[i], flows);
  }

  /** Every entry is a connection of its key that has dialled, so no call finds a connection without a socket. */
  lemma EntriesHaveSockets(ss: seq<State>, flows: Flows, actions: seq<Action>, i: nat, k: string)
    requires Run(ss, flows, actions) && i < |ss| && k in ss[i].connections
    ensures var x := ss[i].connections[k]; flows(x).key == k && x in ss[i].reader
  {
    hide CallFits, Enabled, Next;
    InvHolds(ss, flows, actions, i);
  }

  /** A payload is written to a connection of its own flow that has dialled, and no two writes to it overlap. */
  lemma WritesStayInTheirFlow(ss: seq<State>, flows: Flows, actions: seq<Action>, i: nat, c: Call, d: Call)
    requires Run(ss, flows, actions) && i < |ss|
    requires c in ss[i].phase && ss[i].phase[c].Writing? && d in ss[i].phase && ss[i].phase[d].Writing?
    ensures var x := ss[i].phase[c].x; x in ss[i].reader && flows(x).key == flows(c).key
    ensures ss[i].phase[c].x == ss[i].phase[d].x ==> c == d
  {
    hide Enabled, Next, LockFits, EntriesFit;
    InvHolds(ss, flows, actions, i);
    assert CallFits(ss[i], flows, c) && CallFits(ss[i], flows, d);
  }

  /** How often the payload of c is written. */
  function Writes(actions: seq<Action>, c: Call): nat {
    if actions == [] then 0
    else Writes(actions[..|actions| - 1], c) + if actions[|actions| - 1] == Write(c) then 1 else 0
  }

  predicate HasWritten(s: State, c: Call) {
    c in s.phase && s.phase[c].Finished? && (s.phase[c].result.Sent? || s.phase[c].result.Lost?)
  }

  lemma WritesStep(s: State, flows: Flows, a: Action, c: Call)
    requires Enabled(s, a)
    ensures HasWritten(Next(s, flows, a), c) <==> HasWritten(s, c) || a == Write(c)
    ensures a == Write(c) ==> !HasWritten(s, c)
  {
  }

  /**
   Every payload is written at most once: once by a call that ends by writing, never by one that is still
   under way, whose dial failed, or whose second lookup found an entry.
  */
  lemma {:induction false} PayloadWrittenOnce(ss: seq<State>, flows: Flows, actions: seq<Action>, i: nat, c: Call)
    requires Run(ss, flows, actions) && i < |ss|
    ensures Writes(actions[..i], c) == if HasWritten(ss[i], c) then 1 else 0
  {
    hide Enabled, Next, HasWritten;
    if i == 0 {
      NothingWritten(c);
    } else {
      PayloadWrittenOnce(ss, flows, actions, i - 1, c);
      WritesStep(ss[i - 1], flows, actions[i - 1], c);
      assert actions[..i][..i - 1] == actions[..i - 1];
    }
  }

  lemma NothingWritten(c: Call)
    ensures !HasWritten(START, c)
  {
  }

  /** An entry whose key is nobody's identify field stays for the rest of the run, open socket or not. */
  lemma {:induction false} EntryStays(ss: seq<State>, flows: Flows, actions: seq<Action>, i: nat, j: nat, k: string)
    requires Run(ss, flows, actions) && i <= j < |ss| && k in ss[i].connections
    requires forall c :: flows(c).identify != k
    ensures k in ss[j].connections && ss[j].connections[k] == ss[i].connections[k]
    decreases j
  {
    hide Enabled, Next, CallFits;
    if i == j {
    } else {
      EntryStays(ss, flows, actions, i, j - 1, k);
      InvHolds(ss, flows, actions, j - 1);
      EntryStaysStep(ss[j - 1], flows, actions[j - 1], k);
    }
  }

  lemma EntryStaysStep(s: State, flows: Flows, a: Action, k: string)
    requires Inv(s, flows) && Enabled(s, a) && k in s.connections && forall c :: flows(c).identify != k
    ensures k in Next(s, flows, a).connections && Next(s, flows, a).connections[k] == s.connections[k]
  {
    hide LockFits, WritersFit, DomainsFit, Alive;
    assert a.Install? ==> CallFits(s, flows, a.c);
  }

  /** No deadlock: while a call is under way, some call can take a step. */
  lemma SomeCallCanMove(ss: seq<State>, flows: Flows, actions: seq<Action>, i: nat, c: Call) returns (a: Action)
    requires Run(ss, flows, actions) && i < |ss|
    requires c in ss[i].phase && !ss[i].phase[c].Finished?
    ensures Enabled(ss[i], a) && !a.Begin? && !a.CloseSocket? && !a.Remove?
  {
    var s := ss[i];
    InvHolds(ss, flows, actions, i);
    a := MoveOf(s, flows, c);
  }

  /**
   c itself, the holder of the write lock it waits for, or the holder of the lock or of the write lock that one waits
   for.
  */
  lemma MoveOf(s: State, flows: Flows, c: Call) returns (a: Action)
    requires Inv(s, flows) && c in s.phase && !s.phase[c].Finished?
    ensures Enabled(s, a) && !a.Begin? && !a.CloseSocket? && !a.Remove?
  {
    hide PhaseFits, EntriesFit, DomainsFit, Next;
    match s.phase[c] {
      case Looking => a := LookUp(c);
      case Found(x) => a := if x in s.writers then Write(s.writers[x]) else TakeWriteLock(c);
      case Missed =>
        if s.lock == None {
          a := TakeLock(c);
        } else {
          a := HolderMove(s, flows, s.lock.value);
        }
      case _ => a := HolderMove(s, flows, c);
    }
  }

  lemma HolderMove(s: State, flows: Flows, c: Call) returns (a: Action)
    requires WritersFit(s) && c in s.phase && (HoldsLock(s.phase[c]) || s.phase[c].Writing?)
    ensures Enabled(s, a) && !a.Begin? && !a.CloseSocket? && !a.Remove?
  {
    match s.phase[c] {
      case Locked => a := LookAgain(c);
      case Dialling => a := Dial(c);
      case Dialled => a := StartReader(c);
      case Spawned => a := Install(c);
      case Installed => a := if c in s.writers then Write(s.writers[c]) else TakeOwnWriteLock(c);
      case Writing(_, _) => a := Write(c);
    }
  }
}
