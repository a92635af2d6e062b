/** The connection slots over any interleaving of accepts, disconnects and socket calls. */
module HttpServerRuns {
  import opened CStrings
  import opened HttpServer
  import opened Powers

  datatype Event = Accept | Disconnect(index: nat) | SetData(index: nat, data: Option<nat>) | Upgrade(index: nat)

  /** A server and its history: how many blocks were allocated (block `n` by the n-th
      accept), how often each was freed, the most live connections so far, and how many
      cells growth has initialised. */
  datatype Run = Run(server: State, blocks: nat, freed: multiset<nat>, peak: int, initialised: nat)

  const START := Run(State([BLANK], [1], 0), 0, multiset{}, 0, 0)

  predicate IsLive(s: State, index: nat) {
    index < |s.clients| && s.clients[index].Live()
  }

  /** Clients act only on the slot of a live connection. */
  predicate Enabled(r: Run, e: Event) {
    match e
    case Accept => true
    case _ => IsLive(r.server, e.index)
  }

  function SetAt(s: State, index: nat, c: Client): State
    requires index < |s.clients|
  {
    s.(clients := s.clients[index := c])
  }

  function BlockOf(c: Client): multiset<nat> {
    if c.threadData.Some? then multiset{c.threadData.value} else multiset{}
  }

  function Step(r: Run, e: Event): Run
    requires Enabled(r, e)
  {
    var s := r.server;
    match e
    case Accept =>
      var (t, _) := Accepted(s, r.blocks);
      Run(t, r.blocks + 1, r.freed, if t.length > r.peak then t.length else r.peak,
          r.initialised + if |t.clients| > |s.clients| then |t.clients| - |s.clients| else 0)
    case Disconnect(i) =>
      r.(server := Disconnected(s, i), freed := r.freed + BlockOf(s.clients[i]))
    case SetData(i, data) => r.(server := SetAt(s, i, s.clients[i].(data := data)))
    case Upgrade(i) => r.(server := SetAt(s, i, s.clients[i].(upgraded := true)))
  }

  /** All events of a run are enabled when they happen. */
  predicate Possible(r: Run, events: seq<Event>)
    decreases |events|
  {
    events == [] || (Enabled(r, events[0]) && Possible(Step(r, events[0]), events[1..]))
  }

  function After(r: Run, events: seq<Event>): Run
    requires Possible(r, events)
    decreases |events|
  {
    if events == [] then r else After(Step(r, events[0]), events[1..])
  }

  // ----- the invariant -----

  predicate Holds(s: State, k: nat, block: nat) {
    IsLive(s, k) && s.clients[k].threadData == Some(block)
  }

  ghost predicate Held(s: State, block: nat) {
    exists k: nat :: Holds(s, k, block)
  }

  /** Every allocated block is either freed once or held by exactly one live slot. */
  ghost predicate Owned(r: Run) {
    && (forall k: nat | IsLive(r.server, k) :: r.server.clients[k].threadData.Some?
         && r.server.clients[k].threadData.value < r.blocks)
    && (forall k: nat, l: nat, b: nat | Holds(r.server, k, b) && Holds(r.server, l, b) :: k == l)
    && (forall b: nat :: r.freed[b] == if b >= r.blocks || Held(r.server, b) then 0 else 1)
  }

  predicate Bounded(r: Run) {
    var n := |r.server.clients|;
    && n > 0 && PowerOfTwo(n) && r.server.length <= r.peak
    && (n == 1 || n <= 2 * (r.peak - 1))
    && r.initialised == n - 1
  }

  ghost predicate Inv(r: Run) {
    Ok(r.server) && Owned(r) && Bounded(r)
  }

  lemma {:induction false} StartInv()
    ensures Inv(START)
  {
    assert [1][..0] == [] && [1][0] == 1;
    assert Holes([1]) == Holes([]);
    assert forall k: nat :: !IsLive(START.server, k);
    assert Ok(START.server);
    assert Owned(START);
  }

  lemma {:induction false} AcceptOwned(r: Run)
    requires Ok(r.server) && Owned(r)
    ensures Owned(Step(r, Accept))
  {
    hide Accepted, Ok;
    AcceptOk(r.server, r.blocks);
    var (t, index) := Accepted(r.server, r.blocks);
    assert Holds(t, index, r.blocks);
    assert forall b: nat :: !Holds(r.server, index, b);
    assert forall k: nat, b: nat | k != index :: Holds(t, k, b) <==> Holds(r.server, k, b);
    forall b: nat
      ensures Held(t, b) <==> Held(r.server, b) || b == r.blocks
    {
      if k: nat :| Holds(r.server, k, b) { assert Holds(t, k, b); }
      if k: nat :| Holds(t, k, b) && k != index { assert Holds(r.server, k, b); }
    }
  }

  lemma {:induction false} AcceptBounded(r: Run)
    requires Ok(r.server) && Bounded(r)
    ensures Bounded(Step(r, Accept))
  {
    hide Accepted, Ok;
    AcceptOk(r.server, r.blocks);
    var n := |r.server.clients|;
    assert 2 * n / 2 == n;
  }

  lemma {:induction false} DisconnectOwned(r: Run, i: nat)
    requires Ok(r.server) && Owned(r) && IsLive(r.server, i)
    ensures Owned(Step(r, Disconnect(i)))
  {
    hide Disconnected, Ok;
    DisconnectOk(r.server, i);
    var t := Disconnected(r.server, i);
    var block := r.server.clients[i].threadData.value;
    assert Holds(r.server, i, block);
    assert forall b: nat :: !Holds(t, i, b);
    assert forall k: nat, b: nat | k != i :: Holds(t, k, b) <==> Holds(r.server, k, b);
    forall b: nat
      ensures Held(t, b) <==> Held(r.server, b) && b != block
    {
      if k: nat :| Holds(r.server, k, b) && b != block { assert Holds(t, k, b); }
      if k: nat :| Holds(t, k, b) { assert Holds(r.server, k, b); }
    }
  }

  /** A socket call changes neither liveness nor ownership. */
  lemma {:induction false} SetAtOk(r: Run, i: nat, c: Client)
    requires Inv(r) && IsLive(r.server, i) && c.Live() && c.threadData == r.server.clients[i].threadData
    ensures Inv(r.(server := SetAt(r.server, i, c)))
  {
    hide Holes;
    var t := SetAt(r.server, i, c);
    assert forall k: nat, b: nat :: Holds(t, k, b) <==> Holds(r.server, k, b);
    assert forall b: nat :: Held(t, b) <==> Held(r.server, b);
  }

  /** Every step of the server keeps the invariant. */
  lemma {:induction false} StepInv(r: Run, e: Event)
    requires Inv(r) && Enabled(r, e)
    ensures Inv(Step(r, e))
  {
    match e
    case Accept =>
      AcceptOk(r.server, r.blocks);
      AcceptOwned(r);
      AcceptBounded(r);
      hide Ok, Owned, Bounded, Accepted;
    case Disconnect(i) =>
      DisconnectOk(r.server, i);
      DisconnectOwned(r, i);
      hide Ok, Owned, Disconnected;
    case SetData(i, data) =>
      SetAtOk(r, i, r.server.clients[i].(data := data));
    case Upgrade(i) =>
      SetAtOk(r, i, r.server.clients[i].(upgraded := true));
  }

  lemma {:induction false} RunInv(r: Run, events: seq<Event>)
    requires Inv(r) && Possible(r, events)
    ensures Inv(After(r, events))
    decreases |events|
  {
    if events != [] {
      StepInv(r, events[0]);
      hide Inv, Step, Enabled;
      RunInv(Step(r, events[0]), events[1..]);
    }
  }

  // ----- whole runs from the start -----

  /** In every reachable state the counter is the number of live connections, the next
      accept gets a slot nobody holds, and a disconnect finds a hole. */
  lemma {:induction false} SlotsAreExclusive(events: seq<Event>)
    requires Possible(START, events)
    ensures var s := After(START, events).server;
      && s.length == |LiveSlots(s)| <= |s.clients| == |s.available|
      && (var (t, index) := Accepted(s, After(START, events).blocks);
          0 <= index < |t.clients| && index !in LiveSlots(s) && index in LiveSlots(t))
      && (forall k | k in LiveSlots(s) :: FirstHole(s.available, 0) < |s.available|)
  {
    StartInv();
    RunInv(START, events);
    var r := After(START, events);
    hide Holes, Accepted, Owned, Bounded;
    LengthIsLive(r.server);
    AcceptOk(r.server, r.blocks);
    forall k | k in LiveSlots(r.server)
      ensures FirstHole(r.server.available, 0) < |r.server.available|
    {
      HoleExists(r.server, k);
    }
  }

  /** Growth stays within twice the peak, and all growths together initialise fewer cells
      than that. */
  lemma {:induction false} GrowthBound(events: seq<Event>)
    requires Possible(START, events)
    ensures var r := After(START, events);
      var n := |r.server.clients|;
      n == Power(2, Log2(n)) && (n == 1 || n <= 2 * (r.peak - 1)) && r.initialised == n - 1 && r.peak <= r.blocks
  {
    PowerOfTwoSpelled(|After(START, events).server.clients|);
    StartInv();
    RunInv(START, events);
    PeakBound(START, events);
  }

  lemma {:induction false} PeakBound(r: Run, events: seq<Event>)
    requires Inv(r) && Possible(r, events) && r.peak <= r.blocks && r.server.length <= r.blocks
    ensures After(r, events).peak <= After(r, events).blocks
    decreases |events|
  {
    if events != [] {
      StepInv(r, events[0]);
      StepPeak(r, events[0]);
      hide Inv, Step, Enabled;
      PeakBound(Step(r, events[0]), events[1..]);
    }
  }

  lemma {:induction false} StepPeak(r: Run, e: Event)
    requires Inv(r) && Enabled(r, e) && r.peak <= r.blocks && r.server.length <= r.blocks
    ensures var q := Step(r, e); q.peak <= q.blocks && q.server.length <= q.blocks
  {
    hide Owned, Bounded, Accepted, Disconnected, Ok;
    match e
    case Accept => AcceptOk(r.server, r.blocks);
    case Disconnect(i) => DisconnectOk(r.server, i);
    case _ =>
  }

  function Accepts(events: seq<Event>): nat {
    if events == [] then 0 else (if events[0].Accept? then 1 else 0) + Accepts(events[1..])
  }

  /** Each accept allocates one block, nothing else does. */
  lemma {:induction false} OneBlockEach(r: Run, events: seq<Event>)
    requires Possible(r, events)
    ensures After(r, events).blocks == r.blocks + Accepts(events)
    decreases |events|
  {
    if events != [] { OneBlockEach(Step(r, events[0]), events[1..]); }
  }

  /** The connections alive after each event of a run, and at its start. */
  function Levels(r: Run, events: seq<Event>): (ls: seq<int>)
    requires Possible(r, events)
    ensures |ls| == |events| + 1
    decreases |events|
  {
    [r.server.length] + if events == [] then [] else Levels(Step(r, events[0]), events[1..])
  }

  /** The peak is the largest number of connections at any time of the run. */
  lemma {:induction false} PeakIsMax(events: seq<Event>)
    requires Possible(START, events)
    ensures var ls, peak := Levels(START, events), After(START, events).peak;
      peak in ls && forall i | 0 <= i < |ls| :: ls[i] <= peak
  {
    StartInv();
    PeakReached(START, events);
    assert Levels(START, events)[0] == START.peak;
  }

  predicate Topped(ls: seq<int>, p: int) {
    forall i | 0 <= i < |ls| :: ls[i] <= p
  }

  lemma {:induction false} ToppedCons(l: int, rest: seq<int>, p: int)
    requires l <= p && Topped(rest, p)
    ensures Topped([l] + rest, p)
  {
  }

  lemma {:induction false} PeakReached(r: Run, events: seq<Event>)
    requires Inv(r) && Possible(r, events)
    ensures var ls, p := Levels(r, events), After(r, events).peak;
      p >= r.peak && (p == r.peak || p in ls) && Topped(ls, p)
    decreases |events|
  {
    if events == [] {
      assert r.server.length <= r.peak;
    } else {
      var q := Step(r, events[0]);
      StepInv(r, events[0]);
      StepPeakIs(r, events[0]);
      hide Inv, Step, Enabled, Topped;
      PeakReached(q, events[1..]);
      var rest, p := Levels(q, events[1..]), After(q, events[1..]).peak;
      assert Levels(r, events) == [r.server.length] + rest && After(r, events).peak == p;
      ToppedCons(r.server.length, rest, p);
      assert rest[0] == q.server.length;
    }
  }

  lemma {:induction false} StepPeakIs(r: Run, e: Event)
    requires Inv(r) && Enabled(r, e)
    ensures var q := Step(r, e);
      q.peak == if q.server.length > r.peak then q.server.length else r.peak
    ensures r.server.length <= r.peak
  {
    hide Owned, Accepted, Disconnected, Ok;
    match e
    case Accept =>
    case Disconnect(i) => DisconnectOk(r.server, i);
    case _ =>
  }

  lemma {:induction false} StepSpares(r: Run, e: Event, k: nat)
    requires Inv(r) && Enabled(r, e) && IsLive(r.server, k) && (!e.Accept? ==> e.index != k)
    ensures IsLive(Step(r, e).server, k) && Step(r, e).server.clients[k] == r.server.clients[k]
  {
    hide Owned, Bounded, Accepted, Disconnected, Ok;
    match e
    case Accept => AcceptOk(r.server, r.blocks);
    case Disconnect(i) => DisconnectOk(r.server, i);
    case _ =>
  }

  /** No event acts on slot `k`; accepts of others are allowed. */
  predicate Spares(events: seq<Event>, k: nat) {
    forall i | 0 <= i < |events| :: !events[i].Accept? ==> events[i].index != k
  }

  lemma {:induction false} RunSpares(r: Run, events: seq<Event>, k: nat)
    requires Inv(r) && Possible(r, events) && IsLive(r.server, k) && Spares(events, k)
    ensures IsLive(After(r, events).server, k) && After(r, events).server.clients[k] == r.server.clients[k]
    decreases |events|
  {
    if events != [] {
      StepInv(r, events[0]);
      StepSpares(r, events[0], k);
      hide Inv, Step, Enabled;
      assert forall i | 0 <= i < |events[1..]| :: events[1..][i] == events[i + 1];
      RunSpares(Step(r, events[0]), events[1..], k);
    }
  }

  /** In every reachable state, a live slot keeps its index, data, flag and block over any
      further run of other clients: connects, disconnects, socket calls and growth. */
  lemma {:induction false} OthersUntouched(before: seq<Event>, events: seq<Event>, k: nat)
    requires Possible(START, before) && Possible(After(START, before), events)
    requires IsLive(After(START, before).server, k) && Spares(events, k)
    ensures var r := After(START, before);
      IsLive(After(r, events).server, k) && After(r, events).server.clients[k] == r.server.clients[k]
  {
    hide Inv;
    StartInv();
    RunInv(START, before);
    RunSpares(After(START, before), events, k);
  }

  /** What a call on slot `k` leaves in it is there after any further run of other clients:
      the data that was set, or the upgraded flag, beside what the slot held before. */
  lemma {:induction false} CallsLast(before: seq<Event>, e: Event, events: seq<Event>)
    requires Possible(START, before) && Enabled(After(START, before), e) && (e.SetData? || e.Upgrade?)
    requires Possible(Step(After(START, before), e), events) && Spares(events, e.index)
    ensures var r := After(START, before);
      var c := r.server.clients[e.index];
      var s := After(Step(r, e), events).server;
      IsLive(s, e.index) && s.clients[e.index] ==
        if e.SetData? then Client(c.threadData, c.socket, c.upgraded, e.data)
        else Client(c.threadData, c.socket, true, c.data)
  {
    var r := After(START, before);
    StartInv();
    RunInv(START, before);
    StepInv(r, e);
    hide Inv, After, Possible;
    assert IsLive(Step(r, e).server, e.index);
    RunSpares(Step(r, e), events, e.index);
  }

  /** A call on one slot leaves all others, the free list and the counter as they were. */
  lemma {:induction false} CallsAreLocal(r: Run, e: Event)
    requires Enabled(r, e) && (e.SetData? || e.Upgrade?)
    ensures var s, t := r.server, Step(r, e).server;
      && t.available == s.available && t.length == s.length && |t.clients| == |s.clients|
      && (forall k | 0 <= k < |s.clients| && k != e.index :: t.clients[k] == s.clients[k])
      && Step(r, e) == r.(server := t)
  {
  }

  // ----- stop -----

  /** The blocks `httpserver_stop_server` frees, slot by slot. */
  function StopFrees(clients: seq<Client>): multiset<nat> {
    if clients == [] then multiset{}
    else
      var last := clients[|clients| - 1];
      StopFrees(clients[..|clients| - 1]) + (if last.Live() then BlockOf(last) else multiset{})
  }

  ghost predicate HeldBelow(s: State, n: nat, block: nat) {
    exists k: nat :: k < n && Holds(s, k, block)
  }

  lemma {:induction false} StopFreesHeld(s: State, n: nat, b: nat)
    requires n <= |s.clients|
    requires forall k: nat, l: nat | Holds(s, k, b) && Holds(s, l, b) :: k == l
    ensures StopFrees(s.clients[..n])[b] == if HeldBelow(s, n, b) then 1 else 0
  {
    if n > 0 {
      StopFreesHeld(s, n - 1, b);
      assert s.clients[..n][..n - 1] == s.clients[..n - 1];
      var last := s.clients[n - 1];
      var freed := if last.Live() then BlockOf(last) else multiset{};
      assert StopFrees(s.clients[..n]) == StopFrees(s.clients[..n - 1]) + freed;
      assert freed[b] == if Holds(s, n - 1, b) then 1 else 0;
      assert Holds(s, n - 1, b) ==> !HeldBelow(s, n - 1, b);
      assert HeldBelow(s, n, b) <==> HeldBelow(s, n - 1, b) || Holds(s, n - 1, b);
    }
  }

  /** Over any run that ends in stop, each block an accept allocated is freed exactly once,
      by its disconnect or by stop, and nothing else is freed. */
  lemma {:induction false} FreedExactlyOnce(events: seq<Event>, b: nat)
    requires Possible(START, events)
    ensures var r := After(START, events);
      (r.freed + StopFrees(r.server.clients))[b] == if b < r.blocks then 1 else 0
  {
    StartInv();
    RunInv(START, events);
    hide Ok, Bounded, After, Possible, StopFrees;
    var r := After(START, events);
    StopFreesHeld(r.server, |r.server.clients|, b);
    assert r.server.clients[..|r.server.clients|] == r.server.clients;
    assert HeldBelow(r.server, |r.server.clients|, b) <==> Held(r.server, b);
    if k: nat :| Holds(r.server, k, b) { assert r.server.clients[k].threadData.value < r.blocks; }
  }
}
