/** The connection slots of httpserver.c: a free list kept in an array beside the slots. */
module HttpServer {
  import opened CStrings

  /** `struct httpserver_client`; `threadData` names the block the slot points to. A slot
      is live while its socket is not -1. */
  datatype Client = Client(threadData: Option<nat>, socket: int, upgraded: bool, data: Option<nat>) {
    predicate Live() { socket != -1 }
  }

  const BLANK := Client(None, -1, false, None)

  /** Entry `e` of `available` offers slot `e - 1`; 0 is a hole. */
  datatype State = State(clients: seq<Client>, available: seq<nat>, length: int)

  // ----- the free list -----

  /** First entry at or after `i` that offers a slot. */
  function FirstOffer(available: seq<nat>, i: nat): (k: nat)
    requires i <= |available|
    ensures i <= k <= |available|
    ensures k < |available| ==> available[k] != 0
    ensures forall j | i <= j < k :: available[j] == 0
    decreases |available| - i
  {
    if i == |available| || available[i] != 0 then i else FirstOffer(available, i + 1)
  }

  function FirstHole(available: seq<nat>, i: nat): (k: nat)
    requires i <= |available|
    ensures i <= k <= |available|
    ensures k < |available| ==> available[k] == 0
    ensures forall j | i <= j < k :: available[j] != 0
    decreases |available| - i
  {
    if i == |available| || available[i] == 0 then i else FirstHole(available, i + 1)
  }

  function Holes(available: seq<nat>): (n: nat)
    ensures n <= |available|
    ensures (forall i | 0 <= i < |available| :: available[i] == 0) ==> n == |available|
  {
    if available == [] then 0
    else Holes(available[..|available| - 1]) + if available[|available| - 1] == 0 then 1 else 0
  }

  predicate Distinct(available: seq<nat>) {
    forall i, k | 0 <= i < k < |available| :: available[i] != 0 ==> available[i] != available[k]
  }

  /** The free list offers each free slot exactly once and nothing else, and `length`
      counts its holes. */
  predicate Ok(s: State) {
    && |s.clients| == |s.available| > 0
    && Distinct(s.available)
    && (forall i | 0 <= i < |s.available| :: s.available[i] <= |s.clients|)
    && (forall k | 0 <= k < |s.clients| :: s.clients[k].Live() <==> k + 1 !in s.available)
    && s.length == Holes(s.available)
  }

  function LiveSlots(s: State): set<nat> {
    set k | 0 <= k < |s.clients| && s.clients[k].Live()
  }

  // ----- counting -----

  function Offers(available: seq<nat>): set<nat> {
    set e | e in available && e != 0
  }

  lemma {:induction false} OffersCount(available: seq<nat>)
    requires Distinct(available)
    ensures |Offers(available)| + Holes(available) == |available|
  {
    if available == [] {
      assert Offers(available) == {};
    } else {
      var n := |available| - 1;
      var last := available[n];
      OffersCount(available[..n]);
      assert available == available[..n] + [last];
      if last == 0 {
        assert Offers(available) == Offers(available[..n]);
      } else {
        assert last !in available[..n];
        assert Offers(available) == Offers(available[..n]) + {last};
      }
    }
  }

  function Codes(n: nat): (c: set<nat>)
    ensures |c| == n && forall e :: e in c <==> 1 <= e <= n
  {
    if n == 0 then {} else Codes(n - 1) + {n}
  }

  /** The codes under which the free list knows slots. */
  function CodesOf(slots: set<nat>): set<nat> {
    set k | k in slots :: k + 1
  }

  lemma {:induction false} InCodes(slots: set<nat>, e: nat)
    ensures e in CodesOf(slots) <==> e > 0 && e - 1 in slots
  {
    if e > 0 && e - 1 in slots { assert (e - 1) + 1 in CodesOf(slots); }
  }

  lemma {:induction false} CodesCount(slots: set<nat>)
    ensures |CodesOf(slots)| == |slots|
  {
    if slots == {} {
      assert CodesOf(slots) == {};
    } else {
      var k :| k in slots;
      var rest := slots - {k};
      CodesCount(rest);
      forall e ensures e in CodesOf(slots) <==> e in CodesOf(rest) + {k + 1} {
        InCodes(slots, e);
        InCodes(rest, e);
      }
      InCodes(rest, k + 1);
      hide CodesOf;
      assert CodesOf(slots) == CodesOf(rest) + {k + 1};
    }
  }

  /** The counter is the number of live connections. */
  lemma {:induction false} LengthIsLive(s: State)
    requires Ok(s)
    ensures |LiveSlots(s)| == s.length
  {
    hide Holes;
    var n := |s.clients|;
    var all := Codes(n);
    OffersCount(s.available);
    assert Offers(s.available) <= all;
    assert |all - Offers(s.available)| == n - |Offers(s.available)|;
    CodesCount(LiveSlots(s));
    LiveCodes(s);
  }

  /** The codes of the live slots are just those not offered. */
  lemma {:induction false} LiveCodes(s: State)
    requires Ok(s)
    ensures CodesOf(LiveSlots(s)) == Codes(|s.clients|) - Offers(s.available)
  {
    hide Holes, Distinct;
    var live, rest := CodesOf(LiveSlots(s)), Codes(|s.clients|) - Offers(s.available);
    forall e ensures e in live <==> e in rest { InCodes(LiveSlots(s), e); }
  }

  lemma {:induction false} HolesUpdate(available: seq<nat>, i: nat, e: nat)
    requires i < |available|
    ensures Holes(available[i := e]) + (if available[i] == 0 then 1 else 0)
      == Holes(available) + (if e == 0 then 1 else 0)
  {
    var n := |available| - 1;
    if i == n {
      assert available[i := e][..n] == available[..n];
    } else {
      assert available[i := e][..n] == available[..n][i := e];
      HolesUpdate(available[..n], i, e);
    }
  }

  // ----- accept -----

  function Blanks(n: nat): (c: seq<Client>)
    ensures |c| == n && forall i | 0 <= i < n :: c[i] == BLANK
  {
    seq(n, _ => BLANK)
  }

  /** The new half of the free list after growth offers the new half of the slots. */
  function NewOffers(n: nat): (o: seq<nat>)
    ensures |o| == n && forall i | 0 <= i < n :: o[i] == n + i + 1
  {
    seq(n, i => n + i + 1)
  }

  /** `_httpserver_select_position`: the slot and the state it leaves. */
  function Selected(s: State): (State, int) {
    var i := FirstOffer(s.available, 0);
    if i < |s.available| then (s.(available := s.available[i := 0]), s.available[i] - 1)
    else
      var grown := s.available + NewOffers(|s.available|);
      (State(s.clients + Blanks(|s.available|),
             if 0 <= s.length < |grown| then grown[s.length := 0] else grown,
             s.length), s.length)
  }

  function Connected(threadData: nat): Client {
    Client(Some(threadData), 0, false, None)
  }

  /** One turn of the accept loop. */
  function Accepted(s: State, threadData: nat): (State, int) {
    var (t, index) := Selected(s);
    (State(if 0 <= index < |t.clients| then t.clients[index := Connected(threadData)] else t.clients,
           t.available, t.length + 1), index)
  }

  lemma {:induction false} TakeOffer(s: State, i: nat, c: Client)
    requires Ok(s) && i < |s.available| && s.available[i] != 0 && c.Live()
    ensures var k := s.available[i] - 1;
      !s.clients[k].Live() && Ok(State(s.clients[k := c], s.available[i := 0], s.length + 1))
  {
    hide Holes;
    var k := s.available[i] - 1;
    var t := State(s.clients[k := c], s.available[i := 0], s.length + 1);
    HolesUpdate(s.available, i, 0);
    forall j | 0 <= j < |t.clients|
      ensures t.clients[j].Live() <==> j + 1 !in t.available
    {
      if j != k && j + 1 in s.available {
        var x :| 0 <= x < |s.available| && s.available[x] == j + 1;
        assert t.available[x] == j + 1;
      }
    }
  }

  lemma {:induction false} HolesAppend(a: seq<nat>, b: seq<nat>)
    requires forall i | 0 <= i < |b| :: b[i] != 0
    ensures Holes(a + b) == Holes(a)
  {
    if b == [] {
      assert a + b == a;
    } else {
      var n := |b| - 1;
      assert (a + b)[..|a + b| - 1] == a + b[..n];
      HolesAppend(a, b[..n]);
    }
  }

  /** When nothing is offered, every slot is live and the counter is the capacity, so it is
      also the first index of the new half. */
  lemma {:induction false} FullMeansLength(s: State)
    requires Ok(s) && FirstOffer(s.available, 0) == |s.available|
    ensures s.length == |s.clients| && forall k | 0 <= k < |s.clients| :: s.clients[k].Live()
  {
    assert forall i | 0 <= i < |s.available| :: s.available[i] == 0;
  }

  lemma {:induction false} GrowOk(s: State)
    requires Ok(s) && FirstOffer(s.available, 0) == |s.available|
    ensures Ok(State(s.clients + Blanks(|s.available|), s.available + NewOffers(|s.available|), s.length))
  {
    var n := |s.available|;
    var t := State(s.clients + Blanks(n), s.available + NewOffers(n), s.length);
    FullMeansLength(s);
    HolesAppend(s.available, NewOffers(n));
    forall k | 0 <= k < |t.clients|
      ensures t.clients[k].Live() <==> k + 1 !in t.available
    {
      if k >= n { assert t.available[k] == k + 1; }
    }
  }

  /** Accepting keeps the invariant, returns a slot no live connection holds, and leaves
      every live slot as it was, growth included. */
  lemma {:induction false} AcceptOk(s: State, threadData: nat)
    requires Ok(s)
    ensures var (t, index) := Accepted(s, threadData);
      && Ok(t) && 0 <= index < |t.clients| && t.length == s.length + 1
      && t.clients[index] == Client(Some(threadData), 0, false, None)
      && (index < |s.clients| ==> !s.clients[index].Live())
      && (if s.length < |s.clients| then |t.clients| == |s.clients| else |t.clients| == 2 * |s.clients|)
      && forall k | 0 <= k < |t.clients| && k != index ::
           t.clients[k] == if k < |s.clients| then s.clients[k] else Client(None, -1, false, None)
  {
    hide Holes, Ok, NewOffers;
    var i := FirstOffer(s.available, 0);
    if i < |s.available| {
      AcceptOffered(s, i, Connected(threadData));
    } else {
      AcceptGrown(s, Connected(threadData));
    }
  }

  /** A connection gets the slot that the first entry in use offers. That entry becomes a hole
      and no other changes. */
  lemma {:induction false} AcceptPlaces(s: State, threadData: nat, i: nat)
    requires Ok(s) && i < |s.available| && s.available[i] != 0 && forall k | 0 <= k < i :: s.available[k] == 0
    ensures var (t, index) := Accepted(s, threadData);
      index == s.available[i] - 1 && t.available == s.available[..i] + [0] + s.available[i + 1..]
  {
    assert FirstOffer(s.available, 0) == i;
    hide FirstOffer, Holes;
    assert s.available[i := 0] == s.available[..i] + [0] + s.available[i + 1..];
  }

  /** With no entry in use it gets the first slot of the new half, and the rest of that half
      is offered. */
  lemma {:induction false} AcceptExtends(s: State, threadData: nat)
    requires Ok(s) && forall k | 0 <= k < |s.available| :: s.available[k] == 0
    ensures var (t, index) := Accepted(s, threadData);
      var n := |s.available|;
      && index == n && |t.available| == 2 * n
      && forall k | 0 <= k < 2 * n :: t.available[k] == if k <= n then 0 else k + 1
  {
    assert FirstOffer(s.available, 0) == |s.available|;
    FullMeansLength(s);
    hide FirstOffer, Holes, Ok;
  }

  /** Where a slot is handed back: in the first hole. */
  lemma {:induction false} DisconnectPlaces(s: State, index: nat)
    requires Ok(s) && index < |s.clients| && s.clients[index].Live()
    ensures exists i | 0 <= i < |s.available| ::
      && (forall k | 0 <= k < i :: s.available[k] != 0) && s.available[i] == 0
      && Disconnected(s, index).available == s.available[..i] + [index + 1] + s.available[i + 1..]
  {
    HoleExists(s, index);
    var i := FirstHole(s.available, 0);
    hide FirstHole, Ok;
    assert s.available[i := index + 1] == s.available[..i] + [index + 1] + s.available[i + 1..];
  }

  lemma {:induction false} AcceptOffered(s: State, i: nat, c: Client)
    requires Ok(s) && i < |s.available| && s.available[i] != 0 && c.Live()
    ensures var k := s.available[i] - 1;
      && 0 <= k < |s.clients| && !s.clients[k].Live() && s.length < |s.clients|
      && Ok(State(s.clients[k := c], s.available[i := 0], s.length + 1))
  {
    hide Holes;
    TakeOffer(s, i, c);
    HolesBelow(s.available, i);
  }

  lemma {:induction false} AcceptGrown(s: State, c: Client)
    requires Ok(s) && FirstOffer(s.available, 0) == |s.available| && c.Live()
    ensures var n := |s.available|;
      var grown := s.available + NewOffers(n);
      && s.length == n == |s.clients| && n > 0
      && Ok(State((s.clients + Blanks(n))[n := c], grown[n := 0], n + 1))
  {
    FullMeansLength(s);
    GrowOk(s);
    hide Holes;
    var n := |s.available|;
    var grown := State(s.clients + Blanks(n), s.available + NewOffers(n), s.length);
    assert grown.available[n] == n + 1;
    TakeOffer(grown, n, c);
  }

  lemma {:induction false} HolesBelow(available: seq<nat>, i: nat)
    requires i < |available| && available[i] != 0
    ensures Holes(available) < |available|
  {
    HolesUpdate(available, i, 0);
  }

  // ----- disconnect -----

  /** `httpserver_disconnect_client`; the block of the slot is freed. */
  function Disconnected(s: State, index: nat): State
    requires index < |s.clients|
  {
    var clients := s.clients[index := s.clients[index].(socket := -1, upgraded := false)];
    var i := FirstHole(s.available, 0);
    if i < |s.available| then State(clients, s.available[i := index + 1], s.length - 1)
    else State(clients, s.available, s.length)
  }

  /** A live slot can always be handed back: the free list has a hole for it. */
  lemma {:induction false} HoleExists(s: State, index: nat)
    requires Ok(s) && index < |s.clients| && s.clients[index].Live()
    ensures FirstHole(s.available, 0) < |s.available|
  {
    LengthIsLive(s);
    assert index in LiveSlots(s);
    if FirstHole(s.available, 0) == |s.available| { NoHoles(s.available); }
  }

  lemma {:induction false} NoHoles(available: seq<nat>)
    requires forall i | 0 <= i < |available| :: available[i] != 0
    ensures Holes(available) == 0
  {
    HolesAppend([], available);
    assert [] + available == available;
  }

  lemma {:induction false} DisconnectOk(s: State, index: nat)
    requires Ok(s) && index < |s.clients| && s.clients[index].Live()
    ensures var t := Disconnected(s, index);
      && Ok(t) && |t.clients| == |s.clients| && t.length == s.length - 1
      && t.clients[index] == Client(s.clients[index].threadData, -1, false, s.clients[index].data)
      && forall k | 0 <= k < |t.clients| && k != index :: t.clients[k] == s.clients[k]
  {
    hide Holes;
    HoleExists(s, index);
    var i := FirstHole(s.available, 0);
    var t := Disconnected(s, index);
    HolesUpdate(s.available, i, index + 1);
    forall j | 0 <= j < |t.clients|
      ensures t.clients[j].Live() <==> j + 1 !in t.available
    {
      if j == index {
        assert t.available[i] == j + 1;
      } else if j + 1 in s.available {
        var x :| 0 <= x < |s.available| && s.available[x] == j + 1;
        assert t.available[x] == j + 1;
      }
    }
  }
}
