/** What tablec_resize keeps and what it drops. */
module TablecResize {
  import opened CStrings
  import opened Tablec
  import opened TablecRuns

  /** The pairs among `slots[i..]`, highest index first. */
  function PairsAbove(slots: seq<Slot>, i: nat): seq<Slot>
    requires i <= |slots|
    decreases |slots| - i
  {
    if i == |slots| then [] else PairsAbove(slots, i + 1) + (if slots[i].Pair? then [slots[i]] else [])
  }

  /** The slots of a bucket handed to `tablec_set`: slot 0 of a bucket that counts one pair,
      whether it is in use or not, and the pairs outside the last slot of a bucket that
      counts more. */
  function Visited(b: Bucket): seq<Slot>
    requires b.slots != []
  {
    if b.length == 0 then [] else if b.length == 1 then [b.slots[0]] else PairsAbove(b.slots[..|b.slots| - 1], 0)
  }

  predicate NoneEmpty(bs: seq<Bucket>) {
    forall k | 0 <= k < |bs| :: bs[k].slots != []
  }

  /** What is handed over from buckets `i` and up, highest bucket first. */
  function Moved(bs: seq<Bucket>, i: nat): seq<Slot>
    requires i <= |bs| && NoneEmpty(bs)
    decreases |bs| - i
  {
    if i == |bs| then [] else Moved(bs, i + 1) + Visited(bs[i])
  }

  predicate AllPairs(ps: seq<Slot>) {
    forall i | 0 <= i < |ps| :: ps[i].Pair?
  }

  lemma {:induction false} AllPairsLast(ps: seq<Slot>)
    ensures AllPairs(ps) <==> ps == [] || (AllPairs(ps[..|ps| - 1]) && ps[|ps| - 1].Pair?)
  {
    assert ps != [] ==> forall i | 0 <= i < |ps| - 1 :: ps[i] == ps[..|ps| - 1][i];
  }

  /** `tablec_set` for each slot in turn. An empty slot has a NULL key, which the hash
      would dereference: `None`. */
  function InsertAll(s: State, ps: seq<Slot>): (t: Option<State>)
    requires Ok(s)
    ensures t.Some? <==> AllPairs(ps)
    ensures t.Some? ==> Ok(t.value) && |t.value.buckets| == |s.buckets| && (CounterLaw(s) ==> CounterLaw(t.value))
  {
    hide Ok, CounterLaw, Apply, AllPairs;
    AllPairsLast(ps);
    if ps == [] then Some(s)
    else
      var last := ps[|ps| - 1];
      match InsertAll(s, ps[..|ps| - 1])
      case None => None
      case Some(t) => if last.Empty? then None else Some(Apply(t, Set(last.key, last.value)))
  }

  lemma {:induction false} InsertAllAdds(s: State, ps: seq<Slot>)
    requires Ok(s) && AllPairs(ps)
    ensures Contents(InsertAll(s, ps).value) == Contents(s) + multiset(ps)
  {
    hide BucketOk, CounterLaw, Contents, Apply;
    if ps != [] {
      var init, last := ps[..|ps| - 1], ps[|ps| - 1];
      InsertAllAdds(s, init);
      var t := InsertAll(s, init).value;
      var op := Set(last.key, last.value);
      StepConserves(t, op);
      assert Gone(t, op) == multiset{} && Came(op) == multiset{last};
      assert ps == init + [last];
      assert Contents(s) + multiset(init) + multiset{last} == Contents(s) + multiset(init + [last]);
    }
  }

  /** Only a bucket that counts one pair and keeps it elsewhere hands over an empty slot. */
  lemma {:induction false} MovedArePairs(bs: seq<Bucket>, i: nat)
    requires i <= |bs| && NoneEmpty(bs)
    ensures AllPairs(Moved(bs, i)) <==> forall k | i <= k < |bs| :: bs[k].length == 1 ==> bs[k].slots[0].Pair?
    decreases |bs| - i
  {
    if i < |bs| {
      MovedArePairs(bs, i + 1);
      VisitedArePairs(bs[i]);
      AllPairsJoin(Moved(bs, i + 1), Visited(bs[i]));
      hide AllPairs, Visited;
    }
  }

  lemma {:induction false} VisitedArePairs(b: Bucket)
    requires b.slots != []
    ensures AllPairs(Visited(b)) <==> (b.length == 1 ==> b.slots[0].Pair?)
  {
    if b.length == 1 {
      assert Visited(b)[0] == b.slots[0];
    } else if b.length > 1 {
      PairsAboveArePairs(b.slots[..|b.slots| - 1], 0);
    }
  }

  lemma {:induction false} AllPairsJoin(ps: seq<Slot>, qs: seq<Slot>)
    ensures AllPairs(ps + qs) <==> AllPairs(ps) && AllPairs(qs)
  {
    assert forall i | 0 <= i < |ps| :: (ps + qs)[i] == ps[i];
    assert forall i | 0 <= i < |qs| :: (ps + qs)[|ps| + i] == qs[i];
  }

  lemma {:induction false} PairsAboveArePairs(slots: seq<Slot>, i: nat)
    requires i <= |slots|
    ensures AllPairs(PairsAbove(slots, i))
    decreases |slots| - i
  {
    if i < |slots| { PairsAboveArePairs(slots, i + 1); }
  }

  lemma {:induction false} NoEmptyBuckets(s: State)
    requires Ok(s)
    ensures NoneEmpty(s.buckets)
  {
    forall k | 0 <= k < |s.buckets| ensures s.buckets[k].slots != [] {
      assert BucketOk(s.buckets[k], k, |s.buckets|);
    }
  }

  /** A bucket that counts one pair holds it in slot 0, unless the loop is skipped. */
  predicate Resizable(s: State) {
    s.length != 0 ==> forall i | 0 <= i < |s.buckets| ::
      s.buckets[i].length == 1 ==> s.buckets[i].slots != [] && s.buckets[i].slots[0].Pair?
  }

  /** The table after `tablec_resize`; `None` when the loop hashes a NULL key. */
  function ResizeState(s: State, capacity: nat): (t: Option<State>)
    requires Ok(s) && capacity > 0
    ensures t.Some? ==> Ok(t.value) && CounterLaw(t.value) && |t.value.buckets| == capacity
  {
    InitOk(capacity);
    NoEmptyBuckets(s);
    InsertAll(InitState(capacity), if s.length != 0 then Moved(s.buckets, 0) else [])
  }

  lemma {:induction false} ResizeDefined(s: State, capacity: nat)
    requires Ok(s) && capacity > 0
    ensures ResizeState(s, capacity).Some? <==> Resizable(s)
  {
    hide Moved, BucketOk, InsertAll;
    InitOk(capacity);
    NoEmptyBuckets(s);
    MovedArePairs(s.buckets, 0);
  }

  // ----- what is kept -----

  /** The slot the loop never looks at. */
  function Missed(b: Bucket): multiset<Slot>
    requires b.slots != []
  {
    if b.length > 1 && b.slots[|b.slots| - 1].Pair? then multiset{b.slots[|b.slots| - 1]} else multiset{}
  }

  function MissedFrom(bs: seq<Bucket>, i: nat): multiset<Slot>
    requires i <= |bs| && NoneEmpty(bs)
    decreases |bs| - i
  {
    if i == |bs| then multiset{} else MissedFrom(bs, i + 1) + Missed(bs[i])
  }

  lemma {:induction false} PairsFirst(p: Slot, rest: seq<Slot>)
    ensures Pairs([p] + rest) == Pairs(rest) + if p.Pair? then multiset{p} else multiset{}
  {
  }

  lemma {:induction false} PairsAboveAll(slots: seq<Slot>, i: nat)
    requires i <= |slots|
    ensures multiset(PairsAbove(slots, i)) == Pairs(slots[i..])
    decreases |slots| - i
  {
    if i == |slots| {
      assert slots[i..] == [];
    } else {
      hide Pairs;
      PairsAboveAll(slots, i + 1);
      assert slots[i..] == [slots[i]] + slots[i + 1..];
      PairsFirst(slots[i], slots[i + 1..]);
    }
  }

  lemma {:induction false} UsedNone(slots: seq<Slot>)
    requires Used(slots) == 0
    ensures Pairs(slots) == multiset{}
  {
    forall p: Slot | p.Pair? ensures p !in multiset(slots) { assert p !in slots; }
  }

  lemma {:induction false} UsedOne(slots: seq<Slot>)
    requires slots != [] && slots[0].Pair? && Used(slots) == 1
    ensures Pairs(slots) == multiset{slots[0]}
  {
    if |slots| == 1 {
      assert multiset(slots) == multiset{slots[0]} by { assert slots == [slots[0]]; }
    } else {
      var n := |slots| - 1;
      assert slots[..n][0] == slots[0];
      assert Used(slots[..n]) != 0;
      UsedOne(slots[..n]);
      assert slots == slots[..n] + [slots[n]];
    }
  }

  lemma {:induction false} PairsLast(slots: seq<Slot>, p: Slot)
    ensures Pairs(slots + [p]) == Pairs(slots) + if p.Pair? then multiset{p} else multiset{}
  {
  }

  lemma {:induction false} VisitedKeeps(b: Bucket)
    requires b.slots != [] && b.length == Used(b.slots) && (b.length == 1 ==> b.slots[0].Pair?)
    ensures multiset(Visited(b)) + Missed(b) == Pairs(b.slots)
  {
    hide Used, Pairs, PairsAbove;
    if b.length == 0 {
      UsedNone(b.slots);
    } else if b.length == 1 {
      UsedOne(b.slots);
    } else {
      ManyKeep(b.slots);
    }
  }

  lemma {:induction false} ManyKeep(slots: seq<Slot>)
    requires slots != []
    ensures var n := |slots| - 1;
      multiset(PairsAbove(slots[..n], 0)) + (if slots[n].Pair? then multiset{slots[n]} else multiset{}) == Pairs(slots)
  {
    hide Pairs, PairsAbove;
    var n := |slots| - 1;
    var init := slots[..n];
    PairsAboveAll(init, 0);
    assert init[0..] == init && slots == init + [slots[n]];
    PairsLast(init, slots[n]);
  }

  lemma {:induction false} MovedKeeps(s: State, i: nat)
    requires Ok(s) && s.length != 0 && Resizable(s) && i <= |s.buckets|
    ensures NoneEmpty(s.buckets)
    ensures multiset(Moved(s.buckets, i)) + MissedFrom(s.buckets, i) == ContentsOf(s.buckets[i..])
    decreases |s.buckets| - i
  {
    NoEmptyBuckets(s);
    if i < |s.buckets| {
      MovedKeeps(s, i + 1);
      assert BucketOk(s.buckets[i], i, |s.buckets|);
      hide Ok, BucketOk, Pairs;
      VisitedKeeps(s.buckets[i]);
      assert s.buckets[i..][1..] == s.buckets[i + 1..];
      var a, b := multiset(Moved(s.buckets, i + 1)), multiset(Visited(s.buckets[i]));
      var c, d := MissedFrom(s.buckets, i + 1), Missed(s.buckets[i]);
      assert multiset(Moved(s.buckets, i)) == a + b;
      assert (a + b) + (c + d) == (b + d) + (a + c);
    }
  }

  /** Exactly when a resize keeps the contents: the table's own length has not wrapped to
      zero over stored pairs, and no bucket with several pairs has one in its last slot. */
  predicate Keeps(s: State) {
    if s.length == 0 then forall i | 0 <= i < |s.buckets| :: s.buckets[i].length == 0
    else forall i | 0 <= i < |s.buckets| ::
      s.buckets[i].length > 1 ==> s.buckets[i].slots != [] && s.buckets[i].slots[|s.buckets[i].slots| - 1].Empty?
  }

  lemma {:induction false} NothingMissed(bs: seq<Bucket>, i: nat)
    requires i <= |bs| && NoneEmpty(bs)
    ensures MissedFrom(bs, i) == multiset{} <==>
      forall k | i <= k < |bs| :: bs[k].length > 1 ==> bs[k].slots[|bs[k].slots| - 1].Empty?
    decreases |bs| - i
  {
    if i < |bs| {
      NothingMissed(bs, i + 1);
      assert |MissedFrom(bs, i)| == |MissedFrom(bs, i + 1)| + |Missed(bs[i])|;
    }
  }

  lemma {:induction false} EmptyContents(s: State)
    requires Ok(s)
    ensures Contents(s) == multiset{} <==> forall i | 0 <= i < |s.buckets| :: s.buckets[i].length == 0
  {
    forall i | 0 <= i < |s.buckets|
      ensures s.buckets[i].length == 0 <==> forall p | p in s.buckets[i].slots :: p.Empty?
    {
      var b := s.buckets[i];
      assert BucketOk(b, i, |s.buckets|);
      if forall p | p in b.slots :: p.Empty? {
        assert forall k | 0 <= k < |b.slots| :: b.slots[k] in b.slots;
      }
    }
    hide Ok, BucketOk, ContentsOf;
    if i :| 0 <= i < |s.buckets| && s.buckets[i].length != 0 {
      var p :| p in s.buckets[i].slots && p.Pair?;
      InContents(s.buckets, p);
    }
    if Contents(s) != multiset{} {
      var p :| p in Contents(s);
      InContents(s.buckets, p);
    }
  }

  lemma {:induction false} Shortfall(a: multiset<Slot>, m: multiset<Slot>)
    ensures a == a + m <==> m == multiset{}
  {
    assert |a + m| == |a| + |m|;
  }

  /** A resize is defined exactly on resizable tables, and then the new table holds exactly
      the pairs that were visited. */
  lemma {:induction false} ResizeMoves(s: State, capacity: nat)
    requires Ok(s) && capacity > 0
    ensures NoneEmpty(s.buckets)
    ensures var t := ResizeState(s, capacity);
      && (t.Some? <==> Resizable(s))
      && (t.Some? ==> Contents(t.value) == if s.length != 0 then multiset(Moved(s.buckets, 0)) else multiset{})
  {
    hide Moved, InsertAll, Contents, BucketOk, Resizable;
    InitOk(capacity);
    NoEmptyBuckets(s);
    ResizeDefined(s, capacity);
    var ps := if s.length != 0 then Moved(s.buckets, 0) else [];
    if AllPairs(ps) { InsertAllAdds(InitState(capacity), ps); }
  }

  /** A resize goes through and keeps exactly the stored pairs if and only if the table is
      resizable and `Keeps` holds beforehand. */
  lemma {:induction false} ResizeExactly(s: State, capacity: nat)
    requires Ok(s) && capacity > 0
    ensures var t := ResizeState(s, capacity);
      t.Some? && Contents(t.value) == Contents(s) <==> Resizable(s) && Keeps(s)
    ensures ResizeState(s, capacity).Some? <==> Resizable(s)
  {
    hide ResizeState, Moved, ContentsOf, MissedFrom, BucketOk, Resizable;
    ResizeMoves(s, capacity);
    if s.length == 0 {
      EmptyContents(s);
    } else if Resizable(s) {
      MovedKeeps(s, 0);
      NothingMissed(s.buckets, 0);
      assert s.buckets[0..] == s.buckets;
      Shortfall(multiset(Moved(s.buckets, 0)), MissedFrom(s.buckets, 0));
    }
  }

  // ----- lookups after a resize -----

  /** Equal contents and at most one pair with the key: lookups agree, whatever the number
      of buckets. */
  lemma {:induction false} SameLookup(s: State, t: State, key: Key)
    requires Ok(s) && Ok(t) && Contents(s) == Contents(t)
    requires forall p, q | p in Contents(s) && q in Contents(s) && p.Pair? && q.Pair? && p.key == key == q.key :: p == q
    ensures GetState(s, key) == GetState(t, key)
  {
    hide Ok, GetState, Contents;
    GetFinds(s, key);
    GetFinds(t, key);
  }

  /** Each bucket holds at most one pair, in slot 0. */
  predicate CollisionFree(s: State) {
    forall i | 0 <= i < |s.buckets| ::
      s.buckets[i].length <= 1 && (s.buckets[i].length == 1 ==> s.buckets[i].slots != [] && s.buckets[i].slots[0].Pair?)
  }

  lemma {:induction false} OnlyPair(slots: seq<Slot>, p: Slot)
    requires slots != [] && slots[0].Pair? && Used(slots) == 1 && p in slots && p.Pair?
    ensures p == slots[0]
  {
    UsedOne(slots);
    assert p in multiset(slots);
    assert p in Pairs(slots);
  }

  lemma {:induction false} OneKeyOnePair(s: State, p: Slot, q: Slot)
    requires Ok(s) && CollisionFree(s) && p in Contents(s) && q in Contents(s) && p.Pair? && q.Pair? && p.key == q.key
    ensures p == q
  {
    InContents(s.buckets, p);
    InContents(s.buckets, q);
    var i :| 0 <= i < |s.buckets| && p in s.buckets[i].slots;
    var k :| 0 <= k < |s.buckets| && q in s.buckets[k].slots;
    assert BucketOk(s.buckets[i], i, |s.buckets|) && BucketOk(s.buckets[k], k, |s.buckets|);
    assert i == k;
    hide HashOf, ContentsOf, Ok;
    if s.buckets[i].length == 1 {
      OnlyPair(s.buckets[i].slots, p);
      OnlyPair(s.buckets[i].slots, q);
    }
  }

  /** On a collision-free table whose length is not zero over stored pairs, every key looks
      up to the same value after any resize, even where keys now collide. */
  lemma {:induction false} ResizeKeepsLookups(s: State, capacity: nat, key: Key)
    requires Ok(s) && CollisionFree(s) && capacity > 0
    requires Contents(s) != multiset{} ==> s.length != 0
    ensures var t := ResizeState(s, capacity); t.Some? && GetState(t.value, key) == GetState(s, key)
  {
    hide HashOf, Contents, GetState, ResizeState, Ok;
    EmptyContents(s);
    ResizeExactly(s, capacity);
    forall p, q | p in Contents(s) && q in Contents(s) && p.Pair? && q.Pair? && p.key == key == q.key
      ensures p == q
    {
      OneKeyOnePair(s, p, q);
    }
    SameLookup(s, ResizeState(s, capacity).value, key);
  }

  lemma {:induction false} InsertIntoBlank(key: Key, value: Address)
    ensures Ok(InitState(1))
    ensures SetState(InitState(1), key, value) == State([Bucket([Pair(key, value)], 1)], 1)
  {
    InitOk(1);
    assert InitState(1).buckets == [Bucket([Empty], 0)];
    assert [Empty][0 := Pair(key, value)] == [Pair(key, value)];
    assert [Bucket([Empty], 0)][0 := Bucket([Pair(key, value)], 1)] == [Bucket([Pair(key, value)], 1)];
  }

  lemma {:induction false} InsertIntoFull(p: Slot, key: Key, value: Address)
    requires p.Pair? && Ok(State([Bucket([p], 1)], 1))
    ensures SetState(State([Bucket([p], 1)], 1), key, value) == State([Bucket([p, Pair(key, value)], 2)], 1)
  {
    hide Ok;
    var q := Pair(key, value);
    assert LastEmpty([p], 1) == -1;
    assert ([p] + Blank(1))[1 := q] == [p, q];
    assert [Bucket([p], 1)][0 := Bucket([p, q], 2)] == [Bucket([p, q], 2)];
  }

  /** A third insertion doubles the bucket again and leaves the table length alone. */
  lemma {:induction false} InsertThird(p: Slot, q: Slot, key: Key, value: Address)
    requires p.Pair? && q.Pair? && Ok(State([Bucket([p, q], 2)], 1))
    ensures SetState(State([Bucket([p, q], 2)], 1), key, value)
      == State([Bucket([p, q, Pair(key, value), Empty], 3)], 1)
  {
    hide Ok;
    var r := Pair(key, value);
    assert LastEmpty([p, q], 2) == LastEmpty([p, q], 1) == -1;
    assert ([p, q] + Blank(2))[2 := r] == [p, q, r, Empty];
    assert [Bucket([p, q], 2)][0 := Bucket([p, q, r, Empty], 3)] == [Bucket([p, q, r, Empty], 3)];
  }

  /** Deleting slot `i` of a single bucket of four. */
  lemma {:induction false} DeleteAt(b: Bucket, length: nat, i: nat, key: Key)
    requires |b.slots| == 4 && b.length > 0 && Ok(State([b], length))
    requires i < 4 && b.slots[i].Pair? && b.slots[i].key == key
    requires forall k | i < k < 4 :: b.slots[k].Empty? || b.slots[k].key != key
    ensures DelState(State([b], length), key)
      == State([Bucket(b.slots[i := Empty], b.length - 1)], (length - 1) % WORD)
  {
    hide Ok;
    assert LastMatch(b.slots, key, 4) == i;
  }

  lemma {:induction false} SetInBucket(b: Bucket, length: nat, key: Key, value: Address)
    requires Ok(State([b], length))
    ensures b.slots != [] && b.length <= |b.slots|
    ensures SetState(State([b], length), key, value) ==
      State([BucketSet(b, Pair(key, value))], if Grows(b) then length else (length + 1) % WORD)
  {
    assert BucketOk(State([b], length).buckets[0], 0, 1);
    hide BucketSet, Grows;
    assert HashOf(key, 1) == 0 && [b][0 := BucketSet(b, Pair(key, value))] == [BucketSet(b, Pair(key, value))];
  }

  /** Buckets are visited from the highest index down, and so are the slots of each. */
  lemma {:induction false} ResizeOrder(p: Slot, q: Slot, r: Slot, bs: seq<Bucket>)
    requires p.Pair? && q.Pair? && r.Pair? && bs == [Bucket([p, q, Empty, Empty], 2), Bucket([r], 1)]
    ensures Moved(bs, 0) == [r, q, p]
  {
    var slots := [p, q, Empty, Empty];
    assert slots[..3] == [p, q, Empty];
    var init := [p, q, Empty];
    assert PairsAbove(init, 3) == [];
    assert PairsAbove(init, 2) == [] && PairsAbove(init, 1) == [q] && PairsAbove(init, 0) == [q, p];
    assert Visited(bs[0]) == [q, p] && Visited(bs[1]) == [r];
    assert Moved(bs, 2) == [] && Moved(bs, 1) == [] + [r];
  }

  lemma {:induction false} DeleteLower(p: Slot, q: Slot)
    requires p.Pair? && q.Pair? && p.key != q.key && Ok(State([Bucket([p, q], 2)], 1))
    ensures DelState(State([Bucket([p, q], 2)], 1), p.key) == State([Bucket([Empty, q], 1)], 0)
  {
    hide Ok;
    assert LastMatch([p, q], p.key, 2) == LastMatch([p, q], p.key, 1) == 0;
    assert [p, q][0 := Empty] == [Empty, q];
    assert [Bucket([p, q], 2)][0 := Bucket([Empty, q], 1)] == [Bucket([Empty, q], 1)];
  }

  /** Keeping the contents is not automatic. In one bucket, inserting twice grows the bucket
      without counting the second pair; deleting the first then leaves length 0 over one
      stored pair, and a resize drops it. */
  lemma {:induction false} ResizeCanLoseEverything(a: Key, b: Key, capacity: nat)
    requires a != b && capacity > 0
    ensures Ok(InitState(1))
    ensures var s := Run(InitState(1), [Set(a, 1), Set(b, 2), Del(a)]);
      && s.length == 0 && GetState(s, b) == Pair(b, 2) && Resizable(s) && !Keeps(s)
      && ResizeState(s, capacity).Some? && GetState(ResizeState(s, capacity).value, b) == Empty
  {
    hide SetState, DelState, BucketOk;
    InsertIntoBlank(a, 1);
    var s1 := Apply(InitState(1), Set(a, 1));
    InsertIntoFull(Pair(a, 1), b, 2);
    var s2 := Apply(s1, Set(b, 2));
    DeleteLower(Pair(a, 1), Pair(b, 2));
    var s3 := Apply(s2, Del(a));
    var ops := [Set(a, 1), Set(b, 2), Del(a)];
    assert ops[1..] == [Set(b, 2), Del(a)] && ops[1..][1..] == [Del(a)] && ops[1..][1..][1..] == [];
    assert Run(InitState(1), ops) == Run(s1, ops[1..]) == Run(s2, ops[1..][1..]) == Run(s3, []);
    LostAtZero(s3, capacity, b);
  }

  /** A resize of a table whose length is 0 leaves nothing to look up. */
  lemma {:induction false} LostAtZero(s: State, capacity: nat, key: Key)
    requires Ok(s) && s.length == 0 && capacity > 0
    ensures ResizeState(s, capacity).Some? && GetState(ResizeState(s, capacity).value, key) == Empty
  {
    assert InitState(capacity).buckets[HashOf(key, capacity)] == Bucket([Empty], 0);
  }

  lemma {:induction false} RunStep(s: State, op: Op, ops: seq<Op>, t: State)
    requires Ok(s) && Apply(s, op) == t
    ensures Run(s, [op] + ops) == Run(t, ops)
  {
    hide Apply, Ok;
    assert ([op] + ops)[1..] == ops;
  }

  /** Three colliding keys in one bucket, grown twice. */
  lemma {:induction false} Crowded(a: Key, b: Key, c: Key, ops: seq<Op>)
    ensures Ok(InitState(1))
    ensures var s := State([Bucket([Pair(a, 1), Pair(b, 2), Pair(c, 3), Empty], 3)], 1);
      Ok(s) && Run(InitState(1), [Set(a, 1), Set(b, 2), Set(c, 3)] + ops) == Run(s, ops)
  {
    hide SetState, Run, BucketOk;
    var p, q := Pair(a, 1), Pair(b, 2);
    InsertIntoBlank(a, 1);
    var s1 := Apply(InitState(1), Set(a, 1));
    InsertIntoFull(p, b, 2);
    var s2 := Apply(s1, Set(b, 2));
    InsertThird(p, q, c, 3);
    var s3 := Apply(s2, Set(c, 3));
    assert [Set(a, 1), Set(b, 2), Set(c, 3)] + ops == [Set(a, 1)] + ([Set(b, 2)] + ([Set(c, 3)] + ops));
    RunStep(InitState(1), Set(a, 1), [Set(b, 2)] + ([Set(c, 3)] + ops), s1);
    RunStep(s1, Set(b, 2), [Set(c, 3)] + ops, s2);
    RunStep(s2, Set(c, 3), ops, s3);
  }

  lemma {:induction false} Thinned(p: Slot, q: Slot, r: Slot)
    requires p.Pair? && q.Pair? && r.Pair? && p.key != q.key && p.key != r.key && q.key != r.key
    requires Ok(State([Bucket([p, q, r, Empty], 3)], 1))
    ensures Run(State([Bucket([p, q, r, Empty], 3)], 1), [Del(p.key), Del(q.key)])
      == State([Bucket([Empty, Empty, r, Empty], 1)], WORD - 1)
  {
    hide DelState, Run, BucketOk;
    var s3 := State([Bucket([p, q, r, Empty], 3)], 1);
    DeleteAt(Bucket([p, q, r, Empty], 3), 1, 0, p.key);
    assert [p, q, r, Empty][0 := Empty] == [Empty, q, r, Empty];
    var s4 := Apply(s3, Del(p.key));
    DeleteAt(Bucket([Empty, q, r, Empty], 2), 0, 1, q.key);
    assert [Empty, q, r, Empty][1 := Empty] == [Empty, Empty, r, Empty];
    var s5 := Apply(s4, Del(q.key));
    assert [Del(p.key), Del(q.key)] == [Del(p.key)] + ([Del(q.key)] + []);
    RunStep(s3, Del(p.key), [Del(q.key)] + [], s4);
    RunStep(s4, Del(q.key), [], s5);
    assert Run(s5, []) == s5 by { RunNothing(s5); }
  }

  lemma {:induction false} RunNothing(s: State)
    requires Ok(s)
    ensures Run(s, []) == s
  {
  }

  /** A resize may not even be defined. Deleting the lower two of three colliding pairs
      leaves the third in slot 2 of a bucket that counts one pair, over a length that has
      wrapped; the resize then hashes the NULL key of slot 0. */
  lemma {:induction false} ResizeCanHashNull(a: Key, b: Key, c: Key, capacity: nat)
    requires a != b && a != c && b != c && capacity > 0
    ensures Ok(InitState(1))
    ensures var s := Run(InitState(1), [Set(a, 1), Set(b, 2), Set(c, 3), Del(a), Del(b)]);
      && s == State([Bucket([Empty, Empty, Pair(c, 3), Empty], 1)], WORD - 1)
      && Keeps(s) && !Resizable(s) && ResizeState(s, capacity) == None
  {
    hide Run, Ok, ResizeState;
    var ops := [Del(a), Del(b)];
    Crowded(a, b, c, ops);
    Thinned(Pair(a, 1), Pair(b, 2), Pair(c, 3));
    var all := [Set(a, 1), Set(b, 2), Set(c, 3), Del(a), Del(b)];
    assert all == [Set(a, 1), Set(b, 2), Set(c, 3)] + ops;
    var s := Run(InitState(1), all);
    assert s.buckets[0].slots[0].Empty?;
    ResizeDefined(s, capacity);
  }
}
