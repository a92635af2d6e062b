/** The hash table over whole runs. */
module TablecRuns {
  import opened Powers
  import opened Tablec

  datatype Op = Set(key: Key, value: Address) | Del(key: Key)

  function Apply(s: State, op: Op): (t: State)
    requires Ok(s)
    ensures Ok(t) && |t.buckets| == |s.buckets| && (CounterLaw(s) ==> CounterLaw(t))
  {
    match op
    case Set(key, value) => SetAdds(s, key, value); SetState(s, key, value)
    case Del(key) => DelRemoves(s, key); DelState(s, key)
  }

  /** The table after a run, oldest call first. */
  function Run(s: State, ops: seq<Op>): (t: State)
    requires Ok(s)
    ensures Ok(t) && |t.buckets| == |s.buckets| && (CounterLaw(s) ==> CounterLaw(t))
    decreases |ops|
  {
    hide Ok, CounterLaw, Apply;
    if ops == [] then s else Run(Apply(s, ops[0]), ops[1..])
  }

  function Came(op: Op): multiset<Slot> {
    if op.Set? then multiset{Pair(op.key, op.value)} else multiset{}
  }

  /** A deletion of a stored key finds one pair. */
  function Gone(s: State, op: Op): multiset<Slot>
    requires s.buckets != []
  {
    if op.Del? && GetState(s, op.key).Pair? then multiset{GetState(s, op.key)} else multiset{}
  }

  /** The pairs a run inserts. */
  function Inserted(ops: seq<Op>): multiset<Slot> {
    if ops == [] then multiset{} else Came(ops[0]) + Inserted(ops[1..])
  }

  /** The pairs its deletions find. */
  function Deleted(s: State, ops: seq<Op>): multiset<Slot>
    requires Ok(s)
    decreases |ops|
  {
    hide CounterLaw, Apply, BucketOk;
    if ops == [] then multiset{} else Gone(s, ops[0]) + Deleted(Apply(s, ops[0]), ops[1..])
  }

  /** Over any run, what the table holds and what was deleted is what it held and what was
      inserted: growth moves nothing out and holes lose nothing. */
  lemma {:induction false} RunConserves(s: State, ops: seq<Op>)
    requires Ok(s)
    ensures Contents(Run(s, ops)) + Deleted(s, ops) == Contents(s) + Inserted(ops)
    decreases |ops|
  {
    hide BucketOk, CounterLaw, Contents, Apply, Gone, Came;
    if ops != [] {
      StepConserves(s, ops[0]);
      RunConserves(Apply(s, ops[0]), ops[1..]);
      var t, gone, came := Apply(s, ops[0]), Gone(s, ops[0]), Came(ops[0]);
      var kept, later, deleted := Contents(Run(s, ops)), Inserted(ops[1..]), Deleted(t, ops[1..]);
      assert kept + (gone + deleted) == (kept + deleted) + gone;
      assert (Contents(t) + later) + gone == (Contents(t) + gone) + later;
      assert (Contents(s) + came) + later == Contents(s) + (came + later);
    }
  }

  lemma {:induction false} StepConserves(s: State, op: Op)
    requires Ok(s)
    ensures Contents(Apply(s, op)) + Gone(s, op) == Contents(s) + Came(op)
  {
    hide SetState, DelState, GetState, Contents, CounterLaw, BucketOk;
    match op
    case Set(key, value) => SetAdds(s, key, value);
    case Del(key) => DelRemoves(s, key);
  }

  /** The slots in use are the pairs among them. */
  lemma {:induction false} UsedCounts(slots: seq<Slot>)
    ensures |Pairs(slots)| == Used(slots)
  {
    if slots != [] {
      var n := |slots| - 1;
      UsedCounts(slots[..n]);
      assert slots == slots[..n] + [slots[n]];
      assert Pairs(slots) == Pairs(slots[..n]) + if slots[n].Pair? then multiset{slots[n]} else multiset{};
    }
  }

  /** The exact counter law holds in every table reachable from an empty one. */
  lemma {:induction false} ReachableLaw(capacity: nat, ops: seq<Op>)
    requires capacity > 0
    ensures Ok(InitState(capacity))
    ensures var t := Run(InitState(capacity), ops);
      CounterLaw(t) && forall i | 0 <= i < |t.buckets| ::
        var slots := t.buckets[i].slots;
        && |slots| == Power(2, Log2(|slots|)) && t.buckets[i].length == |Pairs(slots)|
        && (t.buckets[i].length == 0 ==> slots[0].Empty?)
  {
    InitOk(capacity);
    var t := Run(InitState(capacity), ops);
    forall i | 0 <= i < |t.buckets|
      ensures var slots := t.buckets[i].slots;
        && |slots| == Power(2, Log2(|slots|)) && t.buckets[i].length == |Pairs(slots)|
        && (t.buckets[i].length == 0 ==> slots[0].Empty?)
    {
      assert BucketOk(t.buckets[i], i, |t.buckets|);
      PowerOfTwoSpelled(|t.buckets[i].slots|);
      UsedCounts(t.buckets[i].slots);
      if t.buckets[i].length == 0 { EmptyBucketIsBlank(t, i); }
    }
  }

  // ----- with fresh keys the table is a map -----

  ghost predicate Represents(s: State, m: map<Key, Address>) {
    forall p: Slot | p in Contents(s) || (p.Pair? && p.key in m) ::
      Contents(s)[p] == if p.Pair? && p.key in m && m[p.key] == p.value then 1 else 0
  }

  /** Every insertion in the run uses a key that is not stored at that moment. */
  predicate FreshSets(ops: seq<Op>, m: map<Key, Address>)
    decreases |ops|
  {
    ops == [] || ((ops[0].Set? ==> ops[0].key !in m) && FreshSets(ops[1..], MapStep(m, ops[0])))
  }

  function MapStep(m: map<Key, Address>, op: Op): map<Key, Address> {
    match op
    case Set(key, value) => m[key := value]
    case Del(key) => m - {key}
  }

  function MapRun(m: map<Key, Address>, ops: seq<Op>): map<Key, Address>
    decreases |ops|
  {
    if ops == [] then m else MapRun(MapStep(m, ops[0]), ops[1..])
  }

  function MapGet(m: map<Key, Address>, key: Key): Slot {
    if key in m then Pair(key, m[key]) else Empty
  }

  lemma {:induction false} LookupIsMap(s: State, m: map<Key, Address>, key: Key)
    requires Ok(s) && Represents(s, m)
    ensures GetState(s, key) == MapGet(m, key)
  {
    hide GetState, Contents, Ok;
    GetFinds(s, key);
    if key in m { assert Pair(key, m[key]) in Contents(s); }
  }

  lemma {:induction false} StepIsMap(s: State, m: map<Key, Address>, op: Op)
    requires Ok(s) && Represents(s, m) && (op.Set? ==> op.key !in m)
    ensures Represents(Apply(s, op), MapStep(m, op))
  {
    hide SetState, DelState, GetState, Contents, Ok;
    LookupIsMap(s, m, op.key);
    match op
    case Set(key, value) => SetAdds(s, key, value);
    case Del(key) => DelRemoves(s, key);
  }

  lemma {:induction false} RunIsMap(s: State, m: map<Key, Address>, ops: seq<Op>)
    requires Ok(s) && Represents(s, m) && FreshSets(ops, m)
    ensures Represents(Run(s, ops), MapRun(m, ops))
    decreases |ops|
  {
    if ops != [] {
      StepIsMap(s, m, ops[0]);
      hide Apply, Represents, MapStep, Ok;
      RunIsMap(Apply(s, ops[0]), MapStep(m, ops[0]), ops[1..]);
    }
  }

  /** Sessions behave like a map for any number of logins: with fresh keys, every lookup
      after any run from an empty table answers what a map would. */
  lemma {:induction false} TableIsMap(capacity: nat, ops: seq<Op>, key: Key)
    requires capacity > 0 && FreshSets(ops, map[])
    ensures Ok(InitState(capacity))
    ensures GetState(Run(InitState(capacity), ops), key) == MapGet(MapRun(map[], ops), key)
  {
    InitOk(capacity);
    RunIsMap(InitState(capacity), map[], ops);
    LookupIsMap(Run(InitState(capacity), ops), MapRun(map[], ops), key);
  }
}
