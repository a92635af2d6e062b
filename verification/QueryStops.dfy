/** How the query-string parser stops, for pairs of any length: done, at one of its limits, or
    with a write past a buffer. */
module QueryStops {
  import opened CStrings
  import opened QueryParser
  import opened QueryRoundTrip

  /** Delimiter-free text with a non-empty key, of any length. */
  predicate LongPair(p: Pair) {
    Free(p.key) && Free(p.value) && p.key != "" && (!p.equals ==> p.value == "")
  }

  predicate LongPairs(ps: seq<Pair>) {
    forall i | 0 <= i < |ps| :: LongPair(ps[i])
  }

  /** How parsing stops when `room` slots are left and the key is written from index `offset`
      on. The key check lets a key of 64 characters pass, whose terminator is then written
      past the buffer; a value of 1024 characters likewise. An empty value leaves the key
      index where it was, so the next key is written after it. */
  function ExpectedStop(ps: seq<Pair>, room: nat, offset: nat): Stop {
    if ps == [] then Done
    else
      var end, value := offset + |ps[0].key|, ps[0].value;
      if end > KEY_SIZE then KeyLimit
      else if value != "" && end == KEY_SIZE then Undefined
      else if |value| > VALUE_SIZE then ValueLimit
      else if |ps| == 1 && offset > 0 then Done
      else if value == "" && end == KEY_SIZE then KeyLimit
      else if |value| == VALUE_SIZE then Undefined
      else if |ps| == 1 then Done
      else if room <= 1 then QueriesLimit
      else ExpectedStop(ps[1..], room - 1, if value == "" then end else 0)
  }

  // ----- what the counters do -----

  predicate Active(s: State) {
    s.Ok() && s.stop == Running && s.count < |s.queries|
  }

  /** `t` is in the same slot as `s` and no other slot has changed. */
  predicate SameSlot(s: State, t: State) {
    && Active(s) && Active(t) && t.count == s.count && |t.queries| == |s.queries|
    && forall i | 0 <= i < |s.queries| && i != s.count :: t.queries[i] == s.queries[i]
  }

  predicate KeyIsEmpty(s: State)
    requires Active(s)
  {
    s.queries[s.count].key[0] == NUL
  }

  lemma {:induction false} KeyCounted(s: State, key: string)
    requires Active(s) && s.mode == 0 && Free(key)
    ensures var t := Run(s, key);
      if s.keyIndex + |key| > KEY_SIZE then t.stop == KeyLimit
      else
        && SameSlot(s, t) && t.mode == 0 && t.keyIndex == s.keyIndex + |key| && t.valueIndex == s.valueIndex
        && (KeyIsEmpty(t) <==> KeyIsEmpty(s) && (s.keyIndex > 0 || key == ""))
    decreases |key|
  {
    if key != "" {
      assert !Special(key[0]);
      var u := Step(s, key[0]);
      if s.keyIndex < KEY_SIZE {
        assert SameSlot(s, u);
        KeyCounted(u, key[1..]);
      }
    }
  }

  lemma {:induction false} ValueCounted(s: State, value: string)
    requires Active(s) && s.mode == 2 && Free(value)
    ensures var t := Run(s, value);
      if s.valueIndex + |value| > VALUE_SIZE then t.stop == ValueLimit
      else
        && SameSlot(s, t) && t.mode == 2 && t.keyIndex == s.keyIndex && t.valueIndex == s.valueIndex + |value|
        && (KeyIsEmpty(t) <==> KeyIsEmpty(s))
    decreases |value|
  {
    if value != "" {
      assert !Special(value[0]);
      var u := Step(s, value[0]);
      if s.valueIndex < VALUE_SIZE {
        assert SameSlot(s, u);
        ValueCounted(u, value[1..]);
      }
    }
  }

  /** A value after its "=": the terminator of the key comes first. */
  lemma {:induction false} ValueAfterKey(s: State, value: string)
    requires Active(s) && s.mode == 3 && s.keyIndex > 0 && s.valueIndex == 0 && Free(value) && value != ""
    ensures var t := Run(s, value);
      if s.keyIndex >= KEY_SIZE then t.stop == Undefined
      else if |value| > VALUE_SIZE then t.stop == ValueLimit
      else
        && SameSlot(s, t) && t.mode == 2 && t.keyIndex == 0 && t.valueIndex == |value|
        && (KeyIsEmpty(t) <==> KeyIsEmpty(s))
  {
    assert !Special(value[0]);
    var u := Step(s, value[0]);
    if s.keyIndex < KEY_SIZE {
      assert SameSlot(s, u) && u.mode == 2 && u.valueIndex == 1;
      ValueCounted(u, value[1..]);
    }
  }

  // ----- one pair -----

  /** Ready for a key that is written from index `offset` on, all slots left being unused. */
  predicate AtKey(s: State, offset: nat) {
    Active(s) && s.mode == 0 && s.keyIndex == offset && s.valueIndex == 0
    && forall i | s.count <= i < |s.queries| :: s.queries[i].key[0] == NUL
  }

  /** How the text of one pair stops the parser, if it does. */
  function PairStop(p: Pair, offset: nat): Stop {
    if offset + |p.key| > KEY_SIZE then KeyLimit
    else if p.value != "" && offset + |p.key| == KEY_SIZE then Undefined
    else if |p.value| > VALUE_SIZE then ValueLimit
    else Running
  }

  lemma {:induction false} PairCounted(s: State, p: Pair, offset: nat)
    requires AtKey(s, offset) && LongPair(p)
    ensures var t := Run(s, PairText(p));
      && t.stop == PairStop(p, offset)
      && (t.stop == Running ==>
          && SameSlot(s, t) && t.valueIndex == |p.value|
          && t.keyIndex == (if p.value == "" then offset + |p.key| else 0)
          && (KeyIsEmpty(t) <==> offset > 0))
  {
    var k := Run(s, p.key);
    KeyCounted(s, p.key);
    if p.equals {
      assert PairText(p) == p.key + (['='] + p.value);
      RunOver(s, p.key, ['='] + p.value);
    } else {
      assert PairText(p) == p.key;
    }
    if k.stop == Running && p.equals {
      RunOne(k, '=', p.value);
      var e := k.(mode := 3);
      assert Step(k, '=') == e;
      hide Run, Step;
      if p.value == "" {
        assert Run(e, "") == e by { RunNothing(e); }
      } else {
        ValueAfterKey(e, p.value);
      }
    }
  }

  lemma {:induction false} RunNothing(s: State)
    requires s.Ok()
    ensures Run(s, "") == s
  {
  }

  /** What `&` and the first character of the next key do after a pair. */
  lemma {:induction false} CommitCounted(s: State, rest: string)
    requires Active(s) && rest != "" && !Special(rest[0])
    requires forall i | s.count < i < |s.queries| :: s.queries[i].key[0] == NUL
    ensures var t := Run(s, "&" + rest);
      if s.keyIndex >= KEY_SIZE then t.stop == KeyLimit
      else if s.valueIndex >= VALUE_SIZE then t.stop == Undefined
      else if s.count + 1 >= |s.queries| then t.stop == QueriesLimit
      else
        var u := Commit(s.(mode := 1));
        AtKey(u, s.keyIndex) && u.count == s.count + 1 && |u.queries| == |s.queries| && t == Run(u, rest)
  {
    var b := s.(mode := 1);
    RunOne(s, '&', rest);
    assert Step(s, '&') == b;
    var u := Commit(b);
    assert Run(b, rest) == Run(Step(b, rest[0]), rest[1..]);
    if u.stop == Running {
      assert Run(u, rest) == Run(Step(u, rest[0]), rest[1..]);
    }
  }

  lemma {:induction false} LastStops(s: State, p: Pair, offset: nat)
    requires AtKey(s, offset) && LongPair(p)
    ensures Finish(Run(s, PairText(p))).stop == ExpectedStop([p], |s.queries| - s.count, offset)
  {
    hide Run;
    PairCounted(s, p, offset);
  }

  /** A pair that is not the last: the parser stops, or is ready for the next key. */
  lemma {:induction false} PairStops(s: State, p: Pair, offset: nat, more: string) returns (u: State)
    requires AtKey(s, offset) && LongPair(p) && more != "" && !Special(more[0])
    ensures u.Ok()
    ensures var t := Run(s, PairText(p) + ("&" + more));
      if PairStop(p, offset) != Running then t.stop == PairStop(p, offset)
      else if p.value == "" && offset + |p.key| == KEY_SIZE then t.stop == KeyLimit
      else if |p.value| == VALUE_SIZE then t.stop == Undefined
      else if s.count + 1 >= |s.queries| then t.stop == QueriesLimit
      else
        && AtKey(u, if p.value == "" then offset + |p.key| else 0)
        && u.count == s.count + 1 && |u.queries| == |s.queries| && t == Run(u, more)
  {
    u := s;
    var text := PairText(p);
    PairCounted(s, p, offset);
    RunOver(s, text, "&" + more);
    var t := Run(s, text);
    if t.stop == Running {
      hide Run, LongPair;
      CommitCounted(t, more);
      u := Commit(t.(mode := 1));
    } else {
      RunStopped(t, "&" + more);
    }
  }

  lemma {:induction false} RunStopped(s: State, url: string)
    requires s.Ok() && s.stop != Running
    ensures Run(s, url) == s
  {
  }

  lemma {:induction false} PairsStop(s: State, ps: seq<Pair>, offset: nat)
    requires AtKey(s, offset) && ps != [] && LongPairs(ps)
    ensures Finish(Run(s, Join(ps))).stop == ExpectedStop(ps, |s.queries| - s.count, offset)
    decreases |ps|
  {
    var p := ps[0];
    assert LongPair(p);
    JoinParts(ps);
    if |ps| == 1 {
      assert ps == [p];
      LastStops(s, p, offset);
    } else {
      assert LongPairs(ps[1..]) by { assert forall i | 0 <= i < |ps[1..]| :: ps[1..][i] == ps[i + 1]; }
      assert LongPair(ps[1]);
      assert Join(ps[1..]) != "" && !Special(Join(ps[1..])[0]) by { assert Join(ps[1..])[0] == ps[1].key[0]; }
      hide Join, Run, LongPair, AtKey, PairText;
      var u := PairStops(s, p, offset, Join(ps[1..]));
      var next := if p.value == "" then offset + |p.key| else 0;
      if AtKey(u, next) && u.count == s.count + 1 && |u.queries| == |s.queries| && u.count < |u.queries| {
        PairsStop(u, ps[1..], next);
      }
    }
  }

  /** For any path and any pairs, whatever their lengths and empty values: exactly how the
      parser stops. */
  lemma {:induction false} StopsExactly(limit: nat, path: string, ps: seq<Pair>)
    requires Free(path) && LongPairs(ps)
    ensures Finish(Run(Start(seq(limit, _ => ZERO), 0), Url(path, ps))).stop
      == if limit == 0 then QueriesLimit else ExpectedStop(ps, limit, 0)
  {
    var s := Start(seq(limit, _ => ZERO), 0);
    if limit == 0 {
      assert Url(path, ps) != "";
      assert Step(s, Url(path, ps)[0]).stop == QueriesLimit;
    } else {
      FromPath(limit, path, Join(ps));
      assert AtKey(s.(mode := 0), 0);
      if ps != [] { PairsStop(s.(mode := 0), ps, 0); }
    }
  }
}
