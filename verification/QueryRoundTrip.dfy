/** Which query strings the parser stores faithfully. */
module QueryRoundTrip {
  import opened CStrings
  import opened QueryParser

  /** A key and a value. A key may stand without `=`. */
  datatype Pair = Pair(key: string, value: string, equals: bool)

  predicate Special(c: char) {
    c == '?' || c == '=' || c == '&' || c == NUL
  }

  predicate Free(s: string) {
    forall i | 0 <= i < |s| :: !Special(s[i])
  }

  /** A non-empty key of at most 63 characters, free of marks, and a value of at most 1023
      that is any text without `&` and NUL. */
  predicate IsPair(p: Pair) {
    Free(p.key) && 0 < |p.key| < 64 && |p.value| < 1024 && '&' !in p.value && '\0' !in p.value
    && (!p.equals ==> p.value == "")
  }

  predicate ArePairs(ps: seq<Pair>) {
    forall i | 0 <= i < |ps| :: IsPair(ps[i])
  }

  /** A pair whose value is free of `=` and `?` as well. */
  predicate Fits(p: Pair) {
    IsPair(p) && Free(p.value)
  }

  /** The first `n` pairs fit. */
  predicate FirstFit(ps: seq<Pair>, n: int) {
    forall i | 0 <= i < |ps| && i < n :: Fits(ps[i])
  }

  function PairText(p: Pair): string {
    p.key + if p.equals then "=" + p.value else ""
  }

  function Join(ps: seq<Pair>): string {
    if ps == [] then ""
    else PairText(ps[0]) + (if |ps| == 1 then "" else "&" + Join(ps[1..]))
  }

  /** `path?k1=v1&...&kn=vn`. */
  function Url(path: string, ps: seq<Pair>): string {
    path + "?" + Join(ps)
  }

  /** `s` and its terminators in a buffer of `size` characters. */
  function Held(s: string, size: nat): (b: seq<char>)
    requires |s| <= size
    ensures |b| == size
  {
    s + Zeros(size - |s|)
  }

  function Stored(p: Pair): Query
    requires IsPair(p)
  {
    Query(Held(p.key, KEY_SIZE), Held(p.value, VALUE_SIZE))
  }

  lemma {:induction false} HeldIsString(s: string, size: nat)
    requires |s| < size && NUL !in s
    ensures CStr(Held(s, size)) == s
  {
    CStrUnique(Held(s, size), s);
  }

  lemma {:induction false} HeldGrows(s: string, c: char, size: nat)
    requires |s| < size
    ensures Held(s, size)[|s| := c] == Held(s + [c], size)
  {
  }

  lemma {:induction false} HeldTerminated(s: string, size: nat)
    requires |s| < size
    ensures Held(s, size)[|s| := NUL] == Held(s, size)
  {
  }

  lemma {:induction false} RunOver(s: State, a: string, b: string)
    requires s.Ok()
    ensures Run(s, a + b) == Run(Run(s, a), b)
    decreases |a|
  {
    if a == "" {
      assert a + b == b;
    } else if s.stop == Running {
      assert (a + b)[0] == a[0] && (a + b)[1..] == a[1..] + b;
      hide Step;
      RunOver(Step(s, a[0]), a[1..], b);
    }
  }

  lemma {:induction false} RunOne(s: State, c: char, rest: string)
    requires s.Ok() && s.stop == Running
    ensures Run(s, [c] + rest) == Run(Step(s, c), rest)
  {
    hide Step;
    assert ([c] + rest)[1..] == rest;
  }

  lemma {:induction false} PathSkipped(s: State, path: string)
    requires s.Ok() && s.stop == Running && s.mode == -1 && s.count < |s.queries| && Free(path)
    ensures Run(s, path) == s
    decreases |path|
  {
    if path != "" {
      assert !Special(path[0]);
      assert Step(s, path[0]) == s;
      PathSkipped(s, path[1..]);
    }
  }

  // ----- one pair -----

  /** Ready for the first character of a key into a fresh slot. */
  predicate Ready(s: State) {
    s.Ok() && s.stop == Running && s.mode == 0 && s.keyIndex == 0 && s.valueIndex == 0
    && s.count < |s.queries| && s.queries[s.count] == ZERO
  }

  function WithSlot(s: State, q: Query): State
    requires s.count < |s.queries|
  {
    s.(queries := s.queries[s.count := q])
  }

  lemma {:induction false} KeyWritten(s: State, done: string, key: string)
    requires s.Ok() && s.stop == Running && s.mode == 0 && s.count < |s.queries|
    requires Free(key) && s.keyIndex == |done| && |done| + |key| < KEY_SIZE
    requires s.queries[s.count].key == Held(done, KEY_SIZE)
    ensures Run(s, key)
      == WithSlot(s, s.queries[s.count].(key := Held(done + key, KEY_SIZE))).(keyIndex := |done + key|)
    decreases |key|
  {
    if key == "" {
      assert done + key == done;
    } else {
      HeldGrows(done, key[0], KEY_SIZE);
      assert !Special(key[0]);
      KeyWritten(Step(s, key[0]), done + [key[0]], key[1..]);
      assert done + [key[0]] + key[1..] == done + key;
    }
  }

  lemma {:induction false} ValueWritten(s: State, done: string, value: string)
    requires s.Ok() && s.stop == Running && s.mode == 2 && s.count < |s.queries|
    requires Free(value) && s.valueIndex == |done| && |done| + |value| < VALUE_SIZE
    requires s.queries[s.count].value == Held(done, VALUE_SIZE)
    ensures Run(s, value)
      == WithSlot(s, s.queries[s.count].(value := Held(done + value, VALUE_SIZE))).(valueIndex := |done + value|)
    decreases |value|
  {
    if value == "" {
      assert done + value == done;
    } else {
      HeldGrows(done, value[0], VALUE_SIZE);
      assert !Special(value[0]);
      ValueWritten(Step(s, value[0]), done + [value[0]], value[1..]);
      assert done + [value[0]] + value[1..] == done + value;
    }
  }

  /** The state after `key=value`: with an empty value the key index is not reset. */
  function AfterPair(s: State, p: Pair): State
    requires s.count < |s.queries| && Fits(p)
  {
    var t := WithSlot(s, Stored(p)).(valueIndex := |p.value|);
    if p.value == "" then t.(mode := if p.equals then 3 else 0, keyIndex := |p.key|) else t.(mode := 2)
  }

  lemma {:induction false} PairWritten(s: State, p: Pair)
    requires Ready(s) && Fits(p)
    ensures AfterPair(s, p).Ok() && Run(s, PairText(p)) == AfterPair(s, p)
  {
    assert Held("", KEY_SIZE) == ZERO.key && Held("", VALUE_SIZE) == ZERO.value;
    KeyWritten(s, "", p.key);
    assert "" + p.key == p.key;
    var k := Run(s, p.key);
    if p.equals {
      var e := k.(mode := 3);
      assert Step(k, '=') == e;
      assert "=" + p.value == ['='] + p.value;
      RunOver(s, p.key, ['='] + p.value);
      RunOne(k, '=', p.value);
      if p.value != "" { FirstValueChar(e, p); }
    } else {
      assert PairText(p) == p.key;
    }
  }

  lemma {:induction false} FirstValueChar(e: State, p: Pair)
    requires Fits(p) && p.value != "" && e.Ok() && e.stop == Running && e.mode == 3 && e.count < |e.queries|
    requires e.keyIndex == |p.key| && e.valueIndex == 0
    requires e.queries[e.count] == Query(Held(p.key, KEY_SIZE), Zeros(VALUE_SIZE))
    ensures Run(e, p.value) ==
      WithSlot(e, Stored(p)).(mode := 2, keyIndex := 0, valueIndex := |p.value|)
  {
    var c := p.value[0];
    assert !Special(c);
    HeldTerminated(p.key, KEY_SIZE);
    assert Held("", VALUE_SIZE) == Zeros(VALUE_SIZE);
    HeldGrows("", c, VALUE_SIZE);
    assert "" + [c] == [c];
    var f := Step(e, c);
    assert f
      == WithSlot(e, Query(Held(p.key, KEY_SIZE), Held([c], VALUE_SIZE))).(mode := 2, keyIndex := 0, valueIndex := 1);
    ValueWritten(f, [c], p.value[1..]);
    assert [c] + p.value[1..] == p.value;
  }

  // ----- moving on to the next pair -----

  /** `&` and the first character of the next key commit the pair in progress. */
  lemma {:induction false} NextPair(s: State, p: Pair, rest: string)
    requires Ready(s) && Fits(p) && rest != "" && !Special(rest[0])
    ensures AfterPair(s, p).Ok()
    ensures var t := AfterPair(s, p).(mode := 0, valueIndex := 0, count := s.count + 1);
      Run(AfterPair(s, p), "&" + rest) ==
        if s.count + 1 >= |s.queries| then t.(stop := QueriesLimit)
        else Run(OnKey(t, rest[0]), rest[1..])
  {
    PairWritten(s, p);
    var a := AfterPair(s, p);
    RunOne(a, '&', rest);
    var b := a.(mode := 1);
    assert Step(a, '&') == b;
    HeldTerminated(p.value, VALUE_SIZE);
    assert PutValue(b, b.valueIndex, NUL) == b;
    hide OnKey;
    assert Run(b, rest) == Run(Step(b, rest[0]), rest[1..]);
  }

  lemma {:induction false} LastPair(s: State, p: Pair)
    requires Ready(s) && Fits(p)
    ensures AfterPair(s, p).Ok()
    ensures Finish(AfterPair(s, p)) == AfterPair(s, p).(count := s.count + 1, stop := Done)
  {
    PairWritten(s, p);
    var a := AfterPair(s, p);
    assert Stored(p).key[0] == p.key[0] && !Special(p.key[0]);
    HeldTerminated(p.value, VALUE_SIZE);
    assert PutValue(a, a.valueIndex, NUL) == a;
  }

  lemma {:induction false} JoinStart(ps: seq<Pair>)
    requires ps != [] && IsPair(ps[0])
    ensures Join(ps) != "" && !Special(Join(ps)[0])
  {
    assert Join(ps)[0] == ps[0].key[0];
  }

  lemma {:induction false} JoinParts(ps: seq<Pair>)
    requires ps != []
    ensures Join(ps) == if |ps| == 1 then PairText(ps[0]) else PairText(ps[0]) + ("&" + Join(ps[1..]))
  {
    assert PairText(ps[0]) + "" == PairText(ps[0]);
  }

  // ----- what should be stored -----

  function Least(a: nat, b: nat): nat { if a <= b then a else b }

  /** The table with `ps` in the slots from `at`, as far as they go. */
  function Filled(queries: seq<Query>, at: nat, ps: seq<Pair>): (r: seq<Query>)
    requires at <= |queries| && ArePairs(ps)
    ensures |r| == |queries|
  {
    seq(|queries|, i requires 0 <= i < |queries| =>
      if at <= i < at + |ps| then Stored(ps[i - at]) else queries[i])
  }

  /** All values but the last one stored are non-empty. */
  predicate ValuesPresent(ps: seq<Pair>, limit: nat) {
    forall i | 0 <= i < Least(|ps|, limit) - 1 :: ps[i].value != ""
  }

  /** No value that is stored holds a mark. */
  predicate ValuesUnmarked(ps: seq<Pair>, limit: nat) {
    forall i | 0 <= i < Least(|ps|, limit) :: '=' !in ps[i].value && '?' !in ps[i].value
  }

  predicate Blank(queries: seq<Query>, from: nat) {
    forall i | from <= i < |queries| :: queries[i] == ZERO
  }

  function Advanced(s: State, p: Pair): State
    requires s.count < |s.queries| && Fits(p)
  {
    AfterPair(s, p).(mode := 0, valueIndex := 0, count := s.count + 1)
  }

  /** With a non-empty value and room, the first pair is stored and the rest follows. */
  lemma {:induction false} Advance(s: State, ps: seq<Pair>)
    requires Ready(s) && Blank(s.queries, s.count) && |ps| >= 2 && Fits(ps[0]) && IsPair(ps[1])
    requires ps[0].value != "" && s.count + 1 < |s.queries|
    ensures var t := Advanced(s, ps[0]);
      Ready(t) && Blank(t.queries, t.count) && Run(s, Join(ps)) == Run(t, Join(ps[1..]))
  {
    var p, more := ps[0], Join(ps[1..]);
    PairWritten(s, p);
    JoinStart(ps[1..]);
    JoinParts(ps);
    hide Join, OnKey, Fits, PairText;
    RunOver(s, PairText(p), "&" + more);
    NextPair(s, p, more);
    var t := Advanced(s, p);
    assert Run(t, more) == Run(OnKey(t, more[0]), more[1..]);
  }

  lemma {:induction false} AdvanceFills(s: State, ps: seq<Pair>)
    requires s.count + 1 < |s.queries| && |ps| >= 2 && ArePairs(ps) && Fits(ps[0])
    ensures ArePairs(ps[1..])
    ensures var t := Advanced(s, ps[0]);
      t.count == s.count + 1 && |t.queries| == |s.queries|
      && Filled(t.queries, t.count, ps[1..]) == Filled(s.queries, s.count, ps)
  {
    hide Stored, IsPair;
    assert forall i | 0 <= i < |ps[1..]| :: ps[1..][i] == ps[i + 1];
  }

  lemma {:induction false} StoresLast(s: State, ps: seq<Pair>)
    requires Ready(s) && ps != [] && ArePairs(ps) && Fits(ps[0]) && (|ps| == 1 || s.count + 1 == |s.queries|)
    ensures var t := Finish(Run(s, Join(ps)));
      t.queries == Filled(s.queries, s.count, ps) && t.count == s.count + 1
  {
    var p := ps[0];
    PairWritten(s, p);
    var a := AfterPair(s, p);
    assert Filled(s.queries, s.count, ps) == a.queries;
    JoinParts(ps);
    if |ps| == 1 {
      LastPair(s, p);
    } else {
      var more := Join(ps[1..]);
      assert IsPair(ps[1]);
      JoinStart(ps[1..]);
      hide Join, OnKey, PairText;
      RunOver(s, PairText(p), "&" + more);
      NextPair(s, p, more);
    }
  }

  lemma {:induction false} StoresPairs(s: State, ps: seq<Pair>)
    requires Ready(s) && Blank(s.queries, s.count) && ps != [] && ArePairs(ps)
    requires FirstFit(ps, |s.queries| - s.count) && ValuesPresent(ps, |s.queries| - s.count)
    ensures var t := Finish(Run(s, Join(ps)));
      t.queries == Filled(s.queries, s.count, ps) && t.count == s.count + Least(|ps|, |s.queries| - s.count)
    decreases |ps|
  {
    hide Join, Filled, Finish, Run, Fits, IsPair, Advanced;
    assert Fits(ps[0]);
    if |ps| == 1 || s.count + 1 == |s.queries| {
      StoresLast(s, ps);
    } else {
      assert ps[0].value != "" && IsPair(ps[1]);
      Advance(s, ps);
      AdvanceFills(s, ps);
      assert forall i | 0 <= i < |ps[1..]| :: ps[1..][i] == ps[i + 1];
      StoresPairs(Advanced(s, ps[0]), ps[1..]);
    }
  }

  // ----- an empty value spoils the next key -----

  /** Slot `i` has an empty key and will keep it. */
  predicate Spoiled(s: State, i: nat) {
    s.Ok() && i < |s.queries| && i <= s.count && s.queries[i].key[0] == NUL
    && (s.count == i && s.mode == 0 ==> s.keyIndex > 0)
  }

  /** Until the next slot is begun, only a `?` could restore the key. */
  lemma {:induction false} StaysSpoiled(s: State, i: nat, url: string)
    requires Spoiled(s, i) && ('?' !in url || s.count > i || s.stop != Running)
    ensures Spoiled(Run(s, url), i)
    decreases |url|
  {
    if url != "" && s.stop == Running {
      StepSpoiled(s, i, url[0]);
      hide Step, Spoiled;
      StaysSpoiled(Step(s, url[0]), i, url[1..]);
    }
  }

  lemma {:induction false} StepSpoiled(s: State, i: nat, c: char)
    requires Spoiled(s, i) && s.stop == Running && (c != '?' || s.count > i)
    ensures Spoiled(Step(s, c), i) && Step(s, c).count >= s.count
  {
  }

  /** The text of the next pair begins the next slot, if the parser gets that far. */
  lemma {:induction false} NextBegun(s: State, i: nat, rest: string)
    requires Spoiled(s, i) && rest != "" && !Special(rest[0])
    ensures Spoiled(Run(s, "&" + rest), i)
  {
    if s.stop == Running {
      StepSpoiled(s, i, '&');
      var a := Step(s, '&');
      RunOne(s, '&', rest);
      if a.stop == Running {
        StepSpoiled(a, i, rest[0]);
        var b := Step(a, rest[0]);
        assert b.stop != Running || b.count > i;
        assert Run(a, rest) == Run(b, rest[1..]);
        hide Step, Spoiled;
        StaysSpoiled(b, i, rest[1..]);
      }
    }
  }

  lemma {:induction false} SpoiledResult(s: State, i: nat)
    requires Spoiled(s, i)
    ensures var t := Finish(s); t.count > i ==> t.queries[i].key[0] == NUL
  {
  }

  lemma {:induction false} PairUnmarked(p: Pair)
    requires Fits(p)
    ensures '?' !in PairText(p) && PairText(p) != "" && !Special(PairText(p)[0])
  {
    assert '?' !in p.key && '?' !in p.value;
  }

  lemma {:induction false} EmptyValueSpoils(s: State, ps: seq<Pair>)
    requires Ready(s) && Blank(s.queries, s.count) && |ps| >= 2 && ArePairs(ps) && Fits(ps[0]) && Fits(ps[1])
    requires ps[0].value == "" && s.count + 1 < |s.queries|
    ensures var t := Finish(Run(s, Join(ps))); t.count > s.count + 1 ==> t.queries[s.count + 1].key[0] == NUL
  {
    var i, next := s.count + 1, PairText(ps[1]);
    PairUnmarked(ps[1]);
    JoinTwo(ps);
    if |ps| > 2 {
      assert IsPair(ps[2]);
      JoinStart(ps[2..]);
    }
    hide Join, Run, PairText, IsPair, Fits, Ready, Blank;
    var t := SecondSpoiled(s, ps[0], next);
    if |ps| == 2 {
      SpoiledResult(t, i);
    } else {
      var more := Join(ps[2..]);
      RunOver(s, PairText(ps[0]) + ("&" + next), "&" + more);
      NextBegun(t, i, more);
      SpoiledResult(Run(t, "&" + more), i);
    }
  }

  lemma {:induction false} JoinTwo(ps: seq<Pair>)
    requires |ps| >= 2
    ensures var two := PairText(ps[0]) + ("&" + PairText(ps[1]));
      Join(ps) == if |ps| == 2 then two else two + ("&" + Join(ps[2..]))
  {
    JoinParts(ps);
    JoinParts(ps[1..]);
    assert ps[1..][1..] == ps[2..];
    hide Join, PairText;
    if |ps| > 2 {
      var a, b, c := PairText(ps[0]), PairText(ps[1]), "&" + Join(ps[2..]);
      assert a + ("&" + (b + c)) == a + ("&" + b) + c;
    }
  }

  /** After a pair with an empty value, the next slot is spoiled. */
  lemma {:induction false} SecondSpoiled(s: State, p: Pair, next: string) returns (t: State)
    requires Ready(s) && Blank(s.queries, s.count) && Fits(p) && p.value == "" && s.count + 1 < |s.queries|
    requires '?' !in next && next != "" && !Special(next[0])
    ensures t == Run(s, PairText(p) + ("&" + next)) && Spoiled(t, s.count + 1)
  {
    PairWritten(s, p);
    var a := AfterPair(s, p);
    RunOver(s, PairText(p), "&" + next);
    NextPair(s, p, next);
    var b := a.(mode := 0, valueIndex := 0, count := s.count + 1);
    assert b.queries[b.count] == ZERO;
    var u := OnKey(b, next[0]);
    assert Spoiled(u, s.count + 1);
    StaysSpoiled(u, s.count + 1, next[1..]);
    t := Run(u, next[1..]);
  }

  /** What ends up in the slots from `s.count` on differs from the pairs. */
  lemma {:induction false} MissingValueShows(s: State, ps: seq<Pair>)
    requires Ready(s) && Blank(s.queries, s.count) && ps != [] && ArePairs(ps)
    requires FirstFit(ps, |s.queries| - s.count) && !ValuesPresent(ps, |s.queries| - s.count)
    ensures var t := Finish(Run(s, Join(ps)));
      !(t.queries == Filled(s.queries, s.count, ps) && t.count == s.count + Least(|ps|, |s.queries| - s.count))
    decreases |ps|
  {
    hide Join, Finish, Run, Fits, IsPair, Advanced;
    assert Fits(ps[0]) && Fits(ps[1]) && IsPair(ps[1]);
    if ps[0].value == "" {
      EmptyValueSpoils(s, ps);
      assert Filled(s.queries, s.count, ps)[s.count + 1] == Stored(ps[1]);
      StoredKey(ps[1]);
    } else {
      hide Filled;
      Advance(s, ps);
      AdvanceFills(s, ps);
      var i :| 0 <= i < Least(|ps|, |s.queries| - s.count) - 1 && ps[i].value == "";
      assert ps[1..][i - 1].value == "";
      assert forall i | 0 <= i < |ps[1..]| :: ps[1..][i] == ps[i + 1];
      MissingValueShows(Advanced(s, ps[0]), ps[1..]);
    }
  }

  lemma {:induction false} StoredKey(p: Pair)
    requires IsPair(p)
    ensures Stored(p).key[0] != NUL
  {
    assert Stored(p).key[0] == p.key[0] && !Special(p.key[0]);
  }

  // ----- marks never get into a value -----

  predicate Unmarked(s: State) {
    s.Ok() && forall i | 0 <= i < |s.queries| :: '=' !in s.queries[i].value && '?' !in s.queries[i].value
  }

  lemma {:induction false} StaysUnmarked(s: State, url: string)
    requires Unmarked(s)
    ensures Unmarked(Run(s, url))
    decreases |url|
  {
    if url != "" && s.stop == Running {
      StepUnmarked(s, url[0]);
      hide Step, Unmarked;
      StaysUnmarked(Step(s, url[0]), url[1..]);
    }
  }

  lemma {:induction false} PutUnmarked(s: State, at: nat, c: char)
    requires Unmarked(s) && s.count < |s.queries| && at < VALUE_SIZE && c != '=' && c != '?'
    ensures Unmarked(PutValue(s, at, c))
  {
  }

  lemma {:induction false} StepUnmarked(s: State, c: char)
    requires Unmarked(s) && s.stop == Running
    ensures Unmarked(Step(s, c))
  {
    if s.count < |s.queries| && s.valueIndex < VALUE_SIZE {
      PutUnmarked(s, s.valueIndex, NUL);
      if s.mode == 3 && s.keyIndex < KEY_SIZE && c != '=' && c != '?' {
        PutUnmarked(PutKey(s, s.keyIndex, NUL).(mode := 2, keyIndex := 0), s.valueIndex, c);
      } else if c != '=' && c != '?' {
        PutUnmarked(s, s.valueIndex, c);
      }
    }
    hide PutValue;
  }

  lemma {:induction false} FinishUnmarked(s: State)
    requires Unmarked(s)
    ensures Unmarked(Finish(s))
  {
    if s.count < |s.queries| && s.valueIndex < VALUE_SIZE { PutUnmarked(s, s.valueIndex, NUL); }
    hide PutValue;
  }

  /** A stored value with a mark in it would show up as one. */
  lemma {:induction false} MarkShows(queries: seq<Query>, ps: seq<Pair>)
    requires ArePairs(ps) && !ValuesUnmarked(ps, |queries|)
    ensures exists i | 0 <= i < |queries| ::
      '=' in Filled(queries, 0, ps)[i].value || '?' in Filled(queries, 0, ps)[i].value
  {
    var i :| 0 <= i < Least(|ps|, |queries|) && ('=' in ps[i].value || '?' in ps[i].value);
    assert IsPair(ps[i]);
    assert Filled(queries, 0, ps)[i].value == Held(ps[i].value, VALUE_SIZE);
    assert forall c | c in ps[i].value :: c in Held(ps[i].value, VALUE_SIZE);
  }

  // ----- whole query strings -----

  lemma {:induction false} UnmarkedFit(ps: seq<Pair>, limit: nat)
    requires ArePairs(ps) && ValuesUnmarked(ps, limit)
    ensures FirstFit(ps, limit)
  {
    forall i | 0 <= i < |ps| && i < limit ensures Fits(ps[i]) {
      assert IsPair(ps[i]);
    }
  }

  lemma {:induction false} FromPath(limit: nat, path: string, text: string)
    requires limit > 0 && Free(path)
    ensures var s := Start(seq(limit, _ => ZERO), 0);
      Ready(s.(mode := 0)) && Run(s, path + "?" + text) == Run(s.(mode := 0), text)
  {
    var s := Start(seq(limit, _ => ZERO), 0);
    PathSkipped(s, path);
    assert path + "?" + text == path + (['?'] + text);
    RunOver(s, path, ['?'] + text);
    RunOne(s, '?', text);
    assert Step(s, '?') == s.(mode := 0);
  }

  /** For any path and pairs, values with any marks and keys without `=` included: the parser
      stores exactly the first pairs, as many as there is room for, if and only if every
      stored value before the last is non-empty and no stored value holds `=` or `?`. */
  lemma {:induction false} StoresExactly(limit: nat, path: string, ps: seq<Pair>)
    requires limit > 0 && Free(path) && ArePairs(ps)
    ensures var blank := seq(limit, _ => ZERO);
      var t := Finish(Run(Start(blank, 0), Url(path, ps)));
      t.queries == Filled(blank, 0, ps) && t.count == Least(|ps|, limit) <==>
        ValuesPresent(ps, limit) && ValuesUnmarked(ps, limit)
  {
    var blank := seq(limit, _ => ZERO);
    var s := Start(blank, 0);
    FromPath(limit, path, Join(ps));
    if ps == [] {
      assert Filled(blank, 0, ps) == blank;
    } else if !ValuesUnmarked(ps, limit) {
      assert Unmarked(s);
      hide *;
      StaysUnmarked(s, Url(path, ps));
      FinishUnmarked(Run(s, Url(path, ps)));
      MarkShows(blank, ps);
      NotFilled(blank, ps, Finish(Run(s, Url(path, ps))));
    } else {
      UnmarkedFit(ps, limit);
      if ValuesPresent(ps, limit) {
        StoresPairs(s.(mode := 0), ps);
      } else {
        MissingValueShows(s.(mode := 0), ps);
      }
    }
  }

  lemma {:induction false} NotFilled(queries: seq<Query>, ps: seq<Pair>, t: State)
    requires ArePairs(ps) && Unmarked(t) && exists i | 0 <= i < |queries| ::
      '=' in Filled(queries, 0, ps)[i].value || '?' in Filled(queries, 0, ps)[i].value
    ensures t.queries != Filled(queries, 0, ps)
  {
  }

  /** First pair with that key. */
  function Lookup(ps: seq<Pair>, key: string): Option<nat> {
    if ps == [] then None
    else if ps[0].key == key then Some(0)
    else
      match Lookup(ps[1..], key)
      case None => None
      case Some(n) => Some(n + 1)
  }

  /** A lookup answers the first stored pair with the key, or NULL when there is none. */
  lemma {:induction false} LookupStored(queries: seq<Query>, ps: seq<Pair>, key: string)
    requires ArePairs(ps) && |queries| == |ps| && forall i | 0 <= i < |ps| :: queries[i] == Stored(ps[i])
    ensures FirstQuery(queries, key) == Lookup(ps, key)
  {
    if ps != [] {
      assert IsPair(ps[0]);
      assert NUL !in ps[0].key && !Special(ps[0].key[0]);
      HeldIsString(ps[0].key, KEY_SIZE);
      assert queries[0].key[0] == ps[0].key[0];
      assert forall i | 0 <= i < |ps[1..]| :: ps[1..][i] == ps[i + 1];
      LookupStored(queries[1..], ps[1..], key);
    }
  }
}
