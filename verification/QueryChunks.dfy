/** What the query-string parser does on any text. The five states of the automaton come down
    to one rule for each stretch between two marks. */
module QueryChunks {
  import opened CStrings
  import opened QueryParser
  import opened QueryRoundTrip

  /** A mark and the text up to the next one. */
  datatype Chunk = Chunk(mark: char, text: string)

  predicate IsChunk(c: Chunk) {
    (c.mark == '?' || c.mark == '=' || c.mark == '&') && Free(c.text)
  }

  predicate AreChunks(cs: seq<Chunk>) {
    forall i | 0 <= i < |cs| :: IsChunk(cs[i])
  }

  function Text(cs: seq<Chunk>): string {
    if cs == [] then "" else [cs[0].mark] + cs[0].text + Text(cs[1..])
  }

  // ----- the rules -----

  function Overwritten(b: seq<char>, at: nat, text: string): (r: seq<char>)
    requires at + |text| <= |b|
    ensures |r| == |b|
  {
    b[..at] + text + b[at + |text|..]
  }

  function Cut(text: string, room: nat): string {
    if |text| <= room then text else text[..room]
  }

  /** After `?`, and after the first character behind `&`, text goes into the key from the
      key index on. */
  function TakeKey(s: State, text: string): (t: State)
    requires s.Ok() && s.count < |s.queries|
    ensures t.Ok() && |t.queries| == |s.queries|
  {
    var q, part := s.queries[s.count], Cut(text, 64 - s.keyIndex);
    var t := s.(queries := s.queries[s.count := q.(key := Overwritten(q.key, s.keyIndex, part))],
                keyIndex := s.keyIndex + |part|);
    if |part| < |text| then t.(stop := KeyLimit) else t
  }

  /** After `=`, text ends the key at the key index, which goes back to 0, and is added to the
      value. No text, no effect. */
  function TakeValue(s: State, text: string): (t: State)
    requires s.Ok() && s.count < |s.queries|
    ensures t.Ok() && |t.queries| == |s.queries|
  {
    if text == "" then s
    else if s.valueIndex >= 1024 then s.(stop := ValueLimit)
    else if s.keyIndex >= 64 then s.(stop := Undefined)
    else
      var q, part := s.queries[s.count], Cut(text, 1024 - s.valueIndex);
      var r := Query(q.key[s.keyIndex := '\0'], Overwritten(q.value, s.valueIndex, part));
      var t := s.(queries := s.queries[s.count := r], keyIndex := 0, valueIndex := s.valueIndex + |part|);
      if |part| < |text| then t.(stop := ValueLimit) else t
  }

  /** After `&`, text ends the value, moves on to the next slot and goes into its key; the key
      index stays. No text, no effect. */
  function TakeNext(s: State, text: string): (t: State)
    requires s.Ok() && s.count < |s.queries|
    ensures t.Ok() && |t.queries| == |s.queries|
  {
    if text == "" then s
    else if s.keyIndex >= 64 then s.(stop := KeyLimit)
    else if s.valueIndex >= 1024 then s.(stop := Undefined)
    else
      var q := s.queries[s.count];
      var t := s.(queries := s.queries[s.count := q.(value := q.value[s.valueIndex := '\0'])],
                  valueIndex := 0, count := s.count + 1);
      if t.count >= |t.queries| then t.(stop := QueriesLimit) else TakeKey(t, text)
  }

  function Take(s: State, c: Chunk): (t: State)
    requires s.Ok() && s.count < |s.queries|
    ensures t.Ok() && |t.queries| == |s.queries|
  {
    if c.mark == '?' then TakeKey(s, c.text)
    else if c.mark == '=' then TakeValue(s, c.text)
    else TakeNext(s, c.text)
  }

  /** All chunks in order, until the parser stops. The mode is never consulted. */
  function TakeAll(s: State, cs: seq<Chunk>): (t: State)
    requires s.Ok()
    ensures t.Ok() && |t.queries| == |s.queries|
    decreases |cs|
  {
    if cs == [] || s.stop != Running then s
    else if s.count >= |s.queries| then s.(stop := QueriesLimit)
    else TakeAll(Take(s, cs[0]), cs[1..])
  }

  /** At the end, a slot with a non-empty key is finished. */
  function Finished(s: State): State
    requires s.Ok()
  {
    if s.stop != Running then s
    else if s.count >= |s.queries| then s.(stop := Undefined)
    else if s.queries[s.count].key[0] == '\0' then s.(stop := Done)
    else if s.keyIndex >= 64 then s.(stop := KeyLimit)
    else if s.valueIndex >= 1024 then s.(stop := Undefined)
    else
      var q := s.queries[s.count];
      s.(queries := s.queries[s.count := q.(value := q.value[s.valueIndex := '\0'])],
         count := s.count + 1, stop := Done)
  }

  // ----- the automaton follows the rules -----

  /** Equal but for the mode. */
  predicate Same(s: State, t: State) {
    s == t.(mode := s.mode)
  }

  lemma {:induction false} OverwrittenMore(b: seq<char>, at: nat, text: string)
    requires text != "" && at + |text| <= |b|
    ensures Overwritten(b[at := text[0]], at + 1, text[1..]) == Overwritten(b, at, text)
  {
  }

  lemma {:induction false} OverwrittenNone(b: seq<char>, at: nat)
    requires at <= |b|
    ensures Overwritten(b, at, "") == b
  {
  }

  /** One character of a key. */
  lemma {:induction false} KeyCharacter(s: State, text: string)
    requires s.Ok() && s.count < |s.queries| && text != "" && s.keyIndex < 64
    ensures TakeKey(PutKey(s, s.keyIndex, text[0]).(keyIndex := s.keyIndex + 1), text[1..]) == TakeKey(s, text)
  {
    var room := 64 - s.keyIndex;
    var part := Cut(text, room);
    assert part != "" && part[0] == text[0] && part[1..] == Cut(text[1..], room - 1);
    var q := s.queries[s.count];
    OverwrittenMore(q.key, s.keyIndex, part);
  }

  lemma {:induction false} KeyNothing(s: State)
    requires s.Ok() && s.count < |s.queries|
    ensures TakeKey(s, "") == s
  {
    OverwrittenNone(s.queries[s.count].key, s.keyIndex);
  }

  lemma {:induction false} KeyFull(s: State, text: string)
    requires s.Ok() && s.count < |s.queries| && s.keyIndex == 64 && text != ""
    ensures TakeKey(s, text) == s.(stop := KeyLimit)
  {
    OverwrittenNone(s.queries[s.count].key, s.keyIndex);
    assert Cut(text, 0) == "";
  }

  lemma {:induction false} KeyRun(s: State, text: string)
    requires s.Ok() && s.stop == Running && s.count < |s.queries| && s.mode == 0 && Free(text)
    ensures Run(s, text) == TakeKey(s, text)
    decreases |text|
  {
    hide TakeKey;
    if text == "" {
      KeyNothing(s);
    } else {
      assert !Special(text[0]);
      if s.keyIndex < 64 {
        KeyCharacter(s, text);
        KeyRun(Step(s, text[0]), text[1..]);
      } else {
        KeyFull(s, text);
      }
    }
  }

  /** The value alone, the key having been ended. */
  function TakeMore(s: State, text: string): (t: State)
    requires s.Ok() && s.count < |s.queries|
    ensures t.Ok() && |t.queries| == |s.queries|
  {
    var q, part := s.queries[s.count], Cut(text, 1024 - s.valueIndex);
    var t := s.(queries := s.queries[s.count := q.(value := Overwritten(q.value, s.valueIndex, part))],
                valueIndex := s.valueIndex + |part|);
    if |part| < |text| then t.(stop := ValueLimit) else t
  }

  lemma {:induction false} ValueCharacter(s: State, text: string)
    requires s.Ok() && s.count < |s.queries| && text != "" && s.valueIndex < 1024
    ensures TakeMore(PutValue(s, s.valueIndex, text[0]).(valueIndex := s.valueIndex + 1), text[1..])
      == TakeMore(s, text)
  {
    var room := 1024 - s.valueIndex;
    var part := Cut(text, room);
    assert part != "" && part[0] == text[0] && part[1..] == Cut(text[1..], room - 1);
    var q := s.queries[s.count];
    OverwrittenMore(q.value, s.valueIndex, part);
  }

  lemma {:induction false} ValueEdges(s: State, text: string)
    requires s.Ok() && s.count < |s.queries|
    ensures TakeMore(s, "") == s
    ensures s.valueIndex == 1024 && text != "" ==> TakeMore(s, text) == s.(stop := ValueLimit)
  {
    OverwrittenNone(s.queries[s.count].value, s.valueIndex);
    assert Cut(text, 0) == "";
  }

  lemma {:induction false} ValueRun(s: State, text: string)
    requires s.Ok() && s.stop == Running && s.count < |s.queries| && s.mode == 2 && Free(text)
    ensures Run(s, text) == TakeMore(s, text)
    decreases |text|
  {
    hide TakeMore;
    ValueEdges(s, text);
    if text != "" {
      assert !Special(text[0]);
      if s.valueIndex < 1024 {
        ValueCharacter(s, text);
        ValueRun(Step(s, text[0]), text[1..]);
      }
    }
  }

  lemma {:induction false} AfterEquals(s: State, text: string)
    requires s.Ok() && s.stop == Running && s.count < |s.queries| && s.mode == 3 && Free(text)
    ensures Same(Run(s, text), TakeValue(s, text))
  {
    if text != "" {
      assert !Special(text[0]);
      if s.valueIndex < 1024 && s.keyIndex < 64 {
        var e := PutKey(s, s.keyIndex, NUL).(mode := 2, keyIndex := 0);
        ValueRun(e, text);
        assert Step(e, text[0]) == Step(s, text[0]);
        assert Run(e, text) == Run(s, text);
        assert TakeMore(e, text) == TakeValue(s, text).(mode := 2);
      }
    }
  }

  lemma {:induction false} AfterAmpersand(s: State, text: string)
    requires s.Ok() && s.stop == Running && s.count < |s.queries| && s.mode == 1 && Free(text)
    ensures Same(Run(s, text), TakeNext(s, text))
  {
    if text != "" {
      assert !Special(text[0]);
      var u := Commit(s);
      assert Step(s, text[0]) == if u.stop == Running then OnKey(u, text[0]) else u;
      if u.stop == Running {
        KeyRun(u, text);
        assert Step(u, text[0]) == OnKey(u, text[0]);
        assert Run(s, text) == Run(u, text);
        TakesKeyToo(u, s.mode, text);
      } else {
        hide Step;
        assert Run(s, text) == Run(u, text[1..]) == u;
      }
    }
  }

  lemma {:induction false} TakesKeyToo(s: State, mode: int, text: string)
    requires s.Ok() && s.count < |s.queries| && -1 <= mode <= 3
    ensures TakeKey(s.(mode := mode), text) == TakeKey(s, text).(mode := mode)
  {
  }

  lemma {:induction false} TakeSame(s: State, t: State, c: Chunk)
    requires s.Ok() && t.Ok() && s.count < |s.queries| && Same(s, t)
    ensures Same(Take(s, c), Take(t, c))
  {
    assert Same(TakeKey(s, c.text), TakeKey(t, c.text)) && Same(TakeValue(s, c.text), TakeValue(t, c.text));
    hide TakeKey, TakeValue;
    if c.mark == '&' { NextSame(s, t, c.text); }
    hide TakeNext;
  }

  lemma {:induction false} NextSame(s: State, t: State, text: string)
    requires s.Ok() && t.Ok() && s.count < |s.queries| && Same(s, t)
    ensures Same(TakeNext(s, text), TakeNext(t, text))
  {
  }

  lemma {:induction false} ChunkTaken(s: State, c: Chunk)
    requires s.Ok() && s.stop == Running && s.count < |s.queries| && IsChunk(c)
    ensures Same(Run(s, [c.mark] + c.text), Take(s, c))
  {
    var m := Step(s, c.mark);
    RunOne(s, c.mark, c.text);
    assert m == s.(mode := m.mode);
    hide Run, Step;
    if c.mark == '?' {
      KeyRun(m, c.text);
    } else if c.mark == '=' {
      AfterEquals(m, c.text);
    } else {
      AfterAmpersand(m, c.text);
    }
    hide TakeKey, TakeValue, TakeNext;
    TakeSame(s, m, c);
  }

  lemma {:induction false} ChunksTaken(s: State, t: State, cs: seq<Chunk>)
    requires s.Ok() && t.Ok() && Same(s, t) && AreChunks(cs)
    ensures Same(Run(s, Text(cs)), TakeAll(t, cs))
    decreases |cs|
  {
    if cs != [] && s.stop == Running {
      if s.count >= |s.queries| {
        assert Text(cs)[0] == cs[0].mark;
      } else {
        var c := cs[0];
        assert IsChunk(c);
        assert AreChunks(cs[1..]) by { assert forall i | 0 <= i < |cs[1..]| :: cs[1..][i] == cs[i + 1]; }
        hide Step, Take, IsChunk;
        ChunkTaken(s, c);
        TakeSame(s, t, c);
        RunOver(s, [c.mark] + c.text, Text(cs[1..]));
        ChunksTaken(Run(s, [c.mark] + c.text), Take(t, c), cs[1..]);
      }
    }
  }

  /** On every text: what precedes the first mark is skipped, and each mark with the text
      after it does what its rule says. */
  lemma {:induction false} ParsedByChunks(queries: seq<Query>, count: nat, path: string, cs: seq<Chunk>)
    requires (forall i | 0 <= i < |queries| :: Sized(queries[i])) && Free(path) && AreChunks(cs)
    requires count < |queries|
    ensures var s := Start(queries, count);
      Same(Finish(Run(s, path + Text(cs))), Finished(TakeAll(s, cs)))
  {
    var s := Start(queries, count);
    PathSkipped(s, path);
    RunOver(s, path, Text(cs));
    ChunksTaken(s, s, cs);
    hide Run, TakeAll;
  }

  /** Every C string is a path and chunks. */
  lemma {:induction false} AnyUrl(url: string) returns (path: string, cs: seq<Chunk>)
    requires NUL !in url
    ensures url == path + Text(cs) && Free(path) && AreChunks(cs)
  {
    if url == "" {
      path, cs := "", [];
    } else {
      var rest, more := AnyUrl(url[1..]);
      hide Text;
      if Special(url[0]) {
        path, cs := "", [Chunk(url[0], rest)] + more;
        TextJoin(Chunk(url[0], rest), more);
      } else {
        path, cs := [url[0]] + rest, more;
      }
      assert url == [url[0]] + url[1..];
    }
  }

  lemma {:induction false} TextJoin(c: Chunk, cs: seq<Chunk>)
    ensures Text([c] + cs) == [c.mark] + c.text + Text(cs)
  {
    assert ([c] + cs)[1..] == cs;
  }

  // ----- marks inside a value -----

  function Parsed(limit: nat, url: string): State {
    Finish(Run(Start(seq(limit, _ => ZERO), 0), url))
  }

  /** One key and two texts after it, each behind a mark. */
  lemma {:induction false} ThreeChunks(
      limit: nat, path: string, key: string, mark: char, a: string, last: char, b: string)
    requires limit > 0 && Free(path) && Free(key) && IsChunk(Chunk(mark, a)) && IsChunk(Chunk(last, b))
    ensures var s := Start(seq(limit, _ => ZERO), 0);
      var t := Take(s, Chunk('?', key));
      t.stop == Running && t.count < |t.queries| ==>
        var u := Take(t, Chunk(mark, a));
        u.stop == Running && u.count < |u.queries| ==>
          Same(Parsed(limit, path + "?" + key + [mark] + a + [last] + b), Finished(Take(u, Chunk(last, b))))
  {
    var s := Start(seq(limit, _ => ZERO), 0);
    var c, d, e := Chunk('?', key), Chunk(mark, a), Chunk(last, b);
    TextJoin(e, []);
    TextJoin(d, [e]);
    TextJoin(c, [d] + [e]);
    var cs := [c] + ([d] + ([e] + []));
    assert [d] + ([e] + []) == [d] + [e] && ([last] + b) + "" == [last] + b;
    assert path + Text(cs) == path + "?" + key + [mark] + a + [last] + b;
    ParsedByChunks(s.queries, 0, path, cs);
    hide Take, Run, Finish, Finished, Start, Text;
    assert cs[1..] == [d] + [e] && cs[1..][1..] == [e] && cs[1..][1..][1..] == [];
    var t := Take(s, c);
    if t.stop == Running && t.count < |t.queries| {
      var u := Take(t, d);
      assert TakeAll(s, cs) == TakeAll(t, cs[1..]) == TakeAll(u, cs[1..][1..]);
      if u.stop == Running && u.count < |u.queries| {
        assert TakeAll(u, [e]) == TakeAll(Take(u, e), []) == Take(u, e);
      }
    }
  }

  lemma {:induction false} FillsZeros(text: string, done: string, size: nat)
    requires |done + text| <= size
    ensures Overwritten(Held(done, size), |done|, text) == Held(done + text, size)
  {
  }

  lemma {:induction false} FirstKey(limit: nat, key: string)
    requires limit > 0 && |key| < 64
    ensures var s := Start(seq(limit, _ => ZERO), 0);
      Take(s, Chunk('?', key)) == s.(queries := s.queries[0 := Query(Held(key, 64), ZERO.value)], keyIndex := |key|)
  {
    assert Held("", 64) == ZERO.key && "" + key == key;
    FillsZeros(key, "", 64);
  }

  lemma {:induction false} FirstValue(s: State, key: string, a: string)
    requires s.Ok() && s.count < |s.queries| && s.keyIndex == |key| < 64 && s.valueIndex == 0 && 0 < |a| < 1024
    requires s.queries[s.count] == Query(Held(key, 64), ZERO.value)
    ensures Take(s, Chunk('=', a)) == s.(queries := s.queries[s.count := Query(Held(key, 64), Held(a, 1024))],
                                         keyIndex := 0, valueIndex := |a|)
  {
    assert Held("", 1024) == ZERO.value && "" + a == a;
    FillsZeros(a, "", 1024);
    HeldTerminated(key, 64);
  }

  /** `=` inside a value empties the key: the slot holds both parts of the value, is not
      counted, and no lookup finds it. */
  lemma {:induction false} InnerEquals(limit: nat, path: string, key: string, a: string, b: string, wanted: string)
    requires limit > 0 && Free(path) && Free(key) && Free(a) && Free(b)
    requires 0 < |key| < 64 && a != "" && b != "" && |a| + |b| < 1024
    ensures var t := Parsed(limit, path + "?" + key + "=" + a + "=" + b);
      && t.count == 0 && t.stop == Done && FirstQuery(t.queries[..t.count], wanted) == None
      && t.queries[0] == Query(Held(key, 64)[0 := '\0'], Held(a + b, 1024))
  {
    var s := Start(seq(limit, _ => ZERO), 0);
    FirstKey(limit, key);
    var t := Take(s, Chunk('?', key));
    FirstValue(t, key, a);
    var u := Take(t, Chunk('=', a));
    FillsZeros(b, a, 1024);
    ThreeChunks(limit, path, key, '=', a, '=', b);
    assert [('=')] == "=";
    hide Parsed, Run;
  }

  /** `=` at the end of a value is dropped. */
  lemma {:induction false} TrailingEquals(limit: nat, path: string, key: string, a: string)
    requires limit > 0 && Free(path) && Free(key) && Free(a) && 0 < |key| < 64 && 0 < |a| < 1024
    ensures var t := Parsed(limit, path + "?" + key + "=" + a + "=");
      t.count == 1 && t.stop == Done && t.queries[0] == Query(Held(key, 64), Held(a, 1024))
  {
    var s := Start(seq(limit, _ => ZERO), 0);
    FirstKey(limit, key);
    var t := Take(s, Chunk('?', key));
    FirstValue(t, key, a);
    ThreeChunks(limit, path, key, '=', a, '=', "");
    HeldTerminated(a, 1024);
    assert key[0] == Held(key, 64)[0] && !Special(key[0]);
    assert path + "?" + key + ['='] + a + ['='] + "" == path + "?" + key + "=" + a + "=";
    hide Parsed, Run;
  }

  /** `?` inside a value sends what follows into the key, from its start. */
  lemma {:induction false} InnerQuestion(limit: nat, path: string, key: string, a: string, b: string)
    requires limit > 0 && Free(path) && Free(key) && Free(a) && Free(b)
    requires 0 < |key| < 64 && 0 < |a| < 1024 && 0 < |b| < 64
    ensures var t := Parsed(limit, path + "?" + key + "=" + a + "?" + b);
      t.count == 1 && t.stop == Done && t.queries[0] == Query(b + Held(key, 64)[|b|..], Held(a, 1024))
  {
    var s := Start(seq(limit, _ => ZERO), 0);
    FirstKey(limit, key);
    var t := Take(s, Chunk('?', key));
    FirstValue(t, key, a);
    ThreeChunks(limit, path, key, '=', a, '?', b);
    HeldTerminated(a, 1024);
    assert Overwritten(Held(key, 64), 0, b) == b + Held(key, 64)[|b|..];
    assert !Special(b[0]);
    assert ['?'] == "?" && ['='] == "=";
    hide Parsed, Run;
  }
}
