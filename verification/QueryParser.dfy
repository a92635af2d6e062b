/** The query-string automaton of queryparser.c. */
module QueryParser {
  import opened CStrings

  const KEY_SIZE := 64
  const VALUE_SIZE := 1024

  /** `struct qparser_query`, both buffers in full. */
  datatype Query = Query(key: seq<char>, value: seq<char>)

  function Zeros(n: nat): (z: seq<char>)
    ensures |z| == n && forall i | 0 <= i < n :: z[i] == NUL
  {
    seq(n, _ => NUL)
  }

  const ZERO := Query(Zeros(KEY_SIZE), Zeros(VALUE_SIZE))

  predicate Sized(q: Query) {
    |q.key| == KEY_SIZE && |q.value| == VALUE_SIZE
  }

  /** How the parser stopped. `Undefined` is a write outside a buffer. */
  datatype Stop = Running | Done | QueriesLimit | KeyLimit | ValueLimit | Undefined

  /** `mode` is the state variable of the code: -1 before the query string, then
      0 QUERY_ON_KEY, 1 QUERY_ON_KEY_VALUE_END, 2 QUERY_ON_VALUE, 3 QUERY_ON_VALUE_KEY_END. */
  datatype State = State(queries: seq<Query>, count: nat, keyIndex: nat, valueIndex: nat, mode: int, stop: Stop) {
    predicate Ok() {
      (forall i | 0 <= i < |queries| :: Sized(queries[i]))
      && -1 <= mode <= 3 && keyIndex <= KEY_SIZE && valueIndex <= VALUE_SIZE
    }
  }

  function PutKey(s: State, at: nat, c: char): (t: State)
    requires s.Ok() && s.count < |s.queries| && at < KEY_SIZE
    ensures t.Ok() && t == s.(queries := t.queries) && |t.queries| == |s.queries|
  {
    var q := s.queries[s.count];
    s.(queries := s.queries[s.count := q.(key := q.key[at := c])])
  }

  function PutValue(s: State, at: nat, c: char): (t: State)
    requires s.Ok() && s.count < |s.queries| && at < VALUE_SIZE
    ensures t.Ok() && t == s.(queries := t.queries) && |t.queries| == |s.queries|
  {
    var q := s.queries[s.count];
    s.(queries := s.queries[s.count := q.(value := q.value[at := c])])
  }

  /** A pair is committed by the first character of the next key. */
  function Commit(s: State): (t: State)
    requires s.Ok() && s.count < |s.queries|
    ensures t.Ok() && |t.queries| == |s.queries| && (t.stop == Running ==> t.count < |t.queries| && t.mode == 0)
    ensures t.keyIndex == s.keyIndex
  {
    if s.keyIndex >= KEY_SIZE then s.(stop := KeyLimit)
    else if s.valueIndex >= VALUE_SIZE then s.(stop := Undefined)
    else
      var t := PutValue(s, s.valueIndex, NUL).(mode := 0, valueIndex := 0, count := s.count + 1);
      if t.count >= |s.queries| then t.(stop := QueriesLimit) else t.(stop := Running)
  }

  function OnKey(s: State, c: char): (t: State)
    requires s.Ok() && s.count < |s.queries|
    ensures t.Ok() && |t.queries| == |s.queries|
  {
    if s.keyIndex >= KEY_SIZE then s.(stop := KeyLimit)
    else PutKey(s, s.keyIndex, c).(keyIndex := s.keyIndex + 1)
  }

  function OnValue(s: State, c: char): (t: State)
    requires s.Ok() && s.count < |s.queries|
    ensures t.Ok() && |t.queries| == |s.queries|
  {
    if s.valueIndex >= VALUE_SIZE then s.(stop := ValueLimit)
    else if s.mode == 3 && s.keyIndex >= KEY_SIZE then s.(stop := Undefined)
    else
      var t := if s.mode == 3 then PutKey(s, s.keyIndex, NUL).(mode := 2, keyIndex := 0) else s;
      PutValue(t, t.valueIndex, c).(valueIndex := t.valueIndex + 1)
  }

  /** One turn of the loop. */
  function Step(s: State, c: char): (t: State)
    requires s.Ok() && s.stop == Running
    ensures t.Ok() && |t.queries| == |s.queries|
  {
    if s.count >= |s.queries| then s.(stop := QueriesLimit)
    else if c == '?' then s.(mode := 0)
    else if c == '=' then s.(mode := 3)
    else if c == '&' then s.(mode := 1)
    else if s.mode == 0 then OnKey(s, c)
    else if s.mode == 1 then
      var t := Commit(s);
      if t.stop == Running then OnKey(t, c) else t
    else if s.mode == -1 then s
    else OnValue(s, c)
  }

  function Run(s: State, url: string): (t: State)
    requires s.Ok()
    ensures t.Ok() && |t.queries| == |s.queries|
    decreases |url|
  {
    if url == "" || s.stop != Running then s else Run(Step(s, url[0]), url[1..])
  }

  /** After the loop the pair in progress is kept if its key is not empty. */
  function Finish(s: State): (t: State)
    requires s.Ok()
    ensures t.Ok() && |t.queries| == |s.queries|
  {
    if s.stop != Running then s
    else if s.count >= |s.queries| then s.(stop := Undefined)
    else if s.queries[s.count].key[0] == NUL then s.(stop := Done)
    else if s.keyIndex >= KEY_SIZE then s.(stop := KeyLimit)
    else if s.valueIndex >= VALUE_SIZE then s.(stop := Undefined)
    else PutValue(s, s.valueIndex, NUL).(count := s.count + 1, stop := Done)
  }

  function Start(queries: seq<Query>, count: nat): State {
    State(queries, count, 0, 0, -1, Running)
  }

  // ----- the parser -----

  class Info {
    var length: nat
    var queriesLength: nat
    var queries: array<Query>

    ghost predicate Valid()
      reads this, queries
    {
      queries.Length == length && forall i | 0 <= i < length :: Sized(queries[i])
    }

    /** `qparser_init`. */
    constructor (buffer: array<Query>)
      modifies buffer
      ensures Valid() && queries == buffer && length == buffer.Length && queriesLength == 0
      ensures forall i | 0 <= i < length :: queries[i] == ZERO
    {
      length, queriesLength, queries := buffer.Length, 0, buffer;
      new;
      for i := 0 to buffer.Length
        invariant queries == buffer && length == buffer.Length && queriesLength == 0
        invariant forall k | 0 <= k < i :: buffer[k] == ZERO
      {
        buffer[i] := ZERO;
      }
    }

    /** `qparser_parse` on the C string `url`. */
    method Parse(url: string) returns (stop: Stop)
      requires Valid()
      modifies this`queriesLength, queries
      ensures Valid()
      ensures var t := Finish(Run(Start(old(queries[..]), old(queriesLength)), url));
        queries[..] == t.queries && queriesLength == t.count && stop == t.stop
    {
      var keyIndex: nat, valueIndex: nat, mode := 0, 0, -1;
      ghost var start := Start(queries[..], queriesLength);
      var i := 0;
      while i < |url|
        invariant i <= |url| && Valid() && -1 <= mode <= 3 && keyIndex <= KEY_SIZE && valueIndex <= VALUE_SIZE
        invariant Run(start, url)
          == Run(State(queries[..], queriesLength, keyIndex, valueIndex, mode, Running), url[i..])
      {
        ghost var s := State(queries[..], queriesLength, keyIndex, valueIndex, mode, Running);
        assert Run(s, url[i..]) == Run(Step(s, url[i]), url[i + 1..]);
        stop, keyIndex, valueIndex, mode := Turn(url[i], keyIndex, valueIndex, mode);
        if stop != Running { return; }
        i := i + 1;
      }
      stop := End(keyIndex, valueIndex, mode);
    }

    /** The body of the loop. */
    method Turn(c: char, keyIndex: nat, valueIndex: nat, mode: int) returns (stop: Stop, k: nat, v: nat, m: int)
      requires Valid() && -1 <= mode <= 3 && keyIndex <= KEY_SIZE && valueIndex <= VALUE_SIZE
      modifies this`queriesLength, queries
      ensures Valid()
      ensures State(queries[..], queriesLength, k, v, m, stop)
        == Step(State(old(queries[..]), old(queriesLength), keyIndex, valueIndex, mode, Running), c)
    {
      stop, k, v, m := Running, keyIndex, valueIndex, mode;
      if queriesLength >= length { return QueriesLimit, k, v, m; }
      match c
      case '?' => m := 0;
      case '=' => m := 3;
      case '&' => m := 1;
      case _ =>
        if m == 0 || m == 1 {
          if m == 1 {
            if k >= 64 { return KeyLimit, k, v, m; }
            if v >= 1024 { return Undefined, k, v, m; }
            queries[queriesLength] := queries[queriesLength].(value := queries[queriesLength].value[v := NUL]);
            m, v := 0, 0;
            queriesLength := queriesLength + 1;
            if queriesLength >= length { return QueriesLimit, k, v, m; }
          }
          if k >= 64 { return KeyLimit, k, v, m; }
          queries[queriesLength] := queries[queriesLength].(key := queries[queriesLength].key[k := c]);
          k := k + 1;
        } else if m == 2 || m == 3 {
          if v >= 1024 { return ValueLimit, k, v, m; }
          if m == 3 {
            if k >= 64 { return Undefined, k, v, m; }
            queries[queriesLength] := queries[queriesLength].(key := queries[queriesLength].key[k := NUL]);
            m, k := 2, 0;
          }
          queries[queriesLength] := queries[queriesLength].(value := queries[queriesLength].value[v := c]);
          v := v + 1;
        }
    }

    /** What follows the loop. */
    method End(keyIndex: nat, valueIndex: nat, ghost mode: int) returns (stop: Stop)
      requires Valid() && -1 <= mode <= 3 && keyIndex <= KEY_SIZE && valueIndex <= VALUE_SIZE
      modifies this`queriesLength, queries
      ensures Valid()
      ensures var t := Finish(State(old(queries[..]), old(queriesLength), keyIndex, valueIndex, mode, Running));
        queries[..] == t.queries && queriesLength == t.count && stop == t.stop
    {
      if queriesLength >= length { return Undefined; }
      if queries[queriesLength].key[0] != NUL {
        if keyIndex >= 64 { return KeyLimit; }
        if valueIndex >= 1024 { return Undefined; }
        queries[queriesLength] := queries[queriesLength].(value := queries[queriesLength].value[valueIndex := NUL]);
        queriesLength := queriesLength + 1;
      }
      return Done;
    }

    /** `qparser_get_query`, as the index of the query it points to. */
    method GetQuery(key: string) returns (r: Option<nat>)
      requires Valid() && queriesLength <= length && NUL !in key
      ensures r == FirstQuery(queries[..queriesLength], key)
    {
      var i := 0;
      assert queries[..queriesLength][0..] == queries[..queriesLength];
      while i < queriesLength
        invariant i <= queriesLength
        invariant FirstQuery(queries[..queriesLength], key) ==
          match FirstQuery(queries[..queriesLength][i..], key)
          case None => None
          case Some(n) => Some(i + n)
      {
        ghost var rest := queries[..queriesLength][i..];
        assert rest[0] == queries[i] && rest[1..] == queries[..queriesLength][i + 1..];
        if queries[i].key[0] != NUL && CStr(queries[i].key) == key { return Some(i); }
        i := i + 1;
      }
      return None;
    }
  }

  predicate HasKey(q: Query, key: string) {
    q.key != [] && q.key[0] != '\0' && CStr(q.key) == key
  }

  /** The answer of a lookup: the least index whose key is not empty and is the key wanted. */
  lemma {:induction false} FirstQuerySpelled(queries: seq<Query>, key: string)
    ensures match FirstQuery(queries, key)
      case None => forall i | 0 <= i < |queries| :: !HasKey(queries[i], key)
      case Some(n) => HasKey(queries[n], key) && forall i | 0 <= i < n :: !HasKey(queries[i], key)
  {
    hide CStr;
    if queries != [] {
      FirstQuerySpelled(queries[1..], key);
      assert forall i | 0 < i < |queries| :: queries[i] == queries[1..][i - 1];
    }
  }

  /** First query whose key is not empty and equals `key`. */
  function FirstQuery(queries: seq<Query>, key: string): (r: Option<nat>)
    ensures r.Some? ==> r.value < |queries|
  {
    if queries == [] then None
    else if queries[0].key != [] && queries[0].key[0] != NUL && CStr(queries[0].key) == key then Some(0)
    else
      match FirstQuery(queries[1..], key)
      case None => None
      case Some(n) => Some(n + 1)
  }
}
