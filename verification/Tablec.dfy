/** The hash table of tablec.c: what its operations do to buckets with holes. */
module Tablec {
  import opened Powers

  /** A C `char`, signed. */
  newtype schar = x: int | -128 <= x < 128

  /** The characters of a NUL-terminated key. */
  type Key = k: seq<schar> | 0 !in k

  /** A stored `void *`. */
  type Address = nat

  /** `key == NULL` marks an empty slot. */
  datatype Slot = Empty | Pair(key: Key, value: Address)

  const WORD := 0x1_0000_0000_0000_0000

  // ----- hashing -----

  /** `c & 255`. */
  function ByteOf(c: schar): (b: nat)
    ensures b < 256
  {
    c as int % 256
  }

  /** The base-37 number whose digits are the bytes of the key, by Horner's rule. */
  function Horner(key: seq<schar>): nat {
    if key == [] then 0 else Horner(key[..|key| - 1]) * 37 + ByteOf(key[|key| - 1])
  }

  /** The unsigned byte with the bits of `c`. */
  function Unsigned(c: schar): nat {
    if c >= 0 then c as nat else c as int + 256
  }

  /** The same number as a sum of powers. */
  function Polynomial(key: seq<schar>): nat {
    if key == [] then 0 else Unsigned(key[0]) * Power(37, |key| - 1) + Polynomial(key[1..])
  }

  lemma {:induction false} HornerIsPolynomial(key: seq<schar>)
    ensures Horner(key) == Polynomial(key)
  {
    if key != [] {
      HornerHead(key);
      HornerIsPolynomial(key[1..]);
    }
  }

  lemma {:induction false} ByteIsUnsigned(c: schar)
    ensures ByteOf(c) == Unsigned(c)
  {
  }

  lemma {:induction false} HornerHead(key: seq<schar>)
    requires key != []
    ensures Horner(key) == Unsigned(key[0]) * Power(37, |key| - 1) + Horner(key[1..])
  {
    hide ByteOf, Unsigned;
    var n := |key| - 1;
    if n == 0 {
      ByteIsUnsigned(key[0]);
      assert key[..0] == [] && key[1..] == [];
    } else {
      var init, b := key[..n], Unsigned(key[0]);
      HornerHead(init);
      assert key[1..][..n - 1] == init[1..];
      var p := Power(37, n - 1);
      assert (b * p) * 37 == b * (37 * p);
    }
  }

  function HashOf(key: Key, capacity: nat): (h: nat)
    requires capacity > 0
    ensures h < capacity
  {
    Polynomial(key) % WORD % capacity
  }

  lemma {:induction false} WrapStep(a: nat, b: nat)
    ensures (a % WORD * 37 + b) % WORD == (a * 37 + b) % WORD
  {
  }

  /** Wrapping to 64 bits at every step gives the polynomial wrapped once. */
  method Hash(key: Key, capacity: nat) returns (h: nat)
    requires capacity > 0
    ensures h == HashOf(key, capacity) == Polynomial(key) % 18446744073709551616 % capacity
  {
    var hash, i := 0, 0;
    while i < |key|
      invariant i <= |key| && hash == Horner(key[..i]) % WORD
    {
      WrapStep(Horner(key[..i]), ByteOf(key[i]));
      assert key[..i + 1][..i] == key[..i];
      hash := (hash * 37 + ByteOf(key[i])) % WORD;
      i := i + 1;
    }
    assert key[..i] == key;
    HornerIsPolynomial(key);
    return hash % capacity;
  }

  // ----- buckets -----

  /** The slots of a bucket and its own idea of how many are in use. */
  datatype Bucket = Bucket(slots: seq<Slot>, length: nat)

  /** A whole table. `length` is a `size_t`. */
  datatype State = State(buckets: seq<Bucket>, length: nat)

  function Used(slots: seq<Slot>): (n: nat)
    ensures n <= |slots|
    ensures n == 0 <==> forall i | 0 <= i < |slots| :: slots[i].Empty?
    ensures n == |slots| <==> forall i | 0 <= i < |slots| :: slots[i].Pair?
  {
    if slots == [] then 0 else (if slots[|slots| - 1].Pair? then 1 else 0) + Used(slots[..|slots| - 1])
  }

  /** Highest empty slot below `n`, or -1. */
  function LastEmpty(slots: seq<Slot>, n: nat): (i: int)
    requires n <= |slots|
    ensures -1 <= i < n
    ensures i >= 0 ==> slots[i].Empty?
    ensures forall k | i < k < n :: slots[k].Pair?
  {
    if n == 0 then -1 else if slots[n - 1].Empty? then n - 1 else LastEmpty(slots, n - 1)
  }

  /** Highest slot below `n` that holds `key`, or -1. */
  function LastMatch(slots: seq<Slot>, key: Key, n: nat): (i: int)
    requires n <= |slots|
    ensures -1 <= i < n
    ensures i >= 0 ==> slots[i].Pair? && slots[i].key == key
    ensures forall k | i < k < n :: slots[k].Empty? || slots[k].key != key
  {
    if n == 0 then -1
    else if slots[n - 1].Pair? && slots[n - 1].key == key then n - 1
    else LastMatch(slots, key, n - 1)
  }

  function Blank(n: nat): (slots: seq<Slot>)
    ensures |slots| == n && forall i | 0 <= i < n :: slots[i].Empty?
  {
    seq(n, _ => Empty)
  }

  predicate BucketOk(b: Bucket, index: nat, capacity: nat)
    requires capacity > 0
  {
    PowerOfTwo(|b.slots|) && b.length == Used(b.slots) && AtHome(b.slots, index, capacity)
  }

  predicate AtHome(slots: seq<Slot>, index: nat, capacity: nat)
    requires capacity > 0
  {
    forall i | 0 <= i < |slots| :: slots[i].Pair? ==> HashOf(slots[i].key, capacity) == index
  }

  /** Every key is in its own bucket and every bucket counts its pairs, holes or not. */
  predicate Ok(s: State) {
    s.buckets != [] && s.length < WORD
    && forall i | 0 <= i < |s.buckets| :: BucketOk(s.buckets[i], i, |s.buckets|)
  }

  /** Growing doubles the bucket and writes at index `length`. */
  function Grown(b: Bucket, pair: Slot): Bucket
    requires b.length < 2 * |b.slots|
  {
    Bucket((b.slots + Blank(|b.slots|))[b.length := pair], b.length + 1)
  }

  predicate Grows(b: Bucket) {
    b.length != 0 && LastEmpty(b.slots, |b.slots|) == -1
  }

  function BucketSet(b: Bucket, pair: Slot): Bucket
    requires b.slots != [] && b.length <= |b.slots|
  {
    if b.length == 0 then
      if b.slots[0].Empty? then Bucket(b.slots[0 := pair], 1) else Bucket([b.slots[0], pair], 2)
    else if Grows(b) then Grown(b, pair)
    else Bucket(b.slots[LastEmpty(b.slots, |b.slots|) := pair], b.length + 1)
  }

  /** The growth path leaves the length of the table alone. */
  function SetState(s: State, key: Key, value: Address): State
    requires Ok(s)
  {
    var h := HashOf(key, |s.buckets|);
    var b := s.buckets[h];
    State(s.buckets[h := BucketSet(b, Pair(key, value))], if Grows(b) then s.length else (s.length + 1) % WORD)
  }

  /** The slot `tablec_get` points to; `Empty` stands for NULL. */
  function GetState(s: State, key: Key): Slot
    requires s.buckets != []
  {
    var b := s.buckets[HashOf(key, |s.buckets|)];
    var i := LastMatch(b.slots, key, |b.slots|);
    if b.length == 0 || i == -1 then Empty else b.slots[i]
  }

  function DelState(s: State, key: Key): State
    requires Ok(s)
  {
    var h := HashOf(key, |s.buckets|);
    var b := s.buckets[h];
    var i := LastMatch(b.slots, key, |b.slots|);
    if b.length == 0 || i == -1 then s
    else
      assert b.length > 0;
      State(s.buckets[h := Bucket(b.slots[i := Empty], b.length - 1)], (s.length - 1) % WORD)
  }

  function InitState(capacity: nat): State {
    State(seq(capacity, _ => Bucket([Empty], 0)), 0)
  }

  // ----- the abstract value: a multiset of pairs -----

  function Pairs(slots: seq<Slot>): multiset<Slot> {
    multiset(slots)[Empty := 0]
  }

  function ContentsOf(bs: seq<Bucket>): multiset<Slot> {
    if bs == [] then multiset{} else Pairs(bs[0].slots) + ContentsOf(bs[1..])
  }

  function Contents(s: State): multiset<Slot> {
    ContentsOf(s.buckets)
  }

  lemma {:induction false} ContentsUpdate(bs: seq<Bucket>, i: nat, b: Bucket)
    requires i < |bs|
    ensures Pairs(bs[i].slots) <= ContentsOf(bs)
    ensures ContentsOf(bs[i := b]) == ContentsOf(bs) - Pairs(bs[i].slots) + Pairs(b.slots)
  {
    hide Pairs;
    if i == 0 {
      assert bs[0 := b][1..] == bs[1..];
    } else {
      var bs' := bs[i := b];
      assert bs'[1..] == bs[1..][i - 1 := b] && bs'[0] == bs[0];
      ContentsUpdate(bs[1..], i - 1, b);
    }
  }

  lemma {:induction false} InContents(bs: seq<Bucket>, p: Slot)
    ensures p in ContentsOf(bs) <==> p.Pair? && exists i | 0 <= i < |bs| :: p in bs[i].slots
    decreases |bs|
  {
    if bs != [] {
      InContents(bs[1..], p);
      assert forall i | 0 < i < |bs| :: bs[i] == bs[1..][i - 1];
      if p in ContentsOf(bs[1..]) {
        var i :| 0 <= i < |bs[1..]| && p in bs[1..][i].slots;
        assert p in bs[i + 1].slots;
      }
    }
  }

  predicate HasKey(m: multiset<Slot>, key: Key) {
    exists p | p in m :: p.Pair? && p.key == key
  }

  /** All pairs with one key live in one bucket. */
  lemma {:induction false} KeyInBucket(s: State, key: Key)
    requires Ok(s)
    ensures var slots := s.buckets[HashOf(key, |s.buckets|)].slots;
      HasKey(Contents(s), key) <==> exists i | 0 <= i < |slots| :: slots[i].Pair? && slots[i].key == key
  {
    var h := HashOf(key, |s.buckets|);
    var slots := s.buckets[h].slots;
    if HasKey(Contents(s), key) {
      var p :| p in Contents(s) && p.Pair? && p.key == key;
      InContents(s.buckets, p);
      var i :| 0 <= i < |s.buckets| && p in s.buckets[i].slots;
      assert BucketOk(s.buckets[i], i, |s.buckets|);
      assert i == h;
    }
    if i :| 0 <= i < |slots| && slots[i].Pair? && slots[i].key == key {
      InContents(s.buckets, slots[i]);
      assert slots[i] in s.buckets[h].slots;
    }
  }

  lemma {:induction false} UsedUpdate(slots: seq<Slot>, i: nat, p: Slot)
    requires i < |slots|
    ensures Used(slots[i := p]) + (if slots[i].Pair? then 1 else 0) == Used(slots) + (if p.Pair? then 1 else 0)
  {
    var n := |slots| - 1;
    if i == n {
      assert slots[i := p][..n] == slots[..n];
    } else {
      assert slots[i := p][..n] == slots[..n][i := p];
      UsedUpdate(slots[..n], i, p);
    }
  }

  lemma {:induction false} UsedBlank(slots: seq<Slot>, n: nat)
    ensures Used(slots + Blank(n)) == Used(slots)
  {
    if n == 0 {
      assert slots + Blank(0) == slots;
    } else {
      var all := slots + Blank(n);
      assert all[..|all| - 1] == slots + Blank(n - 1);
      UsedBlank(slots, n - 1);
    }
  }

  lemma {:induction false} PairsUpdate(slots: seq<Slot>, i: nat, p: Slot)
    requires i < |slots|
    ensures Pairs(slots[i := p]) == Pairs(slots) - Pairs([slots[i]]) + Pairs([p])
    ensures Pairs([slots[i]]) <= Pairs(slots)
  {
    assert slots[i] in multiset(slots);
    assert multiset(slots[i := p]) == multiset(slots) - multiset{slots[i]} + multiset{p};
    assert multiset([p]) == multiset{p} && multiset([slots[i]]) == multiset{slots[i]};
  }

  lemma {:induction false} PairsBlank(slots: seq<Slot>, n: nat)
    ensures Pairs(slots + Blank(n)) == Pairs(slots)
  {
    assert multiset(slots + Blank(n)) == multiset(slots) + multiset(Blank(n));
    forall p: Slot | p.Pair?
      ensures multiset(Blank(n))[p] == 0
    {
      assert p !in Blank(n);
    }
  }

  /** An empty bucket has an empty first slot: the other branch of `tablec_set` for empty
      buckets is never taken. */
  lemma {:induction false} EmptyBucketIsBlank(s: State, i: nat)
    requires Ok(s) && i < |s.buckets| && s.buckets[i].length == 0
    ensures s.buckets[i].slots != [] && s.buckets[i].slots[0].Empty?
  {
    assert BucketOk(s.buckets[i], i, |s.buckets|);
  }

  /** Writing a pair into an empty slot. */
  lemma {:induction false} Fill(slots: seq<Slot>, i: nat, pair: Slot, index: nat, capacity: nat)
    requires capacity > 0 && i < |slots| && slots[i].Empty? && AtHome(slots, index, capacity)
    requires pair.Pair? && HashOf(pair.key, capacity) == index
    ensures var t := slots[i := pair];
      Used(t) == Used(slots) + 1 && AtHome(t, index, capacity) && Pairs(t) == Pairs(slots) + multiset{pair}
  {
    hide HashOf, Used, Pairs;
    UsedUpdate(slots, i, pair);
    PairsUpdate(slots, i, pair);
    SinglePair(pair);
  }

  lemma {:induction false} SinglePair(pair: Slot)
    requires pair.Pair?
    ensures Pairs([pair]) == multiset{pair} && Pairs([Empty]) == multiset{}
  {
    assert multiset([pair]) == multiset{pair} && multiset([Empty]) == multiset{Empty};
  }

  lemma {:induction false} BucketSetAdds(b: Bucket, pair: Slot, index: nat, capacity: nat)
    requires capacity > 0 && BucketOk(b, index, capacity) && pair.Pair? && HashOf(pair.key, capacity) == index
    ensures b.slots != [] && b.length <= |b.slots|
    ensures var c := BucketSet(b, pair);
      BucketOk(c, index, capacity) && Pairs(c.slots) == Pairs(b.slots) + multiset{pair}
      && c.length == b.length + 1
      && Log2(|c.slots|) == Log2(|b.slots|) + if Grows(b) then 1 else 0
  {
    hide HashOf, Pairs;
    if Grows(b) {
      var wide := b.slots + Blank(|b.slots|);
      UsedBlank(b.slots, |b.slots|);
      PairsBlank(b.slots, |b.slots|);
      hide Used;
      Fill(wide, b.length, pair, index, capacity);
      assert |wide| / 2 == |b.slots|;
    } else {
      var i := if b.length == 0 then 0 else LastEmpty(b.slots, |b.slots|);
      Fill(b.slots, i, pair, index, capacity);
    }
  }

  // ----- the counter law -----

  function Logs(bs: seq<Bucket>): nat {
    if bs == [] then 0 else Log2(|bs[0].slots|) + Logs(bs[1..])
  }

  function Lengths(bs: seq<Bucket>): nat {
    if bs == [] then 0 else bs[0].length + Lengths(bs[1..])
  }

  /** The length of the table falls short of the entries by one for every growth, and
      wraps around. */
  predicate CounterLaw(s: State) {
    (s.length + Logs(s.buckets)) % WORD == Lengths(s.buckets) % WORD
  }

  lemma {:induction false} SumsUpdate(bs: seq<Bucket>, i: nat, b: Bucket)
    requires i < |bs|
    ensures Logs(bs[i := b]) + Log2(|bs[i].slots|) == Logs(bs) + Log2(|b.slots|)
    ensures Lengths(bs[i := b]) + bs[i].length == Lengths(bs) + b.length
  {
    if i == 0 {
      assert bs[0 := b][1..] == bs[1..];
    } else {
      assert bs[i := b][1..] == bs[1..][i - 1 := b];
      SumsUpdate(bs[1..], i - 1, b);
    }
  }

  lemma {:induction false} Congruent(x: int, logs: int, n: int, d: int)
    requires (x + logs) % WORD == n % WORD && (d == 1 || d == -1)
    ensures ((x + d) % WORD + logs) % WORD == (n + d) % WORD
  {
  }

  // ----- what each operation does to the abstract value -----

  lemma {:induction false} Replace(s: State, h: nat, b: Bucket, length: nat)
    requires Ok(s) && h < |s.buckets| && BucketOk(b, h, |s.buckets|) && length < WORD
    ensures Ok(State(s.buckets[h := b], length))
  {
    hide BucketOk;
  }

  /** Inserting adds the pair and never replaces one. */
  lemma {:induction false} SetAdds(s: State, key: Key, value: Address)
    requires Ok(s)
    ensures var t := SetState(s, key, value);
      Ok(t) && |t.buckets| == |s.buckets| && (CounterLaw(s) ==> CounterLaw(t))
      && Contents(t) == Contents(s) + multiset{Pair(key, value)}
  {
    hide BucketSet, Grows, HashOf, ContentsOf, Logs, Lengths, Pairs, Log2;
    var h, p := HashOf(key, |s.buckets|), Pair(key, value);
    var b := s.buckets[h];
    assert BucketOk(b, h, |s.buckets|);
    BucketSetAdds(b, p, h, |s.buckets|);
    var c := BucketSet(b, p);
    hide BucketOk;
    Replace(s, h, c, SetState(s, key, value).length);
    ContentsUpdate(s.buckets, h, c);
    SumsUpdate(s.buckets, h, c);
    if CounterLaw(s) && !Grows(b) { Congruent(s.length, Logs(s.buckets), Lengths(s.buckets), 1); }
    if CounterLaw(s) && Grows(b) { SameShift(s.length + Logs(s.buckets), Lengths(s.buckets)); }
  }

  lemma {:induction false} SameShift(x: int, n: int)
    requires x % WORD == n % WORD
    ensures (x + 1) % WORD == (n + 1) % WORD
  {
    Congruent(x, 0, n, 1);
  }

  /** An insertion into an empty bucket takes slot 0. Were it in use, the bucket would get two
      slots. */
  lemma {:induction false} SetIntoEmpty(b: Bucket, p: Slot)
    requires b.slots != [] && b.length == 0
    ensures BucketSet(b, p) ==
      if b.slots[0].Empty? then Bucket([p] + b.slots[1..], 1) else Bucket([b.slots[0], p], 2)
  {
    assert b.slots[0 := p] == [p] + b.slots[1..];
  }

  /** Otherwise it takes the highest free slot. */
  lemma {:induction false} SetIntoFree(b: Bucket, p: Slot, i: nat)
    requires 0 < b.length <= |b.slots| && i < |b.slots| && b.slots[i].Empty?
    requires forall k | i < k < |b.slots| :: b.slots[k].Pair?
    ensures BucketSet(b, p) == Bucket(b.slots[..i] + [p] + b.slots[i + 1..], b.length + 1)
  {
    assert LastEmpty(b.slots, |b.slots|) == i;
    hide LastEmpty;
    assert b.slots[i := p] == b.slots[..i] + [p] + b.slots[i + 1..];
  }

  /** A full bucket doubles, keeps its slots, and takes the pair at index `length`. */
  lemma {:induction false} SetIntoFull(b: Bucket, p: Slot)
    requires 0 < b.length <= |b.slots| && forall k | 0 <= k < |b.slots| :: b.slots[k].Pair?
    ensures var c, n := BucketSet(b, p), |b.slots|;
      && c.length == b.length + 1 && |c.slots| == 2 * n && c.slots[b.length] == p
      && forall i | 0 <= i < 2 * n && i != b.length :: c.slots[i] == if i < n then b.slots[i] else Empty
  {
    assert LastEmpty(b.slots, |b.slots|) == -1;
    hide LastEmpty;
  }

  /** Slot `i` is the highest that holds the key. */
  predicate HighestWith(slots: seq<Slot>, i: nat, key: Key) {
    i < |slots| && slots[i].Pair? && slots[i].key == key
    && forall k | i < k < |slots| :: slots[k].Pair? ==> slots[k].key != key
  }

  /** Of several pairs with the key, a lookup answers the one in the highest slot of its
      bucket, and a deletion clears that slot and no other. */
  lemma {:induction false} HighestFirst(s: State, key: Key, i: nat)
    requires Ok(s) && HighestWith(s.buckets[HashOf(key, |s.buckets|)].slots, i, key)
    ensures var h := HashOf(key, |s.buckets|);
      var slots := s.buckets[h].slots;
      && GetState(s, key) == slots[i]
      && DelState(s, key).buckets[h].slots == slots[..i] + [Empty] + slots[i + 1..]
      && forall k | 0 <= k < |s.buckets| && k != h :: DelState(s, key).buckets[k] == s.buckets[k]
  {
    var h := HashOf(key, |s.buckets|);
    var b := s.buckets[h];
    assert BucketOk(b, h, |s.buckets|);
    assert LastMatch(b.slots, key, |b.slots|) == i;
    hide LastMatch, HashOf;
    assert b.slots[i := Empty] == b.slots[..i] + [Empty] + b.slots[i + 1..];
  }

  /** A lookup answers NULL exactly when no stored pair has the key. */
  lemma {:induction false} GetFinds(s: State, key: Key)
    requires Ok(s)
    ensures var p := GetState(s, key);
      (p.Empty? <==> !HasKey(Contents(s), key)) && (p.Pair? ==> p.key == key && p in Contents(s))
  {
    hide HashOf, Contents;
    var h := HashOf(key, |s.buckets|);
    var b := s.buckets[h];
    assert BucketOk(b, h, |s.buckets|);
    KeyInBucket(s, key);
    var p := GetState(s, key);
    if p.Pair? {
      assert p in b.slots;
      InBucket(s, h, p);
    }
  }

  lemma {:induction false} InBucket(s: State, h: nat, p: Slot)
    requires h < |s.buckets| && p in s.buckets[h].slots && p.Pair?
    ensures p in Contents(s)
  {
    InContents(s.buckets, p);
  }

  /** Clearing a slot that holds a pair. */
  lemma {:induction false} Clear(slots: seq<Slot>, i: nat, index: nat, capacity: nat)
    requires capacity > 0 && i < |slots| && slots[i].Pair? && AtHome(slots, index, capacity)
    ensures var t := slots[i := Empty];
      Used(t) + 1 == Used(slots) && AtHome(t, index, capacity) && Pairs(t) == Pairs(slots) - multiset{slots[i]}
  {
    hide HashOf, Used, Pairs;
    UsedUpdate(slots, i, Empty);
    PairsUpdate(slots, i, Empty);
    SinglePair(slots[i]);
  }

  /** Deleting removes exactly the pair a lookup would have found, and nothing when there
      is none. */
  lemma {:induction false} DelRemoves(s: State, key: Key)
    requires Ok(s)
    ensures var t, p := DelState(s, key), GetState(s, key);
      Ok(t) && |t.buckets| == |s.buckets| && (CounterLaw(s) ==> CounterLaw(t))
      && (p.Empty? ==> t == s)
      && (p.Pair? ==> p in Contents(s) && Contents(t) == Contents(s) - multiset{p})
  {
    hide HashOf, ContentsOf, Logs, Lengths, Pairs, Used;
    GetFinds(s, key);
    var h := HashOf(key, |s.buckets|);
    var b := s.buckets[h];
    assert BucketOk(b, h, |s.buckets|);
    var i := LastMatch(b.slots, key, |b.slots|);
    if b.length != 0 && i != -1 {
      hide LastMatch;
      Clear(b.slots, i, h, |s.buckets|);
      var c := Bucket(b.slots[i := Empty], b.length - 1);
      assert BucketOk(c, h, |s.buckets|);
      hide BucketOk;
      Replace(s, h, c, DelState(s, key).length);
      ContentsUpdate(s.buckets, h, c);
      TakeOut(s.buckets, h, b.slots[i], c);
      SumsUpdate(s.buckets, h, c);
      if CounterLaw(s) { Congruent(s.length, Logs(s.buckets), Lengths(s.buckets), -1); }
    }
  }

  lemma {:induction false} TakeOut(bs: seq<Bucket>, h: nat, p: Slot, c: Bucket)
    requires h < |bs| && p.Pair? && p in bs[h].slots
    requires Pairs(c.slots) == Pairs(bs[h].slots) - multiset{p}
    requires Pairs(bs[h].slots) <= ContentsOf(bs)
    ensures ContentsOf(bs) - Pairs(bs[h].slots) + Pairs(c.slots) == ContentsOf(bs) - multiset{p}
  {
    hide ContentsOf;
    assert p in multiset(bs[h].slots);
  }

  lemma {:induction false} InitOk(capacity: nat)
    requires capacity > 0
    ensures Ok(InitState(capacity)) && CounterLaw(InitState(capacity)) && Contents(InitState(capacity)) == multiset{}
  {
    InitSums(InitState(capacity).buckets);
  }

  lemma {:induction false} InitSums(bs: seq<Bucket>)
    requires forall i | 0 <= i < |bs| :: bs[i] == Bucket([Empty], 0)
    ensures ContentsOf(bs) == multiset{} && Logs(bs) == 0 && Lengths(bs) == 0
  {
    if bs != [] {
      InitSums(bs[1..]);
      assert Pairs([Empty]) == multiset{} by { assert multiset([Empty]) == multiset{Empty}; }
    }
  }
}
