/** The table in memory: tablec.c on arrays, proved against its specification. */
module TablecTable {
  import opened CStrings
  import opened Powers
  import opened Tablec
  import opened TablecResize

  /** `struct tablec_buckets`. */
  datatype Header = Header(slots: array<Slot>, length: nat, capacity: nat)

  lemma {:induction false} GrownIsSet(b: Bucket, pair: Slot)
    requires Grows(b) && b.slots != [] && b.length <= |b.slots|
    ensures BucketSet(b, pair) == Grown(b, pair)
  {
  }

  lemma {:induction false} ResizeIs(s: State, capacity: nat)
    requires Ok(s) && capacity > 0
    ensures NoneEmpty(s.buckets) && Ok(InitState(capacity))
    ensures InsertAll(InitState(capacity), []) == Some(InitState(capacity))
    ensures ResizeState(s, capacity) ==
      InsertAll(InitState(capacity), if s.length != 0 then Moved(s.buckets, 0) else [])
  {
    hide Moved, BucketOk;
    InitOk(capacity);
    NoEmptyBuckets(s);
  }

  class Table {
    var buckets: array<Header>
    var length: nat
    var capacity: nat

    ghost function Arrays(): set<array<Slot>>
      reads this, buckets
    {
      set i | 0 <= i < buckets.Length :: buckets[i].slots
    }

    /** No two buckets share an array. */
    ghost predicate Valid()
      reads this, buckets
    {
      buckets.Length == capacity
      && (forall i | 0 <= i < capacity :: buckets[i].capacity == buckets[i].slots.Length)
      && (forall i, k | 0 <= i < k < capacity :: buckets[i].slots != buckets[k].slots)
    }

    ghost function View(): (v: State)
      reads this, buckets, Arrays()
      ensures v.length == length && |v.buckets| == buckets.Length
      ensures forall i | 0 <= i < buckets.Length :: v.buckets[i] == Bucket(buckets[i].slots[..], buckets[i].length)
    {
      State(seq(buckets.Length, i requires 0 <= i < buckets.Length reads this, buckets, Arrays() =>
        Bucket(buckets[i].slots[..], buckets[i].length)), length)
    }

    /** `tablec_init`. */
    constructor (maxCapacity: nat)
      ensures Valid() && capacity == maxCapacity && fresh(buckets) && fresh(Arrays())
      ensures View() == InitState(maxCapacity)
    {
      var one := new Slot[1] [Empty];
      buckets := new Header[maxCapacity](_ => Header(one, 0, 1));
      capacity := maxCapacity;
      length := 0;
      new;
      var n := maxCapacity;
      while n > 0
        invariant 0 <= n <= maxCapacity && buckets.Length == capacity == maxCapacity && length == 0
        invariant fresh(buckets) && one.Length == 1
        invariant forall i | 0 <= i < maxCapacity :: fresh(buckets[i].slots) && buckets[i].length == 0
        invariant forall i | n <= i < maxCapacity ::
          buckets[i].slots != one && buckets[i].slots[..] == [Empty] && buckets[i].capacity == 1
        invariant forall i, k | n <= i < k < maxCapacity :: buckets[i].slots != buckets[k].slots
      {
        n := n - 1;
        var slots := new Slot[1] [Empty];
        buckets[n] := Header(slots, 0, 1);
      }
      assert View().buckets == InitState(maxCapacity).buckets;
    }

    /** The view, bucket by bucket. */
    lemma Shows(before: seq<Bucket>, hash: nat, b: Bucket)
      requires Valid() && |before| == capacity && hash < capacity
      requires forall i | 0 <= i < capacity ::
        Bucket(buckets[i].slots[..], buckets[i].length) == if i == hash then b else before[i]
      ensures View().buckets == before[hash := b]
    {
    }

    /** The branch of `tablec_set` for an empty bucket. */
    method SetFirst(hash: nat, key: Key, value: Address)
      requires Valid() && hash < capacity && buckets[hash].length == 0 && buckets[hash].capacity > 0
      modifies this`length, buckets, Arrays()
      ensures Valid() && fresh(Arrays() - old(Arrays()))
      ensures View().buckets == old(View()).buckets[hash := BucketSet(old(View()).buckets[hash], Pair(key, value))]
      ensures length == if Grows(old(View()).buckets[hash]) then old(length) else (old(length) + 1) % WORD
    {
      hide View;
      var b := buckets[hash];
      ghost var was := View().buckets;
      ghost var before := was[hash];
      assert before == Bucket(b.slots[..], b.length);
      hide LastEmpty;
      if b.slots[0].Empty? {
        b.slots[0] := Pair(key, value);
        length := (length + 1) % WORD;
        buckets[hash] := b.(length := 1);
        Shows(was, hash, BucketSet(before, Pair(key, value)));
      } else {
        var newArray := new Slot[2] [b.slots[0], Pair(key, value)];
        buckets[hash] := Header(newArray, 2, 2);
        length := (length + 1) % WORD;
        Shows(was, hash, BucketSet(before, Pair(key, value)));
      }
    }

    /** The search of `tablec_set` for a free slot. */
    method SetFree(hash: nat, key: Key, value: Address) returns (done: bool)
      requires Valid() && hash < capacity && 0 < buckets[hash].length <= buckets[hash].capacity
      modifies this`length, buckets, Arrays()
      ensures Valid() && buckets == old(buckets) && Arrays() == old(Arrays())
      ensures done <==> !Grows(old(View()).buckets[hash])
      ensures !done ==> View() == old(View()) && buckets[hash] == old(buckets[hash])
      ensures done ==> length == (old(length) + 1) % WORD
      ensures done ==>
        View().buckets == old(View()).buckets[hash := BucketSet(old(View()).buckets[hash], Pair(key, value))]
    {
      hide View;
      var b := buckets[hash];
      ghost var was := View().buckets;
      ghost var before := was[hash];
      assert before == Bucket(b.slots[..], b.length);
      var i := b.capacity;
      while i > 0
        invariant 0 <= i <= b.capacity
        invariant LastEmpty(before.slots, b.capacity) == LastEmpty(before.slots, i)
      {
        i := i - 1;
        if b.slots[i].Empty? {
          b.slots[i] := Pair(key, value);
          buckets[hash] := b.(length := b.length + 1);
          length := (length + 1) % WORD;
          Shows(was, hash, Bucket(before.slots[i := Pair(key, value)], b.length + 1));
          return true;
        }
      }
      return false;
    }

    /** The growth path of `tablec_set`. */
    method SetGrown(hash: nat, key: Key, value: Address)
      requires Valid() && hash < capacity && buckets[hash].length < 2 * buckets[hash].capacity
      modifies buckets
      ensures Valid() && fresh(Arrays() - old(Arrays()))
      ensures View().buckets == old(View()).buckets[hash := Grown(old(View()).buckets[hash], Pair(key, value))]
      ensures length == old(length)
    {
      hide View;
      var b := buckets[hash];
      ghost var was := View().buckets;
      ghost var before := was[hash];
      assert before == Bucket(b.slots[..], b.length);
      var newArray := new Slot[b.capacity * 2](_ => Empty);
      var i := b.capacity;
      while i > 0
        invariant 0 <= i <= b.capacity
        invariant forall k | 0 <= k < newArray.Length ::
          newArray[k] == if i <= k < b.capacity then before.slots[k] else Empty
        modifies newArray
      {
        i := i - 1;
        newArray[i] := b.slots[i];
      }
      assert newArray[..] == before.slots + Blank(b.capacity);
      newArray[b.length] := Pair(key, value);
      buckets[hash] := Header(newArray, b.length + 1, b.capacity * 2);
      Shows(was, hash, Grown(before, Pair(key, value)));
    }

    lemma RoomFor(hash: nat)
      requires Valid() && hash < capacity && Ok(View())
      ensures View().buckets[hash] == Bucket(buckets[hash].slots[..], buckets[hash].length)
      ensures buckets[hash].length <= buckets[hash].capacity && buckets[hash].capacity > 0
    {
      assert BucketOk(View().buckets[hash], hash, capacity);
    }

    /** `tablec_set` in the bucket of the key. */
    method SetIn(hash: nat, key: Key, value: Address)
      requires Valid() && hash < capacity
      requires buckets[hash].length <= buckets[hash].capacity && buckets[hash].capacity > 0
      modifies this`length, buckets, Arrays()
      ensures Valid() && fresh(Arrays() - old(Arrays()))
      ensures View().buckets == old(View()).buckets[hash := BucketSet(old(View()).buckets[hash], Pair(key, value))]
      ensures length == if Grows(old(View()).buckets[hash]) then old(length) else (old(length) + 1) % WORD
    {
      if buckets[hash].length == 0 {
        SetFirst(hash, key, value);
        return;
      }
      hide View, BucketSet, Grows;
      ghost var b := View().buckets[hash];
      assert b == Bucket(buckets[hash].slots[..], buckets[hash].length);
      var done := SetFree(hash, key, value);
      if !done {
        GrownIsSet(b, Pair(key, value));
        SetGrown(hash, key, value);
      }
    }

    /** `tablec_set`. */
    method Set(key: Key, value: Address)
      requires Valid() && Ok(View())
      modifies this, buckets, Arrays()
      ensures Valid() && buckets == old(buckets) && capacity == old(capacity)
      ensures fresh(Arrays() - old(Arrays()))
      ensures View() == SetState(old(View()), key, value)
    {
      hide View, HashOf, BucketSet, Grows, BucketOk, Used, PowerOfTwo;
      var hash := Hash(key, capacity);
      RoomFor(hash);
      SetIn(hash, key, value);
    }

    /** `tablec_get`, as the slot it points to. */
    method Get(key: Key) returns (p: Slot)
      requires Valid() && capacity > 0
      ensures p == GetState(View(), key)
    {
      var hash := Hash(key, capacity);
      var b := buckets[hash];
      assert View().buckets[hash] == Bucket(b.slots[..], b.length);
      if b.length == 0 { return Empty; }
      var i := b.capacity;
      while i > 0
        invariant 0 <= i <= b.capacity
        invariant LastMatch(b.slots[..], key, b.capacity) == LastMatch(b.slots[..], key, i)
      {
        i := i - 1;
        if b.slots[i].Pair? && b.slots[i].key == key { return b.slots[i]; }
      }
      return Empty;
    }

    /** `tablec_del`. */
    method Del(key: Key)
      requires Valid() && Ok(View())
      modifies this, buckets, Arrays()
      ensures Valid() && buckets == old(buckets) && capacity == old(capacity) && Arrays() == old(Arrays())
      ensures View() == DelState(old(View()), key)
    {
      hide View, Arrays, HashOf, BucketOk, LastMatch;
      var hash := Hash(key, capacity);
      if buckets[hash].length == 0 { return; }
      DelFrom(hash, key);
    }

    method DelFrom(hash: nat, key: Key)
      requires Valid() && hash < capacity && buckets[hash].length != 0
      modifies this`length, buckets, Arrays()
      ensures Valid() && buckets == old(buckets) && Arrays() == old(Arrays())
      ensures var b := old(View()).buckets[hash];
        var i := LastMatch(b.slots, key, |b.slots|);
        if i == -1 then View() == old(View())
        else
          var buckets := old(View()).buckets[hash := Bucket(b.slots[i := Empty], b.length - 1)];
          View() == State(buckets, (old(length) - 1) % WORD)
    {
      hide View;
      var b := buckets[hash];
      ghost var was := View().buckets;
      ghost var slots := was[hash].slots;
      assert was[hash] == Bucket(b.slots[..], b.length);
      var i := b.capacity;
      while i > 0
        invariant 0 <= i <= b.capacity
        invariant LastMatch(slots, key, b.capacity) == LastMatch(slots, key, i)
      {
        i := i - 1;
        if b.slots[i].Pair? && b.slots[i].key == key {
          b.slots[i] := Empty;
          length := (length - 1) % WORD;
          buckets[hash] := b.(length := b.length - 1);
          Shows(was, hash, Bucket(slots[i := Empty], b.length - 1));
          return;
        }
      }
    }

    // ----- tablec_resize -----

    /** Inserts one more pair after `ps`. */
    method Take(p: Slot, ghost start: State, ghost ps: seq<Slot>)
      requires Valid() && Ok(start) && p.Pair? && InsertAll(start, ps) == Some(View())
      modifies this, buckets, Arrays()
      ensures Valid() && buckets == old(buckets) && capacity == old(capacity) && fresh(Arrays() - old(Arrays()))
      ensures InsertAll(start, ps + [p]) == Some(View())
    {
      hide View, Ok, SetState;
      Set(p.key, p.value);
      assert (ps + [p])[..|ps|] == ps;
    }

    /** The inner loop of `tablec_resize`: all slots of a bucket but the last, downwards. */
    method TakeBucket(slots: array<Slot>, ghost start: State, ghost ps: seq<Slot>)
      requires Valid() && Ok(start) && InsertAll(start, ps) == Some(View())
      requires slots !in Arrays() && slots.Length > 0
      modifies this, buckets, Arrays()
      ensures Valid() && buckets == old(buckets) && capacity == old(capacity) && fresh(Arrays() - old(Arrays()))
      ensures InsertAll(start, ps + PairsAbove(slots[..slots.Length - 1], 0)) == Some(View())
    {
      hide View, Ok, InsertAll;
      ghost var looked := slots[..slots.Length - 1];
      var n := slots.Length;
      assert ps + PairsAbove(looked, n - 1) == ps;
      while n != 1
        invariant 1 <= n <= slots.Length && slots !in Arrays() && looked == slots[..slots.Length - 1]
        invariant Valid() && buckets == old(buckets) && capacity == old(capacity) && fresh(Arrays() - old(Arrays()))
        invariant InsertAll(start, ps + PairsAbove(looked, n - 1)) == Some(View())
        decreases n
      {
        n := n - 1;
        ghost var before := PairsAbove(looked, n);
        assert slots[n - 1] == looked[n - 1];
        assert PairsAbove(looked, n - 1) == before + (if looked[n - 1].Pair? then [looked[n - 1]] else []);
        if slots[n - 1].Pair? {
          assert ps + (before + [looked[n - 1]]) == ps + before + [looked[n - 1]];
          Take(slots[n - 1], start, ps + before);
        } else {
          assert ps + (before + []) == ps + before;
        }
      }
    }

    /** One turn of the outer loop, on bucket `b` of the old table. The answer is false when
        it would hash a NULL key. */
    method TakeHeader(b: Header, ghost start: State, ghost ps: seq<Slot>) returns (defined: bool)
      requires Valid() && Ok(start) && InsertAll(start, ps) == Some(View())
      requires b.slots !in Arrays() && b.slots.Length > 0
      modifies this, buckets, Arrays()
      ensures Valid() && buckets == old(buckets) && capacity == old(capacity) && fresh(Arrays() - old(Arrays()))
      ensures defined <==> (b.length == 1 ==> old(b.slots[0].Pair?))
      ensures var v := old(Visited(Bucket(b.slots[..], b.length)));
        defined ==> InsertAll(start, ps + v) == Some(View())
    {
      hide View, Ok, InsertAll;
      if b.length == 0 {
        assert ps + [] == ps;
        return true;
      }
      if b.length == 1 {
        if b.slots[0].Empty? { return false; }
        Take(b.slots[0], start, ps);
        return true;
      }
      TakeBucket(b.slots, start, ps);
      return true;
    }

    /** The outer loop of `tablec_resize`, on the new table; `bs` is what `from` holds. */
    method TakeAll(from: array<Header>, ghost bs: seq<Bucket>, ghost start: State) returns (defined: bool)
      requires Valid() && Ok(start) && InsertAll(start, []) == Some(View())
      requires from != buckets && |bs| == from.Length && NoneEmpty(bs)
      requires forall i | 0 <= i < from.Length :: bs[i] == Bucket(from[i].slots[..], from[i].length)
      requires forall i | 0 <= i < from.Length :: from[i].slots !in Arrays()
      modifies this, buckets, Arrays()
      ensures Valid() && capacity == old(capacity) && buckets == old(buckets) && fresh(Arrays() - old(Arrays()))
      ensures InsertAll(start, Moved(bs, 0)) == if defined then Some(View()) else None
    {
      hide View, Ok, InsertAll, Visited, PairsAbove;
      var i := from.Length;
      while i > 0
        invariant 0 <= i <= from.Length
        invariant Valid() && capacity == old(capacity) && buckets == old(buckets) && fresh(Arrays() - old(Arrays()))
        invariant InsertAll(start, Moved(bs, i)) == Some(View())
      {
        i := i - 1;
        assert from[i].slots !in Arrays();
        assert bs[i].slots != [];
        defined := TakeHeader(from[i], start, Moved(bs, i + 1));
        if !defined {
          MovedArePairs(bs, 0);
          assert bs[i].length == 1 && bs[i].slots[0].Empty?;
          return;
        }
      }
      return true;
    }

    /** The loops of `tablec_resize`, into the blank table `t`. */
    method MoveInto(t: Table) returns (defined: bool)
      requires Valid() && Ok(View()) && t.Valid() && t.capacity > 0 && t.View() == InitState(t.capacity)
      requires buckets != t.buckets && Arrays() !! t.Arrays()
      modifies t, t.buckets, t.Arrays()
      ensures t.Valid() && t.capacity == old(t.capacity) && t.buckets == old(t.buckets)
      ensures fresh(t.Arrays() - old(t.Arrays()))
      ensures ResizeState(old(View()), t.capacity) == if defined then Some(t.View()) else None
    {
      ghost var s := View();
      ResizeIs(s, t.capacity);
      hide View, Moved, Ok, InsertAll, InitState, ResizeState, NoneEmpty;
      assert forall i | 0 <= i < capacity :: buckets[i].slots in Arrays();
      defined := true;
      if length != 0 { defined := t.TakeAll(buckets, s.buckets, InitState(t.capacity)); }
    }

    /** The new table of `tablec_resize`. */
    method Rehashed(newMaxCapacity: nat) returns (t: Table, defined: bool)
      requires Valid() && Ok(View()) && newMaxCapacity > 0
      ensures t.Valid() && t.capacity == newMaxCapacity && fresh(t.buckets) && fresh(t.Arrays())
      ensures ResizeState(old(View()), newMaxCapacity) == if defined then Some(t.View()) else None
    {
      hide View, Ok, InitState, ResizeState;
      ghost var s := View();
      t := new Table(newMaxCapacity);
      assert View() == s && Arrays() !! t.Arrays();
      defined := MoveInto(t);
    }

    /** `tablec_resize`. The answer is false when C would dereference a NULL key. */
    method Resize(newMaxCapacity: nat) returns (defined: bool)
      requires Valid() && Ok(View()) && newMaxCapacity > 0
      modifies this
      ensures defined <==> Resizable(old(View()))
      ensures defined ==> Valid() && capacity == newMaxCapacity && fresh(buckets) && fresh(Arrays())
      ensures defined ==> ResizeState(old(View()), newMaxCapacity) == Some(View())
    {
      hide Ok, Resizable, ResizeState;
      ResizeDefined(View(), newMaxCapacity);
      var t;
      t, defined := Rehashed(newMaxCapacity);
      if defined {
        ghost var v, arrays := t.View(), t.Arrays();
        buckets, length, capacity := t.buckets, t.length, t.capacity;
        assert View() == v && Arrays() == arrays;
      }
    }
  }
}
