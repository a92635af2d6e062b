/** The streaming JSON builder of pjsonb.c: a growing buffer, a position and one flag. */
module Pjsonb {
  import opened CStrings
  import opened Json

  datatype KeyState = NONE | TO_CLOSE

  // ----- what each call does to the text written so far -----

  /** The first `position` bytes of the buffer, and whether the flag says TO_CLOSE. */
  datatype Text = Text(bytes: string, toClose: bool)

  function Started(kind: Kind): Text {
    Text([Open(kind)], false)
  }

  /** An unkeyed number leaves its comma beyond the position. */
  function WithNumber(t: Text, key: Option<string>, n: int): Text {
    Text(t.bytes + KeyText(key) + Decimal(n) + (if key.Some? then "," else ""), true)
  }

  function WithBool(t: Text, key: Option<string>, b: bool): Text {
    Text(t.bytes + KeyText(key) + BoolText(b) + ",", true)
  }

  function WithString(t: Text, key: Option<string>, value: string): Text {
    Text(t.bytes + KeyText(key) + "\"" + value + "\",", true)
  }

  function Entered(t: Text, key: Option<string>, kind: Kind): Text {
    Text(t.bytes + KeyText(key) + [Open(kind)], false)
  }

  /** The closing bracket replaces the last byte when the flag is set. */
  function Closed(t: Text, kind: Kind): string
    requires t.bytes != ""
  {
    (if t.toClose then t.bytes[..|t.bytes| - 1] else t.bytes) + [Close(kind)]
  }

  function Left(t: Text, kind: Kind): Text
    requires t.bytes != ""
  {
    if kind == Object then Text(Closed(t, kind) + ",", true) else Text(Closed(t, kind), false)
  }

  lemma {:induction false} NoKey(bytes: string)
    ensures bytes + KeyText(None) == bytes
  {
  }

  // ----- the builder -----

  class Builder {
    var buffer: array<char>
    var position: nat
    var keyState: KeyState
    const kind: Kind

    ghost predicate Valid()
      reads this
    {
      1 <= position <= buffer.Length
    }

    ghost function Written(): Text
      requires Valid()
      reads this, buffer
    {
      Text(buffer[..position], keyState == TO_CLOSE)
    }

    /** `pjsonb_init`. */
    constructor (kind: Kind)
      ensures Valid() && fresh(buffer) && this.kind == kind && Written() == Started(kind)
    {
      buffer := new char[1] [Open(kind)];
      position := 1;
      keyState := NONE;
      this.kind := kind;
    }

    /** `realloc`: the common prefix of the old and new block survives. Asking for at
        least `position` bytes therefore keeps every byte already emitted. */
    method Realloc(size: nat)
      requires Valid() && position <= size
      modifies this`buffer
      ensures Valid() && fresh(buffer) && buffer.Length == size
      ensures buffer[..position] == old(buffer[..position])
    {
      var block := new char[size](_ => NUL);
      for i := 0 to if size < buffer.Length then size else buffer.Length
        invariant buffer == old(buffer) && block[..i] == buffer[..i]
      {
        block[i] := buffer[i];
        assert block[..i + 1] == block[..i] + [buffer[i]];
      }
      buffer := block;
    }

    /** `memcpy` at the position, then the position moves past it. */
    method Put(s: string)
      requires Valid() && position + |s| <= buffer.Length
      modifies this`position, buffer
      ensures Valid() && position == old(position) + |s|
      ensures buffer[..position] == old(buffer[..position]) + s
    {
      for i := 0 to |s|
        invariant buffer == old(buffer) && position == old(position)
        invariant buffer[..position + i] == old(buffer[..position]) + s[..i]
      {
        buffer[position + i] := s[i];
        assert buffer[..position + i + 1] == buffer[..position + i] + [s[i]];
        assert s[..i + 1] == s[..i] + [s[i]];
      }
      assert s[..|s|] == s;
      position := position + |s|;
    }

    /** A quoted key and the colon after it. */
    method PutKey(key: string)
      requires Valid() && position + |key| + 3 <= buffer.Length
      modifies this`position, buffer
      ensures Valid() && position == old(position) + |key| + 3
      ensures buffer[..position] == old(buffer[..position]) + KeyText(Some(key))
    {
      Put("\"");
      Put(key);
      Put("\":");
      assert buffer[..position] == old(buffer[..position]) + ("\"" + key + "\":");
    }

    /** `snprintf("%d")` at the position, terminator included. */
    method PutNumber(n: int)
      requires Valid() && position + |Decimal(n)| + 1 <= buffer.Length
      modifies this`position, buffer
      ensures Valid() && position == old(position) + |Decimal(n)|
      ensures buffer[..position] == old(buffer[..position]) + Decimal(n)
    {
      Put(Decimal(n));
      buffer[position] := NUL;
    }

    /** `pjsonb_set_int` and `pjsonb_set_size_t`, which differ only in the C type of `value`. */
    method SetNumber(key: Option<string>, value: int)
      requires Valid()
      modifies this, buffer
      ensures Valid() && (buffer == old(buffer) || fresh(buffer))
      ensures Written() == WithNumber(old(Written()), key, value)
    {
      var valueLength := |Decimal(value)|;
      if key.None? {
        NoKey(buffer[..position]);
        Realloc(position + valueLength + 1);
        PutNumber(value);
        buffer[position] := ',';
        keyState := TO_CLOSE;
        return;
      }
      Realloc(position + valueLength + 4 + |key.value| + 1);
      PutKey(key.value);
      PutNumber(value);
      Put(",");
      keyState := TO_CLOSE;
    }

    /** `pjsonb_set_bool`. */
    method SetBool(key: Option<string>, value: bool)
      requires Valid()
      modifies this, buffer
      ensures Valid() && (buffer == old(buffer) || fresh(buffer))
      ensures Written() == WithBool(old(Written()), key, value)
    {
      var valueLength := |BoolText(value)|;
      if key.None? {
        NoKey(buffer[..position]);
        Realloc(position + valueLength + 1);
        Put(BoolText(value));
        Put(",");
        keyState := TO_CLOSE;
        return;
      }
      Realloc(position + valueLength + 4 + |key.value| + 1);
      PutKey(key.value);
      Put(BoolText(value));
      Put(",");
      keyState := TO_CLOSE;
    }

    /** `pjsonb_set_string`. */
    method SetString(key: Option<string>, value: string)
      requires Valid()
      modifies this, buffer
      ensures Valid() && (buffer == old(buffer) || fresh(buffer))
      ensures Written() == WithString(old(Written()), key, value)
    {
      if key.None? {
        NoKey(buffer[..position]);
        Realloc(position + |value| + 3);
        Put("\"");
        Put(value);
        Put("\",");
        keyState := TO_CLOSE;
        return;
      }
      Realloc(position + |value| + 6 + |key.value| + 1);
      PutKey(key.value);
      Put("\"");
      Put(value);
      Put("\",");
      keyState := TO_CLOSE;
    }

    /** `pjsonb_enter_object`. */
    method EnterObject(key: Option<string>)
      requires Valid()
      modifies this, buffer
      ensures Valid() && (buffer == old(buffer) || fresh(buffer))
      ensures Written() == Entered(old(Written()), key, Object)
    {
      if key.None? {
        NoKey(buffer[..position]);
        Realloc(position + 1);
        Put("{");
        keyState := NONE;
        return;
      }
      Realloc(position + 5 + |key.value|);
      PutKey(key.value);
      Put("{");
      keyState := NONE;
    }

    /** `pjsonb_enter_array`. */
    method EnterArray(key: Option<string>)
      requires Valid()
      modifies this, buffer
      ensures Valid() && (buffer == old(buffer) || fresh(buffer))
      ensures Written() == Entered(old(Written()), key, Array)
    {
      if key.None? {
        NoKey(buffer[..position]);
        Realloc(position + 1);
        Put("[");
        keyState := NONE;
        return;
      }
      Realloc(position + 4 + |key.value|);
      PutKey(key.value);
      Put("[");
      keyState := NONE;
    }

    /** `pjsonb_leave_object`. */
    method LeaveObject()
      requires Valid()
      modifies this, buffer
      ensures Valid() && (buffer == old(buffer) || fresh(buffer))
      ensures Written() == Left(old(Written()), Object)
      ensures "}," == Written().bytes[|Written().bytes| - 2..]
    {
      if keyState == TO_CLOSE {
        buffer[position - 1] := '}';
        assert buffer[..position] == Closed(old(Written()), Object);
        Realloc(position + 1);
        Put(",");
      } else {
        Realloc(position + 2 + 1);
        Put("},");
      }
      keyState := TO_CLOSE;
      assert Written().bytes == Closed(old(Written()), Object) + ",";
    }

    /** `pjsonb_leave_array`. */
    method LeaveArray()
      requires Valid()
      modifies this, buffer
      ensures Valid() && (buffer == old(buffer) || fresh(buffer))
      ensures Written() == Left(old(Written()), Array) && buffer[position - 1] == ']'
    {
      if keyState == TO_CLOSE {
        buffer[position - 1] := ']';
        keyState := NONE;
      } else {
        Realloc(position + 1);
        Put("]");
      }
      assert Written().bytes == Closed(old(Written()), Array);
    }

    /** `pjsonb_end`. */
    method End()
      requires Valid()
      modifies this, buffer
      ensures Valid() && (buffer == old(buffer) || fresh(buffer))
      ensures Written() == Text(Closed(old(Written()), kind), old(Written()).toClose)
      ensures buffer[position - 1] == match kind case Array => ']' case Object => '}'
    {
      if keyState == TO_CLOSE {
        buffer[position - 1] := Close(kind);
      } else {
        Realloc(position + 1);
        Put([Close(kind)]);
      }
      assert Written().bytes == Closed(old(Written()), kind);
    }
  }

  // ----- any sequence of calls -----

  datatype Call =
    | SetNumber(key: Option<string>, n: int)
    | SetBool(key: Option<string>, b: bool)
    | SetString(key: Option<string>, s: string)
    | Enter(key: Option<string>, kind: Kind)
    | Leave(kind: Kind)
    | End

  /** One call on a builder whose outermost container is of kind `root`. */
  function Do(root: Kind, t: Text, c: Call): (r: Text)
    requires t.bytes != ""
    ensures |r.bytes| >= |t.bytes| && t.bytes[..|t.bytes| - 1] <= r.bytes
  {
    match c
    case SetNumber(key, n) => WithNumber(t, key, n)
    case SetBool(key, b) => WithBool(t, key, b)
    case SetString(key, s) => WithString(t, key, s)
    case Enter(key, kind) => Entered(t, key, kind)
    case Leave(kind) => Left(t, kind)
    case End => Text(Closed(t, root), t.toClose)
  }

  function DoAll(root: Kind, t: Text, calls: seq<Call>): (r: Text)
    requires t.bytes != ""
    decreases |calls|
  {
    if calls == [] then t else DoAll(root, Do(root, t, calls[0]), calls[1..])
  }

  /** Whatever is called, in or out of order, the text never shrinks and only its last byte
      can change. */
  lemma {:induction false} TextSurvives(root: Kind, t: Text, calls: seq<Call>)
    requires t.bytes != ""
    ensures var r := DoAll(root, t, calls);
      |r.bytes| >= |t.bytes| && t.bytes[..|t.bytes| - 1] <= r.bytes
    decreases |calls|
  {
    if calls != [] {
      hide Do;
      var u := Do(root, t, calls[0]);
      TextSurvives(root, u, calls[1..]);
      var n, r := |t.bytes| - 1, DoAll(root, t, calls);
      assert t.bytes[..n] == u.bytes[..n];
      assert r.bytes[..n] == r.bytes[..|u.bytes| - 1][..n];
    }
  }

  method Perform(b: Builder, c: Call)
    requires b.Valid()
    modifies b, b.buffer
    ensures b.Valid() && (b.buffer == old(b.buffer) || fresh(b.buffer))
    ensures b.Written() == Do(b.kind, old(b.Written()), c)
  {
    match c
    case SetNumber(key, n) => b.SetNumber(key, n);
    case SetBool(key, x) => b.SetBool(key, x);
    case SetString(key, s) => b.SetString(key, s);
    case Enter(key, kind) => if kind == Object { b.EnterObject(key); } else { b.EnterArray(key); }
    case Leave(kind) => if kind == Object { b.LeaveObject(); } else { b.LeaveArray(); }
    case End => b.End();
  }

  /** Any sequence of calls stays inside its buffer and does to it what `DoAll` does to the
      text. */
  method PerformAll(b: Builder, calls: seq<Call>)
    requires b.Valid()
    modifies b, b.buffer
    ensures b.Valid() && (b.buffer == old(b.buffer) || fresh(b.buffer))
    ensures b.Written() == DoAll(b.kind, old(b.Written()), calls)
  {
    ghost var start := b.Written();
    assert calls[0..] == calls;
    for i := 0 to |calls|
      invariant b.Valid() && (b.buffer == old(b.buffer) || fresh(b.buffer))
      invariant DoAll(b.kind, b.Written(), calls[i..]) == DoAll(b.kind, start, calls)
    {
      hide Do;
      assert calls[i..][0] == calls[i] && calls[i..][1..] == calls[i + 1..];
      Perform(b, calls[i]);
    }
    assert calls[|calls|..] == [];
  }

  // ----- driving the builder over a tree -----

  function Emit(t: Text, key: Option<string>, v: Value): (r: Text)
    requires t.bytes != ""
    ensures r.bytes != ""
    decreases v
  {
    match v
    case Num(n) => WithNumber(t, key, n)
    case Bool(b) => WithBool(t, key, b)
    case Str(s) => WithString(t, key, s)
    case Node(kind, items) => Left(EmitItems(Entered(t, key, kind), items), kind)
  }

  function EmitItems(t: Text, items: Items): (r: Text)
    requires t.bytes != ""
    ensures r.bytes != ""
    decreases items
  {
    match items
    case Nil => t
    case Cons(key, value, rest) => EmitItems(Emit(t, key, value), rest)
  }

  /** What `init`, the calls for the children, and `end` leave in the buffer. */
  function Built(kind: Kind, items: Items): string {
    Closed(EmitItems(Started(kind), items), kind)
  }

  /** The trees the builder can print: no number without a key, and an array only as the
      last child of its parent. */
  predicate Supported(key: Option<string>, v: Value)
    decreases v
  {
    match v
    case Num(_) => key.Some?
    case Node(_, items) => SupportedItems(items)
    case _ => true
  }

  predicate SupportedItems(items: Items)
    decreases items
  {
    match items
    case Nil => true
    case Cons(key, value, rest) =>
      Supported(key, value) && SupportedItems(rest) && (IsArray(value) ==> rest.Nil?)
  }

  predicate IsArray(v: Value) {
    v.Node? && v.kind == Array
  }

  predicate EndsInArray(items: Items) {
    items.Cons? && if items.rest.Nil? then IsArray(items.value) else EndsInArray(items.rest)
  }

  function Separator(endsInArray: bool): string { if endsInArray then "" else "," }

  /** The invariant behind the single flag: TO_CLOSE means the last byte is a separator
      that the next close may overwrite, NONE means there is none. */
  lemma {:induction false} EmitSupported(t: Text, key: Option<string>, v: Value)
    requires t.bytes != "" && Supported(key, v)
    ensures Emit(t, key, v) ==
      Text(t.bytes + (KeyText(key) + Compact(v)) + Separator(IsArray(v)), !IsArray(v))
    decreases v
  {
    match v
    case Node(kind, items) =>
      hide EmitItems, Body, Compact, KeyText, EndsInArray;
      var e := Entered(t, key, kind);
      EmitItemsSupported(e, items);
      CloseSupported(e, items, kind);
      NodeSplit(t.bytes, KeyText(key), kind, items);
    case _ => EmitScalar(t, key, v);
  }

  lemma {:induction false} EmitScalar(t: Text, key: Option<string>, v: Value)
    requires t.bytes != "" && Supported(key, v) && !v.Node?
    ensures Emit(t, key, v) == Text(t.bytes + (KeyText(key) + Compact(v)) + ",", true)
  {
    hide Decimal, BoolText, KeyText;
    assert t.bytes + (KeyText(key) + Compact(v)) == t.bytes + KeyText(key) + Compact(v);
    match v
    case Str(s) => assert "\"" + s + "\"," == ("\"" + s + "\"") + ",";
    case _ =>
  }

  lemma {:induction false} NodeSplit(before: string, key: string, kind: Kind, items: Items)
    ensures before + key + [Open(kind)] + Body(items) + [Close(kind)] == before + (key + Compact(Node(kind, items)))
  {
    hide Body;
    var node := Compact(Node(kind, items));
    assert before + (key + node) == before + key + node;
    assert before + key + [Open(kind)] + Body(items) + [Close(kind)] == before + key + node;
  }

  lemma {:induction false} CloseSupported(e: Text, items: Items, kind: Kind)
    requires e.bytes != "" && !e.toClose
    requires EmitItems(e, items) ==
      if items.Nil? then e
      else Text(e.bytes + Body(items) + Separator(EndsInArray(items)), !EndsInArray(items))
    ensures Closed(EmitItems(e, items), kind) == e.bytes + Body(items) + [Close(kind)]
  {
    hide EmitItems, EndsInArray;
    if items.Nil? {
      assert e.bytes + Body(items) == e.bytes;
    } else if !EndsInArray(items) {
      var b := e.bytes + Body(items);
      assert (b + ",")[..|b + ","| - 1] == b;
    } else {
      assert e.bytes + Body(items) + "" == e.bytes + Body(items);
    }
  }

  lemma {:induction false} EmitItemsSupported(t: Text, items: Items)
    requires t.bytes != "" && SupportedItems(items)
    ensures EmitItems(t, items) ==
      if items.Nil? then t
      else Text(t.bytes + Body(items) + Separator(EndsInArray(items)), !EndsInArray(items))
    decreases items
  {
    if items.Cons? {
      hide Emit, Compact, KeyText, Body;
      var Cons(key, value, rest) := items;
      EmitSupported(t, key, value);
      EmitItemsSupported(Emit(t, key, value), rest);
      BodyGrows(t.bytes, items);
    }
  }

  lemma {:induction false} BodyGrows(before: string, items: Items)
    requires items.Cons?
    ensures var text := KeyText(items.key) + Compact(items.value);
      if items.rest.Nil? then Body(items) == text else before + text + "," + Body(items.rest) == before + Body(items)
  {
    hide KeyText, Compact;
    var text := KeyText(items.key) + Compact(items.value);
    if items.rest.Cons? {
      assert Body(items) == text + ("," + Body(items.rest));
      assert before + text + "," + Body(items.rest) == before + (text + ("," + Body(items.rest)));
    } else {
      assert Body(items) == text + "";
    }
  }

  // ----- what comes out for any tree -----

  /** The text of one child and the separator after it, if there is one. Nothing of what was
      printed before matters. */
  function Printed(key: Option<string>, v: Value): (s: string)
    ensures s != ""
    decreases v
  {
    (if key.None? then "" else "\"" + key.value + "\":") +
    match v
    case Num(n) => Decimal(n) + if key.Some? then "," else ""
    case Bool(b) => if b then "true," else "false,"
    case Str(t) => "\"" + t + "\","
    case Node(Object, items) => "{" + Trimmed(items) + "},"
    case Node(Array, items) => "[" + Trimmed(items) + "]"
  }

  function PrintedItems(items: Items): (s: string)
    ensures items.Cons? ==> s != ""
    decreases items, 0
  {
    match items
    case Nil => ""
    case Cons(key, value, rest) => Printed(key, value) + PrintedItems(rest)
  }

  /** Closing takes the last byte away, be it a comma or a digit, unless the last child is an
      array. */
  function Trimmed(items: Items): string
    decreases items, 1
  {
    var s := PrintedItems(items);
    if items.Nil? || EndsInArray(items) then s else s[..|s| - 1]
  }

  /** For every tree, in the supported fragment or not, the builder with its one flag prints
      what this stateless printer does. */
  lemma {:induction false} EmitIsPrinted(t: Text, key: Option<string>, v: Value)
    requires t.bytes != ""
    ensures Emit(t, key, v) == Text(t.bytes + Printed(key, v), !IsArray(v))
    decreases v
  {
    match v
    case Node(kind, items) =>
      var e := Entered(t, key, kind);
      hide Emit, EmitItems, Printed, PrintedItems, EndsInArray;
      EmitItemsArePrinted(e, items);
      CloseIsTrimmed(e, items, kind);
      NodePrinted(t, key, kind, items);
    case _ => ScalarPrinted(t, key, v);
  }

  lemma {:induction false} Regroup(a: string, b: string, c: string, d: string)
    ensures a + b + c + d == a + (b + (c + d))
  {
  }

  lemma {:induction false} ScalarPrinted(t: Text, key: Option<string>, v: Value)
    requires t.bytes != "" && !v.Node?
    ensures Emit(t, key, v) == Text(t.bytes + Printed(key, v), true)
  {
    hide Decimal;
    var k := KeyText(key);
    assert k == if key.None? then "" else "\"" + key.value + "\":";
    match v
    case Num(n) => Regroup(t.bytes, k, Decimal(n), if key.Some? then "," else "");
    case Bool(b) =>
      assert BoolText(b) + "," == if b then "true," else "false,";
      Regroup(t.bytes, k, BoolText(b), ",");
    case Str(s) =>
      Regroup(t.bytes, k, "\"", s);
      Regroup(t.bytes, k, "\"" + s, "\",");
  }

  lemma {:induction false} NodePrinted(t: Text, key: Option<string>, kind: Kind, items: Items)
    requires t.bytes != ""
    requires EmitItems(Entered(t, key, kind), items).bytes != ""
    requires Closed(EmitItems(Entered(t, key, kind), items), kind)
      == Entered(t, key, kind).bytes + Trimmed(items) + [Close(kind)]
    ensures Emit(t, key, Node(kind, items)) == Text(t.bytes + Printed(key, Node(kind, items)), kind == Object)
  {
    hide EmitItems, Trimmed, Closed;
    var k, body := KeyText(key), Trimmed(items);
    if kind == Object {
      assert "{" == [Open(kind)] && "}," == [Close(kind)] + ",";
      assert t.bytes + k + "{" + body + [Close(kind)] + "," == t.bytes + (k + ("{" + body + "},"));
    } else {
      assert "[" == [Open(kind)] && "]" == [Close(kind)];
      assert t.bytes + k + "[" + body + [Close(kind)] == t.bytes + (k + ("[" + body + "]"));
    }
  }

  lemma {:induction false} CloseIsTrimmed(e: Text, items: Items, kind: Kind)
    requires e.bytes != "" && !e.toClose
    requires EmitItems(e, items) == Text(e.bytes + PrintedItems(items), items.Cons? && !EndsInArray(items))
    ensures Closed(EmitItems(e, items), kind) == e.bytes + Trimmed(items) + [Close(kind)]
  {
    hide EmitItems, PrintedItems, EndsInArray;
    var s := PrintedItems(items);
    if items.Cons? && !EndsInArray(items) {
      assert (e.bytes + s)[..|e.bytes + s| - 1] == e.bytes + s[..|s| - 1];
    }
  }

  lemma {:induction false} Append(a: string, b: string, c: string)
    ensures a + b + c == a + (b + c)
  {
  }

  lemma {:induction false} EmitItemsArePrinted(t: Text, items: Items)
    requires t.bytes != ""
    ensures EmitItems(t, items) ==
      Text(t.bytes + PrintedItems(items), if items.Nil? then t.toClose else !EndsInArray(items))
    decreases items
  {
    match items
    case Nil => assert t.bytes + "" == t.bytes;
    case Cons(key, value, rest) =>
      hide Emit, Printed;
      EmitIsPrinted(t, key, value);
      EmitItemsArePrinted(Emit(t, key, value), rest);
      Append(t.bytes, Printed(key, value), PrintedItems(rest));
  }

  /** The whole text of a container, whatever is in it. */
  lemma {:induction false} BuiltIsPrinted(kind: Kind, items: Items)
    ensures Built(kind, items) ==
      match kind
      case Array => "[" + Trimmed(items) + "]"
      case Object => "{" + Trimmed(items) + "}"
  {
    var t := Started(kind);
    hide EmitItems, PrintedItems, Trimmed, EndsInArray;
    EmitItemsArePrinted(t, items);
    CloseIsTrimmed(t, items, kind);
  }

  // ----- exactly which trees come out right -----

  /** Bytes lost in `v`: an unkeyed number loses its separator, an array followed by a
      sibling loses the comma between them. */
  function Losses(key: Option<string>, v: Value): nat
    decreases v
  {
    match v
    case Num(_) => if key.None? then 1 else 0
    case Node(_, items) => LossesItems(items)
    case _ => 0
  }

  function LossesItems(items: Items): nat
    decreases items
  {
    match items
    case Nil => 0
    case Cons(key, value, rest) =>
      Losses(key, value) + (if IsArray(value) && rest.Cons? then 1 else 0) + LossesItems(rest)
  }

  lemma {:induction false} NoLosses(key: Option<string>, v: Value)
    ensures Losses(key, v) == 0 <==> Supported(key, v)
    decreases v
  {
    match v
    case Node(_, items) => NoLossesItems(items);
    case _ =>
  }

  lemma {:induction false} NoLossesItems(items: Items)
    ensures LossesItems(items) == 0 <==> SupportedItems(items)
    decreases items
  {
    match items
    case Nil =>
    case Cons(key, value, rest) =>
      NoLosses(key, value);
      NoLossesItems(rest);
  }

  /** Length of the text once a missing separator is counted in. */
  function Reach(t: Text): nat {
    |t.bytes| + if t.toClose then 0 else 1
  }

  lemma {:induction false} EmitLength(t: Text, key: Option<string>, v: Value)
    requires t.bytes != ""
    ensures var r := Emit(t, key, v);
      Reach(r) + Losses(key, v) == |t.bytes| + |KeyText(key)| + |Compact(v)| + 1
      && (r.toClose <==> !IsArray(v))
    decreases v
  {
    match v
    case Node(kind, items) =>
      hide EmitItems, Body, LossesItems;
      EmitItemsLength(Entered(t, key, kind), items);
    case _ =>
  }

  lemma {:induction false} EmitItemsLength(t: Text, items: Items)
    requires t.bytes != ""
    ensures var r := EmitItems(t, items);
      items.Nil? || Reach(r) + LossesItems(items) == |t.bytes| + |Body(items)| + 1
    ensures items.Nil? ==> EmitItems(t, items) == t
    decreases items
  {
    if items.Cons? {
      var Cons(key, value, rest) := items;
      EmitLength(t, key, value);
      EmitItemsLength(Emit(t, key, value), rest);
      hide Emit, Compact, KeyText;
    }
  }

  /** The builder prints the compact text of a container exactly when the container is in
      the supported fragment, at any depth. Otherwise bytes are missing. */
  lemma {:induction false} BuiltExactly(kind: Kind, items: Items)
    ensures Built(kind, items) == Compact(Node(kind, items)) <==> SupportedItems(items)
    ensures |Built(kind, items)| + LossesItems(items) == |Compact(Node(kind, items))|
  {
    hide EmitItems, Body, LossesItems;
    var t := Started(kind);
    EmitItemsLength(t, items);
    NoLossesItems(items);
    assert LossesItems(Nil) == 0 by { NoLossesItems(Nil); }
    assert |Body(Nil)| == 0 by { EmptyBody(); }
    if SupportedItems(items) {
      EmitItemsSupported(t, items);
      CloseSupported(t, items, kind);
    }
  }

  lemma {:induction false} EmptyBody()
    ensures Body(Nil) == ""
  {
  }

  /** Reading the buffer gives the tree back exactly when the tree is in the supported
      fragment, has keys just in its objects, and holds no text that needs an escape. */
  lemma {:induction false} BuildRoundTrip(kind: Kind, items: Items)
    ensures Read(Built(kind, items)) == Some((Node(kind, items), "")) <==>
      SupportedItems(items) && PrintableItems(kind, items)
  {
    hide Read, Built, Compact, PrintableItems, LossesItems;
    var text := Built(kind, items);
    BuiltExactly(kind, items);
    NoLossesItems(items);
    assert Printable(Node(kind, items)) <==> PrintableItems(kind, items);
    if SupportedItems(items) && PrintableItems(kind, items) {
      ReadCompact(Node(kind, items), "");
      assert text + "" == text;
    }
    if Read(text) == Some((Node(kind, items), "")) { ReadIsPrintable(text); }
  }

  /** Outside the fragment the text is wrong: an array of one number is printed empty. */
  lemma {:induction false} UnkeyedNumberLost()
    ensures Built(Array, Cons(None, Num(5), Nil)) == "[]"
  {
    assert Decimal(5) == "5";
    var t := WithNumber(Started(Array), None, 5);
    assert t.bytes == "[5";
    assert t.bytes[..1] == "[";
  }

  // ----- the calls a client makes for a tree -----

  method Drive(b: Builder, key: Option<string>, v: Value)
    requires b.Valid()
    modifies b, b.buffer
    ensures b.Valid() && (b.buffer == old(b.buffer) || fresh(b.buffer))
    ensures b.Written() == Emit(old(b.Written()), key, v)
    decreases v
  {
    match v
    case Num(n) => b.SetNumber(key, n);
    case Bool(x) => b.SetBool(key, x);
    case Str(s) => b.SetString(key, s);
    case Node(kind, items) =>
      if kind == Object { b.EnterObject(key); } else { b.EnterArray(key); }
      DriveItems(b, items);
      if kind == Object { b.LeaveObject(); } else { b.LeaveArray(); }
  }

  method DriveItems(b: Builder, items: Items)
    requires b.Valid()
    modifies b, b.buffer
    ensures b.Valid() && (b.buffer == old(b.buffer) || fresh(b.buffer))
    ensures b.Written() == EmitItems(old(b.Written()), items)
    decreases items
  {
    match items
    case Nil =>
    case Cons(key, value, rest) =>
      Drive(b, key, value);
      DriveItems(b, rest);
  }

  /** `init`, the calls for the children, `end`: the buffer holds the compact text exactly
      when the tree is supported. */
  method Build(kind: Kind, items: Items) returns (b: Builder)
    ensures b.Valid() && b.Written().bytes == Built(kind, items)
    ensures b.Written().bytes == Compact(Node(kind, items)) <==> SupportedItems(items)
  {
    b := new Builder(kind);
    DriveItems(b, items);
    b.End();
    BuiltExactly(kind, items);
  }
}
