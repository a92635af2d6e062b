/** JSON values, their compact text, and a reference reader for that text
    (RFC 8259, sections 4 to 7: integers only, no escapes, no insignificant space). */
module Json {
  import opened CStrings

  datatype Kind = Array | Object

  datatype Value = Num(n: int) | Bool(b: bool) | Str(s: string) | Node(kind: Kind, items: Items)

  /** The children of an object carry keys, the children of an array do not. */
  datatype Items = Nil | Cons(key: Option<string>, value: Value, rest: Items)

  function Open(kind: Kind): char { if kind == Array then '[' else '{' }

  function Close(kind: Kind): char { if kind == Array then ']' else '}' }

  function KeyText(key: Option<string>): string {
    if key.None? then "" else "\"" + key.value + "\":"
  }

  function BoolText(b: bool): string { if b then "true" else "false" }

  function Compact(v: Value): (s: string)
    ensures s != "" && s[0] != ']' && s[0] != '}'
  {
    match v
    case Num(n) => Decimal(n)
    case Bool(b) => BoolText(b)
    case Str(s) => "\"" + s + "\""
    case Node(kind, items) => [Open(kind)] + Body(items) + [Close(kind)]
  }

  function Body(items: Items): string {
    match items
    case Nil => ""
    case Cons(key, value, rest) =>
      KeyText(key) + Compact(value) + (if rest.Nil? then "" else "," + Body(rest))
  }

  /** Characters a JSON string may hold as they are (RFC 8259, section 7). */
  predicate PlainText(s: string) {
    forall i | 0 <= i < |s| :: s[i] >= ' ' && s[i] != '"' && s[i] != '\\'
  }

  /** Keys exactly in objects, and only unescaped text. */
  predicate Printable(v: Value)
    decreases v
  {
    match v
    case Str(s) => PlainText(s)
    case Node(kind, items) => PrintableItems(kind, items)
    case _ => true
  }

  predicate PrintableItems(kind: Kind, items: Items)
    decreases items
  {
    match items
    case Nil => true
    case Cons(key, value, rest) =>
      (key.Some? <==> kind == Object) && (key.Some? ==> PlainText(key.value))
      && Printable(value) && PrintableItems(kind, rest)
  }

  // ----- reference reader -----

  /** The text up to the next quote, which it consumes. */
  function ReadText(s: string): (r: Option<(string, string)>)
    ensures r.Some? ==> |r.value.1| < |s|
  {
    if s == "" then None
    else if s[0] == '"' then Some(("", s[1..]))
    else if s[0] < ' ' || s[0] == '\\' then None
    else
      match ReadText(s[1..])
      case None => None
      case Some((t, rest)) => Some(([s[0]] + t, rest))
  }

  function ReadDigits(s: string): (r: Option<(nat, string)>)
    ensures r.Some? ==> |r.value.1| < |s|
    ensures r.Some? && s[0] == '0' ==> |r.value.1| == |s| - 1
  {
    var k := DigitRun(s);
    if k == 0 || (k > 1 && s[0] == '0') then None else Some((NatOf(s[..k]), s[k..]))
  }

  function ReadNumber(s: string): (r: Option<(int, string)>)
    requires s != ""
    ensures r.Some? ==> |r.value.1| < |s|
  {
    if s[0] != '-' then
      match ReadDigits(s)
      case None => None
      case Some((n, rest)) => Some((n, rest))
    else
      match ReadDigits(s[1..])
      case None => None
      case Some((n, rest)) => var m: int := n; Some((-m, rest))
  }

  function ReadKey(kind: Kind, s: string): (r: Option<(Option<string>, string)>)
    ensures r.Some? ==> |r.value.1| <= |s|
  {
    if kind == Array then Some((None, s))
    else if s == "" || s[0] != '"' then None
    else
      match ReadText(s[1..])
      case None => None
      case Some((key, rest)) => if rest != "" && rest[0] == ':' then Some((Some(key), rest[1..])) else None
  }

  function Read(s: string): (r: Option<(Value, string)>)
    ensures r.Some? ==> |r.value.1| < |s|
    decreases |s|, 0
  {
    if s == "" then None
    else if s[0] == '[' then ReadNode(Array, s[1..])
    else if s[0] == '{' then ReadNode(Object, s[1..])
    else if s[0] == '"' then
      match ReadText(s[1..])
      case None => None
      case Some((t, rest)) => Some((Str(t), rest))
    else if "true" <= s then Some((Bool(true), s[4..]))
    else if "false" <= s then Some((Bool(false), s[5..]))
    else
      match ReadNumber(s)
      case None => None
      case Some((n, rest)) => Some((Num(n), rest))
  }

  /** `s` starts with the bracket that closes `kind`. */
  predicate StartsWithEnd(kind: Kind, s: string) {
    s != "" && (match kind case Array => s[0] == ']' case Object => s[0] == '}')
  }

  /** What follows an opening bracket. */
  function ReadNode(kind: Kind, s: string): (r: Option<(Value, string)>)
    ensures r.Some? ==> |r.value.1| < |s|
    decreases |s|, 2
  {
    if StartsWithEnd(kind, s) then Some((Node(kind, Nil), s[1..]))
    else
      match ReadItems(kind, s)
      case None => None
      case Some((items, rest)) => Some((Node(kind, items), rest))
  }

  /** One or more children and the closing bracket. */
  function ReadItems(kind: Kind, s: string): (r: Option<(Items, string)>)
    ensures r.Some? ==> |r.value.1| < |s|
    decreases |s|, 1
  {
    match ReadKey(kind, s)
    case None => None
    case Some((key, afterKey)) =>
      match Read(afterKey)
      case None => None
      case Some((value, rest)) =>
        if rest == "" then None
        else if StartsWithEnd(kind, rest) then Some((Cons(key, value, Nil), rest[1..]))
        else if rest[0] != ',' then None
        else
          match ReadItems(kind, rest[1..])
          case None => None
          case Some((items, tail)) => Some((Cons(key, value, items), tail))
  }

  // ----- reading inverts printing -----

  lemma {:induction false} ReadTextPlain(t: string, rest: string)
    requires PlainText(t)
    ensures ReadText(t + "\"" + rest) == Some((t, rest))
  {
    var s := t + "\"" + rest;
    if t == "" {
      assert s == "\"" + rest;
    } else {
      assert s[0] == t[0] && s[1..] == t[1..] + "\"" + rest;
      ReadTextPlain(t[1..], rest);
      assert [t[0]] + t[1..] == t;
    }
  }

  lemma {:induction false} ReadDigitsOf(n: nat, rest: string)
    requires rest == "" || !IsDigit(rest[0])
    ensures ReadDigits(Digits(n) + rest) == Some((n, rest))
  {
    DigitRunUnique(Digits(n), rest);
    NatOfDigits(n);
    assert (Digits(n) + rest)[|Digits(n)|..] == rest;
    assert (Digits(n) + rest)[0] == Digits(n)[0];
  }

  lemma {:induction false} ReadDecimal(n: int, rest: string)
    requires rest == "" || !IsDigit(rest[0])
    ensures Read(Decimal(n) + rest) == Some((Num(n), rest))
  {
    hide Digits, ReadDigits;
    var s := Decimal(n) + rest;
    var c := s[0];
    assert c == Decimal(n)[0];
    assert c == '-' || IsDigit(c);
    assert "true"[0] == 't' && "false"[0] == 'f';
    if n < 0 {
      assert s[1..] == Digits(-n) + rest;
      ReadDigitsOf(-n, rest);
    } else {
      ReadDigitsOf(n, rest);
    }
  }

  lemma {:induction false} ReadKeyOf(kind: Kind, key: Option<string>, rest: string)
    requires key.Some? <==> kind == Object
    requires key.Some? ==> PlainText(key.value)
    ensures ReadKey(kind, KeyText(key) + rest) == Some((key, rest))
  {
    if key.None? {
      assert KeyText(key) + rest == rest;
    } else {
      var s := KeyText(key) + rest;
      assert s[1..] == key.value + "\"" + (":" + rest);
      ReadTextPlain(key.value, ":" + rest);
    }
  }

  /** The compact text of any value, at any depth, reads back as that value. */
  lemma {:induction false} ReadCompact(v: Value, rest: string)
    requires Printable(v)
    requires rest == "" || !IsDigit(rest[0])
    ensures Read(Compact(v) + rest) == Some((v, rest))
    decreases v
  {
    hide Read, ReadNode, Body;
    match v
    case Num(n) => ReadDecimal(n, rest);
    case Bool(b) => ReadBool(b, rest);
    case Str(t) => ReadString(t, rest);
    case Node(kind, items) =>
      if items.Cons? { ReadBody(kind, items, rest); }
      ReadNodeOf(kind, items, rest);
      ReadOpen(kind, Body(items) + ([Close(kind)] + rest));
      NodeText(kind, items, rest);
  }

  lemma {:induction false} NodeText(kind: Kind, items: Items, rest: string)
    ensures Compact(Node(kind, items)) + rest == [Open(kind)] + (Body(items) + ([Close(kind)] + rest))
  {
    hide Body;
  }

  lemma {:induction false} ReadString(t: string, rest: string)
    requires PlainText(t)
    ensures Read(Compact(Str(t)) + rest) == Some((Str(t), rest))
  {
    hide ReadText, PlainText;
    var s := Compact(Str(t)) + rest;
    assert s[1..] == t + "\"" + rest;
    ReadTextPlain(t, rest);
  }

  lemma {:induction false} ReadBool(b: bool, rest: string)
    ensures Read(BoolText(b) + rest) == Some((Bool(b), rest))
  {
    var s := BoolText(b) + rest;
    assert s[..|BoolText(b)|] == BoolText(b) && s[|BoolText(b)|..] == rest;
    assert s[0] == BoolText(b)[0];
    assert !b ==> "true"[0] != s[0];
  }

  lemma {:induction false} ReadOpen(kind: Kind, t: string)
    ensures Read([Open(kind)] + t) == ReadNode(kind, t)
  {
    hide ReadNode;
    assert ([Open(kind)] + t)[1..] == t;
  }

  lemma {:induction false} ReadNodeOf(kind: Kind, items: Items, rest: string)
    requires items.Cons? ==> ReadItems(kind, Body(items) + ([Close(kind)] + rest)) == Some((items, rest))
    ensures ReadNode(kind, Body(items) + ([Close(kind)] + rest)) == Some((Node(kind, items), rest))
  {
    hide ReadItems;
    var s := Body(items) + ([Close(kind)] + rest);
    if items.Nil? {
      assert s == [Close(kind)] + rest;
    } else {
      BodyStart(kind, items);
      assert s[0] == Body(items)[0];
    }
  }

  lemma {:induction false} BodyStart(kind: Kind, items: Items)
    requires items.Cons?
    ensures Body(items) != "" && Body(items)[0] != Close(kind)
  {
    assert KeyText(items.key) != "" ==> KeyText(items.key)[0] == '"';
    assert Compact(items.value)[0] != Close(kind);
  }

  lemma {:induction false} ReadBody(kind: Kind, items: Items, rest: string)
    requires items.Cons? && PrintableItems(kind, items)
    ensures ReadItems(kind, Body(items) + ([Close(kind)] + rest)) == Some((items, rest))
    decreases items
  {
    hide Read, ReadKey, Body, Compact, KeyText;
    var Cons(key, value, more) := items;
    var tail := Tail(kind, more, rest);
    BodySplit(kind, items, rest);
    ReadKeyOf(kind, key, Compact(value) + tail);
    ReadCompact(value, tail);
    if more.Cons? { ReadBody(kind, more, rest); }
  }

  /** What follows the text of a child. */
  function Tail(kind: Kind, more: Items, rest: string): (t: string)
    ensures t != "" && (more.Nil? ==> t[0] == Close(kind) && t[1..] == rest)
    ensures more.Cons? ==> t[0] == ',' && t[1..] == Body(more) + ([Close(kind)] + rest)
  {
    if more.Nil? then [Close(kind)] + rest else "," + (Body(more) + ([Close(kind)] + rest))
  }

  lemma {:induction false} BodySplit(kind: Kind, items: Items, rest: string)
    requires items.Cons?
    ensures Body(items) + ([Close(kind)] + rest)
      == KeyText(items.key) + (Compact(items.value) + Tail(kind, items.rest, rest))
  {
    hide KeyText, Compact;
    if items.rest.Cons? {
      assert Body(items) == KeyText(items.key) + Compact(items.value) + ("," + Body(items.rest));
    } else {
      assert Body(items) == KeyText(items.key) + Compact(items.value) + "";
    }
  }

  // ----- what can be read is printable -----

  lemma {:induction false} NextDigit(n: nat, k: nat)
    requires k < 10
    ensures |Digits(n * 10 + k)| <= |Digits(n)| + 1
  {
    assert (n * 10 + k) / 10 == n;
  }

  lemma {:induction false} NatOfWidth(d: string)
    requires AllDigits(d) && d != ""
    ensures |Digits(NatOf(d))| <= |d|
  {
    var init, last := d[..|d| - 1], DigitValue(d[|d| - 1]);
    if init == "" {
      assert NatOf(d) == last;
    } else {
      NatOfWidth(init);
      NextDigit(NatOf(init), last);
    }
  }

  lemma {:induction false} ReadTextIsPlain(s: string)
    requires ReadText(s).Some?
    ensures PlainText(ReadText(s).value.0) && |s| == |ReadText(s).value.0| + 1 + |ReadText(s).value.1|
  {
    if s[0] != '"' { ReadTextIsPlain(s[1..]); }
  }

  lemma {:induction false} ReadNumberWidth(s: string)
    requires s != "" && ReadNumber(s).Some?
    ensures |s| >= |Decimal(ReadNumber(s).value.0)| + |ReadNumber(s).value.1|
  {
    var d := if s[0] == '-' then s[1..] else s;
    hide NatOf, Digits;
    NatOfWidth(d[..DigitRun(d)]);
  }

  /** The reader accepts printable values only, and takes at least as many characters as the
      compact text has. */
  lemma {:induction false} ReadIsPrintable(s: string)
    requires Read(s).Some?
    ensures var (v, rest) := Read(s).value; Printable(v) && |s| >= |Compact(v)| + |rest|
    decreases |s|, 0
  {
    hide ReadNode, ReadNumber, ReadText, Body, PrintableItems;
    if s[0] == '[' {
      ReadNodeIsPrintable(Array, s[1..]);
    } else if s[0] == '{' {
      ReadNodeIsPrintable(Object, s[1..]);
    } else if s[0] == '"' {
      ReadTextIsPlain(s[1..]);
    } else if !("true" <= s) && !("false" <= s) {
      ReadNumberWidth(s);
    }
  }

  lemma {:induction false} ReadNodeIsPrintable(kind: Kind, s: string)
    requires ReadNode(kind, s).Some?
    ensures var (v, rest) := ReadNode(kind, s).value;
      v.Node? && v.kind == kind && PrintableItems(kind, v.items) && |s| >= |Body(v.items)| + 1 + |rest|
    decreases |s|, 2
  {
    hide ReadItems;
    if !StartsWithEnd(kind, s) { ReadItemsArePrintable(kind, s); }
  }

  lemma {:induction false} ReadItemsArePrintable(kind: Kind, s: string)
    requires ReadItems(kind, s).Some?
    ensures var (items, rest) := ReadItems(kind, s).value;
      items.Cons? && PrintableItems(kind, items) && |s| >= |Body(items)| + 1 + |rest|
    decreases |s|, 1
  {
    hide Read, ReadKey, Compact, KeyText;
    ReadKeyIsPrintable(kind, s);
    var (key, afterKey) := ReadKey(kind, s).value;
    ReadIsPrintable(afterKey);
    var (value, rest) := Read(afterKey).value;
    if !StartsWithEnd(kind, rest) { ReadItemsArePrintable(kind, rest[1..]); }
  }

  lemma {:induction false} ReadKeyIsPrintable(kind: Kind, s: string)
    requires ReadKey(kind, s).Some?
    ensures var (key, rest) := ReadKey(kind, s).value;
      && (key.Some? <==> kind == Object) && (key.Some? ==> PlainText(key.value))
      && |s| == |KeyText(key)| + |rest|
  {
    if kind == Object { ReadTextIsPlain(s[1..]); }
  }
}
