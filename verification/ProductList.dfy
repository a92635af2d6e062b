/** The product list of main.c: rows to JSON to a response, end to end. */
module ProductList {
  import opened CStrings
  import opened Json
  import opened Numbers
  import opened Pjsonb
  import opened Powers
  import opened HttpText
  import opened HttpResponse

  /** The columns the handler reads; it takes the price from column 2 as well. */
  datatype Row = Row(nome: string, tipo: string, imagem: string)

  function Price(row: Row): Option<int> {
    Atoi(row.imagem + [NUL])
  }

  predicate Priced(rows: seq<Row>) {
    forall i | 0 <= i < |rows| :: Price(rows[i]).Some?
  }

  function Fields(row: Row): Items
    requires Price(row).Some?
  {
    Cons(Some("nome"), Str(row.nome),
    Cons(Some("tipo"), Str(row.tipo),
    Cons(Some("imagem"), Str(row.imagem),
    Cons(Some("preco"), Num(Price(row).value),
    Cons(Some("avaliacao"), Num(5), Nil)))))
  }

  function Products(rows: seq<Row>): Items
    requires Priced(rows)
  {
    if rows == [] then Nil else Cons(None, Node(Object, Fields(rows[0])), Products(rows[1..]))
  }

  /** What fits in `char content_length_str[10]`. */
  function LengthText(n: int): string {
    if |Decimal(n)| <= 9 then Decimal(n) else Decimal(n)[..9]
  }

  function ListResponse(text: seq<char>): Response {
    Response(200, "OK",
      [Header("Content-Type", "application/json"), Header("Content-Length", LengthText(|text|)),
       Header("Access-Control-Allow-Origin", "*")],
      Some(text), |text|)
  }

  method AddProduct(b: Builder, row: Row)
    requires b.Valid() && Price(row).Some?
    modifies b, b.buffer
    ensures b.Valid() && (b.buffer == old(b.buffer) || fresh(b.buffer))
    ensures b.Written() == Emit(old(b.Written()), None, Node(Object, Fields(row)))
  {
    hide WithString, WithNumber, Entered, Left;
    ghost var start := b.Written();
    b.EnterObject(None);
    b.SetString(Some("nome"), row.nome);
    b.SetString(Some("tipo"), row.tipo);
    b.SetString(Some("imagem"), row.imagem);
    b.SetNumber(Some("preco"), Price(row).value);
    b.SetNumber(Some("avaliacao"), 5);
    FieldsEmitted(Entered(start, None, Object), row);
    b.LeaveObject();
  }

  lemma {:induction false} FieldsEmitted(t: Text, row: Row)
    requires Price(row).Some? && t.bytes != ""
    ensures var a := WithString(WithString(t, Some("nome"), row.nome), Some("tipo"), row.tipo);
      var b := WithString(a, Some("imagem"), row.imagem);
      EmitItems(t, Fields(row)) == WithNumber(WithNumber(b, Some("preco"), Price(row).value), Some("avaliacao"), 5)
  {
    hide Price;
    var t1 := Emit(t, Some("nome"), Str(row.nome));
    var t2 := Emit(t1, Some("tipo"), Str(row.tipo));
    var t3 := Emit(t2, Some("imagem"), Str(row.imagem));
    var t4 := Emit(t3, Some("preco"), Num(Price(row).value));
    var r5 := Cons(Some("avaliacao"), Num(5), Nil);
    var r4 := Cons(Some("preco"), Num(Price(row).value), r5);
    var r3 := Cons(Some("imagem"), Str(row.imagem), r4);
    var r2 := Cons(Some("tipo"), Str(row.tipo), r3);
    hide WithString, WithNumber;
    assert EmitItems(t, Fields(row)) == EmitItems(t1, r2) == EmitItems(t2, r3) == EmitItems(t3, r4);
    assert EmitItems(t3, r4) == EmitItems(t4, r5);
    assert EmitItems(t4, r5) == EmitItems(Emit(t4, Some("avaliacao"), Num(5)), Nil);
  }

  /** The loop over the rows; false when a price is no number that fits an `int`, which
      `atoi` leaves undefined. */
  method AddProducts(b: Builder, rows: seq<Row>) returns (defined: bool)
    requires b.Valid()
    modifies b, b.buffer
    ensures b.Valid() && (b.buffer == old(b.buffer) || fresh(b.buffer))
    ensures defined <==> Priced(rows)
    ensures defined ==> b.Written() == EmitItems(old(b.Written()), Products(rows))
  {
    ghost var start := b.Written();
    assert rows[0..] == rows;
    for i := 0 to |rows|
      invariant b.Valid() && (b.buffer == old(b.buffer) || fresh(b.buffer))
      invariant Priced(rows) <==> Priced(rows[i..])
      invariant Priced(rows) ==> EmitItems(b.Written(), Products(rows[i..])) == EmitItems(start, Products(rows))
    {
      hide Emit, Fields, Price;
      assert rows[i..][0] == rows[i] && rows[i..][1..] == rows[i + 1..];
      if Price(rows[i]).None? { return false; }
      PricedHead(rows[i..]);
      AddProduct(b, rows[i]);
    }
    assert rows[|rows|..] == [];
    return true;
  }

  lemma {:induction false} PricedHead(rows: seq<Row>)
    requires rows != []
    ensures Priced(rows) <==> Price(rows[0]).Some? && Priced(rows[1..])
  {
    hide Price;
    assert forall i | 0 < i < |rows| :: rows[i] == rows[1..][i - 1];
  }

  /** The response sent for the rows of a query. */
  method ListProducts(rows: seq<Row>) returns (sent: Option<seq<char>>)
    ensures sent == if Priced(rows) then Some(Bytes(ListResponse(Built(Array, Products(rows))))) else None
  {
    hide Priced, EmitItems, Bytes, Products;
    var b := new Builder(Array);
    var defined := AddProducts(b, rows);
    if !defined { return None; }
    b.End();
    ghost var text := b.Written().bytes;
    assert text == Built(Array, Products(rows));
    var contentLength := LengthText(b.position);
    var response := Response(200, "OK",
      [Header("Content-Type", "application/json"), Header("Content-Length", contentLength),
       Header("Access-Control-Allow-Origin", "*")],
      Some(b.buffer[..]), b.position);
    sent := Respond(response, text);
  }

  lemma {:induction false} LengthTextPlain(n: int)
    ensures Plain(LengthText(n)) && ':' !in LengthText(n)
  {
    hide Decimal;
    DecimalPlain(n);
    assert forall c | c in LengthText(n) :: c in Decimal(n);
  }

  predicate Ordinary(c: char) {
    c != CR && c != NUL && c != ':'
  }

  lemma {:induction false} OrdinaryPlain(s: string)
    requires forall i | 0 <= i < |s| :: Ordinary(s[i])
    ensures Plain(s) && ':' !in s
  {
  }

  lemma {:induction false} TypePlain()
    ensures PlainHeader(Header("Content-Type", "application/json"))
  {
    hide Plain;
    OrdinaryPlain("Content-Type");
    OrdinaryPlain("application/json");
  }

  lemma {:induction false} LengthPlain(n: int)
    ensures PlainHeader(Header("Content-Length", LengthText(n)))
  {
    hide LengthText, Plain;
    LengthTextPlain(n);
    OrdinaryPlain("Content-Length");
  }

  lemma {:induction false} OriginPlain()
    ensures PlainHeader(Header("Access-Control-Allow-Origin", "*"))
  {
    hide Plain;
    OrdinaryPlain("Access-Control-Allow-Origin");
    OrdinaryPlain("*");
  }

  lemma {:induction false} ListHeaders(text: seq<char>)
    ensures PlainHeaders(ListResponse(text).headers) && Terminated(ListResponse(text))
  {
    hide LengthText, PlainHeader;
    TypePlain();
    LengthPlain(|text|);
    OriginPlain();
    var hs := ListResponse(text).headers;
    assert PlainHeader(hs[0]) && PlainHeader(hs[1]) && PlainHeader(hs[2]);
    HeadersTerminated(hs);
  }

  lemma {:induction false} HeadersTerminated(hs: seq<Header>)
    requires PlainHeaders(hs)
    ensures forall i | 0 <= i < |hs| :: NUL !in hs[i].key && NUL !in hs[i].value
  {
    assert forall i | 0 <= i < |hs| :: PlainHeader(hs[i]);
  }

  /** The body is the text and the block has exactly the right size. */
  lemma {:induction false} ListFits(r: Response, text: seq<char>)
    requires BodyInMemory(r) && r.body.Some? && r.bodyLength == |text| > 0 && r.status == 200
    requires r.body.value[..|text|] == text
    ensures BodyBytes(r) == text && Precomputed(r) == |Bytes(r)|
  {
    hide Precomputed, Bytes;
    LengthExactly(r);
  }

  method Respond(r: Response, ghost text: seq<char>) returns (sent: Option<seq<char>>)
    requires BodyInMemory(r) && r.body.Some? && r.bodyLength == |text| > 0
    requires r.body.value[..|text|] == text && r.(body := Some(text)) == ListResponse(text)
    ensures sent == Some(Bytes(ListResponse(text)))
  {
    ListFits(r, text);
    ListHeaders(text);
    assert text[..|text|] == text;
    ListFits(ListResponse(text), text);
    hide RenderHeaders, Precomputed, StatusText, LengthText, BodyBytes, PlainHeaders;
    assert StatusLine(r) == StatusLine(ListResponse(text));
    hide StatusLine;
    sent := SendResponse(r);
    assert sent.value[..|Bytes(r)|] == sent.value;
  }

  // ----- what the client reads -----

  lemma {:induction false} DigitsWidth(n: nat, k: nat)
    requires k > 0
    ensures |Digits(n)| <= k <==> n < Power(10, k)
    decreases k
  {
    if k == 1 {
      assert Power(10, 1) == 10 * Power(10, 0) == 10;
      assert n >= 10 ==> |Digits(n / 10)| >= 1;
    } else if n >= 10 {
      DigitsWidth(n / 10, k - 1);
    } else {
      PowerGrows(k);
    }
  }

  lemma {:induction false} PowerGrows(k: nat)
    requires k > 0
    ensures Power(10, k) >= 10
  {
    if k > 1 { PowerGrows(k - 1); }
  }

  /** The Content-Length value is the length of the body exactly below 10^9 bytes; from there
      on it is the first nine digits. */
  lemma {:induction false} LengthTextExactly(n: nat)
    ensures LengthText(n) == Decimal(n) <==> n < 1_000_000_000
    ensures LengthText(n) <= Decimal(n) && (n >= 1_000_000_000 ==> |LengthText(n)| == 9)
  {
    DigitsWidth(n, 9);
    assert Power(10, 9) == 1_000_000_000 by {
      assert Power(10, 3) == 1000;
      assert Power(10, 6) == 1_000_000;
    }
  }

  predicate PlainRows(rows: seq<Row>) {
    forall i | 0 <= i < |rows| :: PlainText(rows[i].nome) && PlainText(rows[i].tipo) && PlainText(rows[i].imagem)
  }

  /** Prepending a field keeps an object printable and supported. */
  lemma {:induction false} FieldPrintable(key: string, value: Value, rest: Items)
    requires PlainText(key) && (value.Num? || (value.Str? && PlainText(value.s)))
    requires PrintableItems(Object, rest) && SupportedItems(rest)
    ensures PrintableItems(Object, Cons(Some(key), value, rest))
    ensures SupportedItems(Cons(Some(key), value, rest))
  {
    assert Printable(value) && Supported(Some(key), value) && !IsArray(value);
  }

  lemma {:induction false} KeysPlain()
    ensures PlainText("nome") && PlainText("tipo") && PlainText("imagem")
    ensures PlainText("preco") && PlainText("avaliacao")
  {
  }

  lemma {:induction false} FieldsPrintable(row: Row)
    requires Price(row).Some? && PlainText(row.nome) && PlainText(row.tipo) && PlainText(row.imagem)
    ensures PrintableItems(Object, Fields(row)) && SupportedItems(Fields(row))
  {
    assert PrintableItems(Object, Nil) && SupportedItems(Nil);
    KeysPlain();
    hide Price, PrintableItems, SupportedItems, PlainText;
    var r5 := Cons(Some("avaliacao"), Num(5), Nil);
    FieldPrintable("avaliacao", Num(5), Nil);
    var r4 := Cons(Some("preco"), Num(Price(row).value), r5);
    FieldPrintable("preco", Num(Price(row).value), r5);
    var r3 := Cons(Some("imagem"), Str(row.imagem), r4);
    FieldPrintable("imagem", Str(row.imagem), r4);
    var r2 := Cons(Some("tipo"), Str(row.tipo), r3);
    FieldPrintable("tipo", Str(row.tipo), r3);
    FieldPrintable("nome", Str(row.nome), r2);
  }

  lemma {:induction false} ProductsPrintable(rows: seq<Row>)
    requires Priced(rows) && PlainRows(rows)
    ensures PrintableItems(Array, Products(rows)) && SupportedItems(Products(rows))
  {
    if rows != [] {
      FieldsPrintable(rows[0]);
      hide Fields, Price, PlainText;
      ProductsPrintable(rows[1..]);
    }
  }

  /** One object for each row, in order, with the five fields the pages read. The price is
      what `atoi` reads at the start of the image column. */
  predicate Lists(items: Items, rows: seq<Row>)
    decreases |rows|
  {
    match items
    case Nil => rows == []
    case Cons(key, value, rest) =>
      && rows != [] && key == None && Lists(rest, rows[1..])
      && match Atoi(rows[0].imagem + [NUL])
         case None => false
         case Some(price) =>
           value == Node(Object,
             Cons(Some("nome"), Str(rows[0].nome), Cons(Some("tipo"), Str(rows[0].tipo),
             Cons(Some("imagem"), Str(rows[0].imagem), Cons(Some("preco"), Num(price),
             Cons(Some("avaliacao"), Num(5), Nil))))))
  }

  lemma {:induction false} ProductsList(rows: seq<Row>)
    requires Priced(rows)
    ensures Lists(Products(rows), rows)
  {
    hide Atoi;
    if rows != [] { ProductsList(rows[1..]); }
  }

  /** The ordinary content of the image column is a path, which reads as the price 0. */
  lemma {:induction false} PathCostsNothing(nome: string, tipo: string, imagem: string)
    requires imagem != "" ==>
      imagem[0] !in "0123456789" && imagem[0] !in WHITE_SPACE && imagem[0] != '+' && imagem[0] != '-'
    ensures Price(Row(nome, tipo, imagem)) == Some(0)
  {
    var rest := imagem + [NUL];
    assert "" + "" + "" + rest == rest;
    if imagem == "" { assert NUL !in DIGITS && NUL !in WHITE_SPACE; }
    AtoiReads("", "", "", rest);
  }

  /** An image column that starts with a number gives its value as the price. */
  lemma {:induction false} NumberIsPrice(nome: string, tipo: string, n: int, more: string)
    requires -2147483648 <= n <= 2147483647 && (more != "" ==> more[0] !in "0123456789")
    ensures Price(Row(nome, tipo, Decimal(n) + more)) == Some(n)
  {
    var rest := more + [NUL];
    assert Decimal(n) + more + [NUL] == Decimal(n) + rest;
    DigitSpelled(rest[0]);
    hide Decimal, Atoi;
    AtoiDecimal(n, rest);
  }

  /** For any rows of plain strings whose JSON is under 10^9 bytes, the client reads status
      200, the three fields with a Content-Length that is the number of body bytes, and a body
      that lists the rows. */
  lemma {:induction false} EndToEnd(rows: seq<Row>)
    requires Priced(rows) && PlainRows(rows) && |Built(Array, Products(rows))| < 1_000_000_000
    ensures var text := Built(Array, Products(rows));
      && ReadResponse(Bytes(ListResponse(text))) == Some((200, "OK",
           [Header("Content-Type", "application/json"), Header("Content-Length", Decimal(|text|)),
            Header("Access-Control-Allow-Origin", "*")], text))
      && Read(text) == Some((Node(Array, Products(rows)), "")) && Lists(Products(rows), rows)
  {
    hide Built, Products, Read, ReadResponse, Bytes, Lists;
    ProductsList(rows);
    var text := Built(Array, Products(rows));
    ProductsPrintable(rows);
    BuildRoundTrip(Array, Products(rows));
    LengthTextExactly(|text|);
    BuiltNotEmpty(Array, Products(rows));
    ListReads(text);
  }

  lemma {:induction false} ListReads(text: seq<char>)
    requires text != ""
    ensures var r := ListResponse(text); ReadResponse(Bytes(r)) == Some((200, "OK", r.headers, text))
  {
    ListHeaders(text);
    assert text[..|text|] == text;
    ListFits(ListResponse(text), text);
    hide ReadResponse, Bytes, PlainHeaders, BodyBytes, LengthText;
    ResponseRoundTrip(ListResponse(text));
  }

  lemma {:induction false} BuiltNotEmpty(kind: Kind, items: Items)
    ensures Built(kind, items) != ""
  {
  }
}
