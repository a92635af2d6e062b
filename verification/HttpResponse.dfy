/** The response serializer of httpserver.c: a length computed ahead, then appends. */
module HttpResponse {
  import opened CStrings
  import opened LibTstr
  import opened HttpText

  /** `struct httpserver_response`; `reason` is the status text for `status`. */
  datatype Response = Response(
    status: int, reason: string, headers: seq<Header>, body: Option<seq<char>>, bodyLength: int)

  const VERSION := "HTTP/1.1 "

  /** What fits in `char status_text[3 + 1]`. */
  function StatusText(status: int): (s: string)
    ensures |s| <= 3
  {
    if |Decimal(status)| <= 3 then Decimal(status) else Decimal(status)[..3]
  }

  function StatusLine(r: Response): string {
    VERSION + StatusText(r.status) + " " + r.reason + CRLF
  }

  predicate BodyInMemory(r: Response) {
    r.body.Some? ==> InMemory(r.body.value, r.bodyLength)
  }

  function BodyBytes(r: Response): seq<char>
    requires BodyInMemory(r)
  {
    if r.body.None? then [] else Piece(r.body.value, r.bodyLength)
  }

  /** Everything the appends write. */
  function Bytes(r: Response): seq<char>
    requires BodyInMemory(r)
  {
    StatusLine(r) + (RenderHeaders(r.headers) + CRLF + BodyBytes(r))
  }

  function HeadersLength(hs: seq<Header>): nat {
    if hs == [] then 0
    else HeadersLength(hs[..|hs| - 1]) + |hs[|hs| - 1].key| + |hs[|hs| - 1].value| + 4
  }

  /** `_calculate_response_length`; the terminator counted in `sizeof` stands for the space
      after the status. */
  function Precomputed(r: Response): int {
    10 + 3 + |r.reason| + 2 + HeadersLength(r.headers) + 2 + if r.body.Some? then r.bodyLength else 0
  }

  method CalculateLength(r: Response) returns (length: int)
    ensures length == Precomputed(r)
  {
    length := 10;
    length := length + 3;
    length := length + |r.reason|;
    length := length + 2;
    for i := 0 to |r.headers|
      invariant length == 15 + |r.reason| + HeadersLength(r.headers[..i])
    {
      assert r.headers[..i + 1][..i] == r.headers[..i];
      length := length + |r.headers[i].key|;
      length := length + |r.headers[i].value|;
      length := length + 4;
    }
    assert r.headers[..|r.headers|] == r.headers;
    length := length + 2;
    if r.body.Some? { length := length + r.bodyLength; }
  }

  lemma {:induction false} RenderAppend(hs: seq<Header>, h: Header)
    ensures RenderHeaders(hs + [h]) == RenderHeaders(hs) + RenderHeader(h)
  {
    if hs == [] {
      assert hs + [h] == [h] && [h][1..] == [];
      assert RenderHeaders([h]) == RenderHeader(h) + "";
      assert "" + RenderHeader(h) == RenderHeader(h);
    } else {
      assert (hs + [h])[1..] == hs[1..] + [h];
      RenderAppend(hs[1..], h);
      var a, b, c := RenderHeader(hs[0]), RenderHeaders(hs[1..]), RenderHeader(h);
      assert a + (b + c) == a + b + c;
    }
  }

  lemma {:induction false} HeadersMeasured(hs: seq<Header>)
    ensures |RenderHeaders(hs)| == HeadersLength(hs)
  {
    if hs != [] {
      var n := |hs| - 1;
      assert hs == hs[..n] + [hs[n]];
      RenderAppend(hs[..n], hs[n]);
      HeadersMeasured(hs[..n]);
    }
  }

  // ----- the length is right -----

  /** How many of the three characters allowed for it the status leaves unwritten. */
  function StatusGap(status: int): nat {
    if status >= 100 || status <= -10 then 0 else if status >= 10 || status < 0 then 1 else 2
  }

  /** How many bytes of the body are written beyond the length it was counted with. A zero
      length makes the append fall back to the terminator; a negative one shortens the block
      but writes nothing less. */
  function Uncounted(r: Response): nat
    requires BodyInMemory(r)
  {
    if r.body.None? || r.bodyLength > 0 then 0
    else if r.bodyLength == 0 then |CStr(r.body.value)|
    else -r.bodyLength
  }

  lemma {:induction false} StatusWidth(status: int)
    ensures |StatusText(status)| == 3 - StatusGap(status)
  {
    var n: nat := if status < 0 then -status else status;
    assert |Digits(n)| >= 2 <==> n >= 10;
    assert n >= 10 ==> |Digits(n)| == |Digits(n / 10)| + 1;
    assert |Digits(n / 10)| >= 2 <==> n / 10 >= 10;
  }

  /** The precomputed length is the number of bytes written exactly when the bytes the body
      is not counted with make up for the ones a short status leaves out: for statuses of
      three characters, when there are none. */
  lemma {:induction false} LengthExactly(r: Response)
    requires BodyInMemory(r)
    ensures Precomputed(r) == |Bytes(r)| <==> StatusGap(r.status) == Uncounted(r)
    ensures |Bytes(r)| <= Precomputed(r) <==> Uncounted(r) <= StatusGap(r.status)
  {
    hide RenderHeaders, HeadersLength, Decimal, StatusText;
    StatusWidth(r.status);
    HeadersMeasured(r.headers);
  }

  /** For short statuses and a body measured by its length, the block ends in bytes nobody
      wrote. */
  lemma {:induction false} ShortStatus(r: Response)
    requires BodyInMemory(r) && Uncounted(r) == 0 && -10 < r.status < 100
    ensures |Bytes(r)| < Precomputed(r)
  {
    hide Bytes, Precomputed, StatusGap;
    LengthExactly(r);
    assert StatusGap(r.status) > 0 by { ShortGap(r.status); }
  }

  lemma {:induction false} ShortGap(status: int)
    ensures StatusGap(status) > 0 <==> -10 < status < 100
  {
  }

  // ----- the writer -----

  /** The strings of a response are C strings. */
  predicate Terminated(r: Response) {
    NUL !in r.reason && forall i | 0 <= i < |r.headers| :: NUL !in r.headers[i].key && NUL !in r.headers[i].value
  }

  // Each append answers the new length, or `None` when it would write past the block.

  method AppendString(str: array<char>, s: string, length: nat) returns (r: Option<nat>)
    requires NUL !in s && length <= str.Length
    modifies str
    ensures r == if length + |s| <= str.Length then Some(length + |s|) else None
    ensures r.Some? ==> str[..r.value] == old(str[..length]) + s
  {
    assert (s + [NUL])[|s|] == NUL;
    CStrUnique(s + [NUL], s);
    r := Append(str, s + [NUL], length, 0);
  }

  method AppendHeader(str: array<char>, h: Header, length: nat) returns (r: Option<nat>)
    requires NUL !in h.key && NUL !in h.value && length <= str.Length
    modifies str
    ensures r == if length + |RenderHeader(h)| <= str.Length then Some(length + |RenderHeader(h)|) else None
    ensures r.Some? ==> str[..r.value] == old(str[..length]) + RenderHeader(h)
  {
    var n :- AppendString(str, h.key, length);
    n :- AppendString(str, ": ", n);
    n :- AppendString(str, h.value, n);
    r := AppendString(str, CRLF, n);
  }

  method AppendStatusLine(str: array<char>, r: Response) returns (length: Option<nat>)
    requires NUL !in r.reason
    modifies str
    ensures length == if |StatusLine(r)| <= str.Length then Some(|StatusLine(r)|) else None
    ensures length.Some? ==> str[..length.value] == StatusLine(r)
  {
    assert NUL !in StatusText(r.status) by { DecimalPlain(r.status); }
    hide StatusText;
    var n :- AppendString(str, VERSION, 0);
    assert str[..n] == VERSION;
    n :- AppendString(str, StatusText(r.status), n);
    n :- AppendString(str, " ", n);
    assert str[..n] == VERSION + StatusText(r.status) + " ";
    n :- AppendString(str, r.reason, n);
    length := AppendString(str, CRLF, n);
  }

  lemma {:induction false} DecimalPlain(n: int)
    ensures forall c | c in Decimal(n) :: c == '-' || IsDigit(c)
  {
  }

  method AppendHeaders(str: array<char>, hs: seq<Header>, length: nat) returns (r: Option<nat>)
    requires forall i | 0 <= i < |hs| :: NUL !in hs[i].key && NUL !in hs[i].value
    requires length <= str.Length
    modifies str
    ensures r == if length + |RenderHeaders(hs)| <= str.Length then Some(length + |RenderHeaders(hs)|) else None
    ensures r.Some? ==> str[..r.value] == old(str[..length]) + RenderHeaders(hs)
  {
    var n := length;
    ghost var start := str[..length];
    assert start + RenderHeaders([]) == start;
    for i := 0 to |hs|
      invariant n == length + |RenderHeaders(hs[..i])| <= str.Length
      invariant str[..n] == start + RenderHeaders(hs[..i])
    {
      ghost var done := RenderHeaders(hs[..i]);
      assert hs[..i + 1] == hs[..i] + [hs[i]];
      RenderAppend(hs[..i], hs[i]);
      RenderPrefix(hs, i + 1);
      assert start + (done + RenderHeader(hs[i])) == start + done + RenderHeader(hs[i]);
      n :- AppendHeader(str, hs[i], n);
    }
    assert hs[..|hs|] == hs;
    return Some(n);
  }

  lemma {:induction false} RenderPrefix(hs: seq<Header>, n: nat)
    requires n <= |hs|
    ensures |RenderHeaders(hs[..n])| <= |RenderHeaders(hs)|
    decreases |hs| - n
  {
    if n < |hs| {
      assert hs[..n + 1] == hs[..n] + [hs[n]];
      RenderAppend(hs[..n], hs[n]);
      RenderPrefix(hs, n + 1);
    } else {
      assert hs[..n] == hs;
    }
  }

  /** `httpserver_send_response`: what is handed to the socket. `None` when the body is read
      or the block is written out of bounds; `LengthExactly` says when the bytes fit and
      when they fill the block. */
  method SendResponse(r: Response) returns (sent: Option<seq<char>>)
    requires Terminated(r)
    ensures sent.Some? <==> BodyInMemory(r) && |Bytes(r)| <= Precomputed(r)
    ensures sent.Some? ==> |sent.value| == Precomputed(r) && sent.value[..|Bytes(r)|] == Bytes(r)
  {
    hide RenderHeaders, HeadersLength, StatusLine, Piece, InMemory;
    var length := CalculateLength(r);
    if length < 0 { return None; }
    var responseString := new char[length];
    var position :- AppendStatusLine(responseString, r);
    position :- AppendHeaders(responseString, r.headers, position);
    position :- AppendString(responseString, CRLF, position);
    assert responseString[..position] == StatusLine(r) + (RenderHeaders(r.headers) + CRLF);
    if r.body.Some? {
      position :- Append(responseString, r.body.value, position, r.bodyLength);
    }
    assert responseString[..position] == Bytes(r);
    sent := Some(responseString[..]);
    assert sent.value[..position] == responseString[..position];
  }

  // ----- reading a response back -----

  /** RFC 9112, section 4: version, three digits, space, reason, then fields and body. */
  function ReadResponse(s: string): Option<(int, string, seq<Header>, string)> {
    if !("HTTP/1.1 " <= s) then None
    else
      match Cut(s[9..], "\r\n")
      case None => None
      case Some((line, rest)) =>
        if |line| < 4 || !AllDigits(line[..3]) || line[3] != ' ' then None
        else
          match ReadHeaders(rest)
          case None => None
          case Some((hs, body)) => Some((NatOf(line[..3]), line[4..], hs, body))
  }

  lemma {:induction false} ThreeDigits(status: int)
    requires 100 <= status <= 999
    ensures StatusText(status) == Digits(status) && |Digits(status)| == 3
  {
    StatusWidth(status);
    assert |Digits(status / 10)| == |Digits(status / 10 / 10)| + 1;
  }

  /** Whatever the status, what is written of it is the start of its decimal form. */
  lemma {:induction false} StatusSpelled(status: int)
    ensures StatusText(status) <= Decimal(status) && (|Decimal(status)| <= 3 ==> StatusText(status) == Decimal(status))
  {
  }

  lemma {:induction false} BodySpelled(r: Response)
    requires BodyInMemory(r)
    ensures BodyBytes(r) ==
      if r.body.None? || r.bodyLength < 0 then ""
      else if r.bodyLength > 0 then r.body.value[..r.bodyLength]
      else CStr(r.body.value)
  {
  }

  /** What is written reads back as the same status, reason, fields and body: the body as
      far as its length says, or the string in it when the length is 0. */
  lemma {:induction false} ResponseRoundTrip(r: Response)
    requires BodyInMemory(r) && 100 <= r.status <= 999 && Plain(r.reason) && PlainHeaders(r.headers)
    ensures ReadResponse(Bytes(r)) == Some((r.status, r.reason, r.headers,
      if r.body.None? || r.bodyLength < 0 then ""
      else if r.bodyLength > 0 then r.body.value[..r.bodyLength]
      else CStr(r.body.value)))
  {
    BodySpelled(r);
    hide RenderHeaders, ReadHeaders, Digits, BodyBytes, NatOf, StatusText, Cut;
    var d := StatusText(r.status);
    ThreeDigits(r.status);
    NatOfDigits(r.status);
    var line := d + " " + r.reason;
    var rest := RenderHeaders(r.headers) + CRLF + BodyBytes(r);
    assert Bytes(r) == VERSION + (line + CRLF + rest);
    assert (VERSION + (line + CRLF + rest))[|VERSION|..] == line + CRLF + rest;
    assert CR !in line;
    CutAtFirst(line, CRLF, rest);
    ReadRendered(r.headers, BodyBytes(r));
    assert line[..3] == d && line[4..] == r.reason;
  }
}
