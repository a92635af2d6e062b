/** The request parser of httpparser.c. */
module HttpParser {
  import opened CStrings
  import opened LibTstr
  import opened HttpText

  /** `Chunked` hands the request to the chunk decoder, which this model leaves out.
      `Undefined` is a read or write outside the memory the code was given. */
  datatype Verdict = Accepted | Rejected | Chunked | Undefined

  /** The contents of a `struct httpparser_request`, with its buffers read as C strings. */
  datatype Fields = Fields(verb: string, path: Option<string>, version: string,
    headers: seq<Header>, body: Option<string>, bodyLength: int, finished: bool)

  const METHODS: seq<string> := ["GET", "HEAD", "POST", "PUT", "DELETE", "CONNECT", "OPTIONS", "TRACE", "PATCH"]
  const METHOD_MAX := 6
  const VERSION_MAX := 3
  const KEY_MAX := 63
  const VALUE_MAX := 1023

  predicate Listed(verb: string) {
    verb in METHODS
  }

  method CheckMethod(m: string) returns (r: int)
    ensures r == 0 <==> Listed(m)
    ensures r == 0 || r == -1
  {
    for i := 0 to |METHODS|
      invariant m !in METHODS[..i]
    {
      if m == METHODS[i] { return 0; }
      assert METHODS[..i + 1] == METHODS[..i] + [METHODS[i]];
    }
    assert METHODS[..|METHODS|] == METHODS;
    return -1;
  }

  /** The methods, spelled out. */
  lemma {:induction false} ListedSpelled(verb: string)
    ensures Listed(verb) <==>
      || verb == "GET" || verb == "HEAD" || verb == "POST" || verb == "PUT" || verb == "DELETE"
      || verb == "CONNECT" || verb == "OPTIONS" || verb == "TRACE" || verb == "PATCH"
  {
    assert METHODS[0] == "GET" && METHODS[1] == "HEAD" && METHODS[2] == "POST" && METHODS[3] == "PUT";
    assert METHODS[4] == "DELETE" && METHODS[5] == "CONNECT" && METHODS[6] == "OPTIONS";
    assert METHODS[7] == "TRACE" && METHODS[8] == "PATCH";
  }

  // ----- lower case -----

  const CAPITALS := "ABCDEFGHIJKLMNOPQRSTUVWXYZ"
  const SMALL_LETTERS := "abcdefghijklmnopqrstuvwxyz"

  /** `l` is what lower-casing makes of `c`: the small letter of a capital, anything else
      unchanged. */
  predicate LowerCaseOf(l: char, c: char) {
    (forall i | 0 <= i < 26 :: c == CAPITALS[i] ==> l == SMALL_LETTERS[i]) && (c !in CAPITALS ==> l == c)
  }

  /** The same character, or the two forms of one letter. */
  predicate SameLetter(c: char, d: char) {
    c == d || exists i | 0 <= i < 26 ::
      (c == CAPITALS[i] && d == SMALL_LETTERS[i]) || (c == SMALL_LETTERS[i] && d == CAPITALS[i])
  }

  /** Equal without regard to case, as field names are compared (RFC 9110, section 5.1). */
  predicate SameName(s: string, t: string) {
    |s| == |t| && forall i | 0 <= i < |s| :: SameLetter(s[i], t[i])
  }

  function LowerChar(c: char): (l: char)
    ensures l == NUL <==> c == NUL
  {
    if 'A' <= c <= 'Z' then (c as int + 32) as char else c
  }

  function Lower(s: string): (l: string)
    ensures |l| == |s|
    ensures NUL !in s ==> NUL !in l
  {
    seq(|s|, i requires 0 <= i < |s| => LowerChar(s[i]))
  }

  lemma {:induction false} Alphabet(i: nat)
    requires i < 26
    ensures CAPITALS[i] as int == 65 + i && SMALL_LETTERS[i] as int == 97 + i
  {
  }

  lemma {:induction false} LowerCharSpelled(c: char)
    ensures LowerCaseOf(LowerChar(c), c)
  {
    forall i: nat | i < 26 ensures c == CAPITALS[i] ==> LowerChar(c) == SMALL_LETTERS[i] { Alphabet(i); }
    if 'A' <= c <= 'Z' {
      var i := c as int - 65;
      Alphabet(i);
      assert CAPITALS[i] == c;
    }
  }

  lemma {:induction false} SameLetterLowered(c: char, d: char)
    ensures LowerChar(c) == LowerChar(d) <==> SameLetter(c, d)
  {
    if c != d {
      if LowerChar(c) == LowerChar(d) {
        var i: nat := LowerChar(c) as int - 97;
        Alphabet(i);
        assert (c == CAPITALS[i] && d == SMALL_LETTERS[i]) || (c == SMALL_LETTERS[i] && d == CAPITALS[i]);
      }
      if SameLetter(c, d) {
        var i :| 0 <= i < 26 &&
          ((c == CAPITALS[i] && d == SMALL_LETTERS[i]) || (c == SMALL_LETTERS[i] && d == CAPITALS[i]));
        Alphabet(i);
      }
    }
  }

  /** Lower-casing makes two names equal exactly when they agree letter by letter up to
      case. */
  lemma {:induction false} LowerAgrees(s: string, t: string)
    ensures Lower(s) == Lower(t) <==> SameName(s, t)
  {
    if |s| == |t| {
      forall i | 0 <= i < |s| ensures Lower(s)[i] == Lower(t)[i] <==> SameLetter(s[i], t[i]) {
        SameLetterLowered(s[i], t[i]);
      }
      hide LowerChar, SameLetter;
      if Lower(s) != Lower(t) { var i :| 0 <= i < |s| && Lower(s)[i] != Lower(t)[i]; }
    }
  }

  /** The letters that end the string at `n` are lower-cased, all other characters stay. */
  method ToLowerCase(str: array<char>)
    requires NUL in str[..]
    modifies str
    ensures CStr(str[..]) == Lower(CStr(old(str[..])))
    ensures var n := |CStr(old(str[..]))|;
      && str[n..] == old(str[n..])
      && forall i | 0 <= i < n :: LowerCaseOf(str[i], old(str[i]))
  {
    ghost var s := CStr(str[..]);
    var i := 0;
    while str[i] != NUL
      invariant 0 <= i <= |s|
      invariant forall k | 0 <= k < i :: str[k] == LowerChar(s[k])
      invariant forall k | i <= k < str.Length :: str[k] == old(str[k])
      decreases |s| - i
    {
      assert i < |s| ==> str[i] == s[i];
      str[i] := LowerChar(str[i]);
      i := i + 1;
    }
    assert i == |s|;
    assert str[..i] == Lower(s);
    forall k | 0 <= k < i ensures LowerCaseOf(str[k], old(str[k])) { LowerCharSpelled(s[k]); }
    CStrUnique(str[..], Lower(s));
  }

  // ----- specification -----

  /** `memcpy` of `buf[from..to]` into a block with room for `room` characters and a
      terminator. `None` when the length is negative or does not fit. */
  function Copied(buf: seq<char>, from: nat, to: nat, room: nat): (r: Option<string>)
    ensures r.Some? ==> NUL !in r.value && |r.value| <= room
  {
    if from <= to <= |buf| && to - from <= room then Some(CStr(buf[from..to])) else None
  }

  function AtoiAt(buf: seq<char>, i: nat): (r: Option<int>)
    ensures r.Some? ==> FitsInt(r.value)
  {
    if i <= |buf| then Atoi(buf[i..]) else None
  }

  datatype Walked = Walked(verdict: Verdict, headers: seq<Header>, contentLength: int)

  datatype Turned = Stop(walked: Walked) | Next(headers: seq<Header>, lastEnd: nat, contentLength: int)

  /** One turn of the header loop, after a field that ended at `lastEnd`. */
  function Turn(headers: seq<Header>, max: nat, buf: seq<char>, lastEnd: nat, contentLength: int): (t: Turned)
    requires |headers| <= max
    ensures t.Stop? ==> t.walked.verdict != Chunked && |t.walked.headers| <= max
    ensures t.Next? ==> |headers| < |t.headers| <= max
  {
    var undefined := Stop(Walked(Undefined, headers, contentLength));
    match Find(buf, lastEnd + 2, 0, 0, CRLF, 0)
    case None => undefined
    case Some(header) =>
      match Find(buf, header.start, 0, 0, ": ", header.end)
      case None => undefined
      case Some(name) =>
        if name.start == 0 || name.end == 0 || |headers| >= max then Stop(Walked(Rejected, headers, contentLength))
        else
          var key := Copied(buf, name.start, name.end, KEY_MAX);
          var value := Copied(buf, name.end + 2, header.end, VALUE_MAX);
          if key.None? || value.None? then undefined
          else
            var stored := headers + [Header(Lower(key.value), value.value)];
            if Lower(key.value) != "content-length" then Next(stored, header.end, contentLength)
            else
              match AtoiAt(buf, header.start + 16)
              case None => Stop(Walked(Undefined, stored, contentLength))
              case Some(n) => Next(stored, header.end, n)
  }

  /** The header loop: one field a turn until a field ends at the blank line. */
  function Walk(headers: seq<Header>, max: nat, buf: seq<char>, headersEnd: nat, lastEnd: nat, contentLength: int)
    : (w: Walked)
    requires |headers| <= max
    ensures w.verdict != Chunked && |w.headers| <= max
    decreases max - |headers|
  {
    if lastEnd == headersEnd then Walked(Accepted, headers, contentLength)
    else
      match Turn(headers, max, buf, lastEnd, contentLength)
      case Stop(w) => w
      case Next(hs, next, n) => Walk(hs, max, buf, headersEnd, next, n)
  }

  /** The value of the first field with that name. */
  function Lookup(headers: seq<Header>, key: string): (r: Option<string>) {
    if headers == [] then None
    else if headers[0].key == key then Some(headers[0].value)
    else Lookup(headers[1..], key)
  }

  function ParseBody(f: Fields, buf: seq<char>, length: int, headersEnd: nat, contentLength: int): (Verdict, Fields)
    requires length <= |buf|
  {
    var coding := Lookup(f.headers, "transfer-encoding");
    if contentLength > 0 || coding.Some? then
      if Lookup(f.headers, "content-type").None? then (Rejected, f)
      else if coding == Some("chunked") then (Chunked, f)
      else if length - headersEnd - 4 != contentLength then (Rejected, f)
      else if contentLength < 0 then (Undefined, f)
      else (Accepted, f.(body := Some(buf[headersEnd + 4..headersEnd + 4 + contentLength]),
                         bodyLength := contentLength, finished := true))
    else (Accepted, f)
  }

  function ParseHeaders(f: Fields, max: nat, buf: seq<char>, length: int, headersEnd: nat, lastEnd: nat)
    : (Verdict, Fields)
    requires |f.headers| <= max && length <= |buf|
  {
    var w := Walk(f.headers, max, buf, headersEnd, lastEnd, 0);
    var g := f.(headers := w.headers);
    if w.verdict == Accepted then ParseBody(g, buf, length, headersEnd, w.contentLength) else (w.verdict, g)
  }

  function ParseVersion(f: Fields, max: nat, buf: seq<char>, length: int, headersEnd: nat, pathEnd: nat)
    : (Verdict, Fields)
    requires |f.headers| <= max && length <= |buf|
  {
    match Find(buf, pathEnd + 6, 0, 0, CRLF, 0)
    case None => (Undefined, f)
    case Some(token) =>
      if token.end == 0 then (Rejected, f)
      else
        match Copied(buf, token.start, token.end, VERSION_MAX)
        case None => (Undefined, f)
        case Some(version) =>
          var g := f.(version := version);
          if version != "1.1" then (Rejected, g) else ParseHeaders(g, max, buf, length, headersEnd, token.end)
  }

  function ParsePath(f: Fields, max: nat, buf: seq<char>, length: int, headersEnd: nat, verbEnd: nat): (Verdict, Fields)
    requires |f.headers| <= max && length <= |buf|
  {
    match Find(buf, verbEnd + 1, 0, 0, " ", 0)
    case None => (Undefined, f)
    case Some(token) =>
      if token.end == 0 then (Rejected, f)
      else
        match Copied(buf, token.start, token.end, |buf|)
        case None => (Undefined, f)
        case Some(path) => ParseVersion(f.(path := Some(path)), max, buf, length, headersEnd, token.end)
  }

  function ParseVerb(f: Fields, max: nat, buf: seq<char>, length: int, headersEnd: nat): (Verdict, Fields)
    requires |f.headers| <= max && length <= |buf|
  {
    match Find(buf, 0, 0, 0, " ", 0)
    case None => (Undefined, f)
    case Some(token) =>
      if token.end == 0 then (Rejected, f)
      else
        match Copied(buf, 0, token.end, METHOD_MAX)
        case None => (Undefined, f)
        case Some(m) =>
          var g := f.(verb := m);
          if !Listed(m) then (Rejected, g) else ParsePath(g, max, buf, length, headersEnd, token.end)
  }

  /** The whole parser as a function of the request structure it starts from. */
  function Parsed(f: Fields, max: nat, buf: seq<char>, length: int): (Verdict, Fields)
    requires |f.headers| <= max && length <= |buf|
  {
    match Find(buf, 0, 0, 0, BLANK_LINE, 0)
    case None => (Undefined, f)
    case Some(headersEnd) =>
      if headersEnd.end == 0 then (Rejected, f) else ParseVerb(f, max, buf, length, headersEnd.end)
  }

  // ----- the parser -----

  class Request {
    var verb: string
    var path: Option<string>
    var version: string
    var headersLength: nat
    var headersMaxLength: nat
    var headers: array<Header>
    var body: Option<string>
    var bodyLength: int
    var finished: bool

    ghost predicate Valid()
      reads this
    {
      headersLength <= headersMaxLength <= headers.Length
    }

    ghost function Contents(): Fields
      requires Valid()
      reads this, headers
    {
      Fields(verb, path, version, headers[..headersLength], body, bodyLength, finished)
    }

    /** `httpparser_init_request` leaves the other fields as the allocator left them. */
    constructor (buffer: array<Header>, length: nat)
      requires length <= buffer.Length
      ensures Valid() && headers == buffer && headersMaxLength == length
      ensures path == None && headersLength == 0 && body == None
    {
      path, body := None, None;
      headersLength, headersMaxLength, headers := 0, length, buffer;
      verb, version, bodyLength, finished := *, *, *, *;
    }

    /** `httpparser_get_header`, as the value of the field it points to. */
    method GetHeader(key: string) returns (r: Option<string>)
      requires Valid()
      ensures r == Lookup(headers[..headersLength], key)
    {
      var i := 0;
      while i < headersLength
        invariant 0 <= i <= headersLength
        invariant Lookup(headers[..headersLength], key) == Lookup(headers[i..headersLength], key)
      {
        if headers[i].key == key { return Some(headers[i].value); }
        assert headers[i..headersLength][1..] == headers[i + 1..headersLength];
        i := i + 1;
      }
      return None;
    }

    method StoreKey(key: string) returns (lowered: string)
      requires |key| <= KEY_MAX && NUL !in key
      ensures lowered == Lower(key)
    {
      var block := new char[KEY_MAX + 1](i => if 0 <= i < |key| then key[i] else NUL);
      assert block[|key|] == NUL && block[..|key|] == key;
      CStrUnique(block[..], key);
      ToLowerCase(block);
      lowered := CStr(block[..]);
    }

    /** The body of the header loop. */
    method TakeTurn(buf: seq<char>, lastEnd: nat, contentLength: int) returns (t: Turned)
      requires Valid()
      modifies this`headersLength, headers
      ensures Valid()
      ensures t == Turn(old(headers[..headersLength]), headersMaxLength, buf, lastEnd, contentLength)
      ensures headers[..headersLength] == if t.Stop? then t.walked.headers else t.headers
    {
      hide Find, Copied, AtoiAt, Lower;
      var undefined := Stop(Walked(Undefined, headers[..headersLength], contentLength));
      var header := FindBetween(buf, lastEnd + 2, CRLF, 0);
      if header.None? { return undefined; }
      var name := FindBetween(buf, header.value.start, ": ", header.value.end);
      if name.None? { return undefined; }
      if name.value.start == 0 || name.value.end == 0 || headersLength >= headersMaxLength {
        return Stop(Walked(Rejected, headers[..headersLength], contentLength));
      }
      var key := Copied(buf, name.value.start, name.value.end, KEY_MAX);
      var value := Copied(buf, name.value.end + 2, header.value.end, VALUE_MAX);
      if key.None? || value.None? { return undefined; }
      var lowered := StoreKey(key.value);
      ghost var before := headers[..headersLength];
      headers[headersLength] := Header(lowered, value.value);
      assert headers[..headersLength + 1] == before + [Header(lowered, value.value)];
      headersLength := headersLength + 1;
      var n := contentLength;
      if lowered == "content-length" {
        var number := AtoiAt(buf, header.value.start + 16);
        if number.None? { return Stop(Walked(Undefined, headers[..headersLength], contentLength)); }
        n := number.value;
      }
      return Next(headers[..headersLength], header.value.end, n);
    }

    method WalkHeaders(buf: seq<char>, headersEnd: nat, versionEnd: nat) returns (verdict: Verdict, contentLength: int)
      requires Valid()
      modifies this`headersLength, headers
      ensures Valid()
      ensures Walk(old(headers[..headersLength]), headersMaxLength, buf, headersEnd, versionEnd, 0)
        == Walked(verdict, headers[..headersLength], contentLength)
    {
      hide Turn;
      contentLength := 0;
      var lastEnd := versionEnd;
      while lastEnd != headersEnd
        invariant Valid()
        invariant Walk(old(headers[..headersLength]), headersMaxLength, buf, headersEnd, versionEnd, 0)
          == Walk(headers[..headersLength], headersMaxLength, buf, headersEnd, lastEnd, contentLength)
        decreases headersMaxLength - headersLength
      {
        var turn := TakeTurn(buf, lastEnd, contentLength);
        match turn
        case Stop(w) => return w.verdict, w.contentLength;
        case Next(_, end, n) => lastEnd, contentLength := end, n;
      }
      return Accepted, contentLength;
    }

    // `httpparser_parse_request`, cut into the stages of its specification.

    method TakeBody(buf: seq<char>, length: int, headersEnd: nat, contentLength: int) returns (verdict: Verdict)
      requires Valid() && length <= |buf|
      modifies this, headers
      ensures Valid() && headers == old(headers) && headersMaxLength == old(headersMaxLength)
      ensures (verdict, Contents()) == ParseBody(old(Contents()), buf, length, headersEnd, contentLength)
    {
      var coding := GetHeader("transfer-encoding");
      if contentLength > 0 || coding.Some? {
        var contentType := GetHeader("content-type");
        if contentType.None? { return Rejected; }
        if coding == Some("chunked") { return Chunked; }
        if length - headersEnd - 4 != contentLength { return Rejected; }
        if contentLength < 0 { return Undefined; }
        body := Some(buf[headersEnd + 4..headersEnd + 4 + contentLength]);
        bodyLength, finished := contentLength, true;
      }
      return Accepted;
    }

    method TakeVersion(buf: seq<char>, length: int, headersEnd: nat, pathEnd: nat) returns (verdict: Verdict)
      requires Valid() && length <= |buf|
      modifies this, headers
      ensures Valid() && headers == old(headers) && headersMaxLength == old(headersMaxLength)
      ensures (verdict, Contents()) == ParseVersion(old(Contents()), headersMaxLength, buf, length, headersEnd, pathEnd)
    {
      var token := FindBetween(buf, pathEnd + 1 + 6 - 1, CRLF, 0);
      if token.None? { return Undefined; }
      if token.value.end == 0 { return Rejected; }
      var v := Copied(buf, token.value.start, token.value.end, VERSION_MAX);
      if v.None? { return Undefined; }
      version := v.value;
      if version != "1.1" { return Rejected; }
      var contentLength;
      verdict, contentLength := WalkHeaders(buf, headersEnd, token.value.end);
      if verdict == Accepted { verdict := TakeBody(buf, length, headersEnd, contentLength); }
    }

    method TakePath(buf: seq<char>, length: int, headersEnd: nat, verbEnd: nat) returns (verdict: Verdict)
      requires Valid() && length <= |buf|
      modifies this, headers
      ensures Valid() && headers == old(headers) && headersMaxLength == old(headersMaxLength)
      ensures (verdict, Contents()) == ParsePath(old(Contents()), headersMaxLength, buf, length, headersEnd, verbEnd)
    {
      var token := FindBetween(buf, verbEnd + 1, " ", 0);
      if token.None? { return Undefined; }
      if token.value.end == 0 { return Rejected; }
      var p := Copied(buf, token.value.start, token.value.end, |buf|);
      if p.None? { return Undefined; }
      path := p;
      verdict := TakeVersion(buf, length, headersEnd, token.value.end);
    }

    method Parse(buf: seq<char>, length: int) returns (verdict: Verdict)
      requires Valid() && length <= |buf|
      modifies this, headers
      ensures Valid() && headers == old(headers) && headersMaxLength == old(headersMaxLength)
      ensures (verdict, Contents()) == Parsed(old(Contents()), headersMaxLength, buf, length)
    {
      var headersEnd := FindBetween(buf, 0, BLANK_LINE, 0);
      if headersEnd.None? { return Undefined; }
      if headersEnd.value.end == 0 { return Rejected; }
      var token := FindBetween(buf, 0, " ", 0);
      if token.None? { return Undefined; }
      if token.value.end == 0 { return Rejected; }
      var m := Copied(buf, 0, token.value.end, METHOD_MAX);
      if m.None? { return Undefined; }
      verb := m.value;
      var listed := CheckMethod(verb);
      if listed == -1 { return Rejected; }
      verdict := TakePath(buf, length, headersEnd.value.end, token.value.end);
    }
  }
}
