/** What the request parser does on well-formed requests: exactly which ones it accepts,
    and that parsing inverts printing. */
module HttpRequests {
  import opened CStrings
  import opened LibTstr
  import opened HttpText
  import opened HttpParser

  datatype Message = Message(verb: string, path: string, version: string, headers: seq<Header>, body: string)

  function RequestLine(m: Message): string {
    m.verb + " " + m.path + " HTTP/" + m.version
  }

  /** RFC 9112, section 2.1: request line, field lines, empty line, body. */
  function Render(m: Message): string {
    RequestLine(m) + (CRLF + RenderHeaders(m.headers) + CRLF) + m.body
  }

  function Line(h: Header): string {
    h.key + ": " + h.value
  }

  /** The field lines, each after the CRLF that ends the line before it. */
  function Lines(hs: seq<Header>): string {
    if hs == [] then "" else CRLF + (Line(hs[0]) + Lines(hs[1..]))
  }

  /** Everything before the blank line. */
  function Head(m: Message): (s: string)
    ensures |s| > 0
  {
    RequestLine(m) + Lines(m.headers)
  }

  lemma {:induction false} LinesRendered(hs: seq<Header>)
    ensures CRLF + RenderHeaders(hs) == Lines(hs) + CRLF
  {
    if hs == [] {
      assert CRLF + "" == "" + CRLF;
    } else {
      LinesRendered(hs[1..]);
      var line, lines := Line(hs[0]), Lines(hs[1..]);
      assert CRLF + (line + CRLF + RenderHeaders(hs[1..])) == CRLF + (line + (CRLF + RenderHeaders(hs[1..])));
      assert CRLF + (line + (lines + CRLF)) == CRLF + (line + lines) + CRLF;
    }
  }

  lemma {:induction false} RenderIsHead(m: Message)
    ensures Render(m) == Head(m) + (BLANK_LINE + m.body)
  {
    LinesRendered(m.headers);
    hide RequestLine, Lines, RenderHeaders;
    var line, lines := RequestLine(m), Lines(m.headers);
    assert line + (CRLF + RenderHeaders(m.headers) + CRLF) == line + ((lines + CRLF) + CRLF);
    assert line + ((lines + CRLF) + CRLF) + m.body == (line + lines) + (BLANK_LINE + m.body);
  }

  /** A field of any length. A content-length must not be blank, as `atoi` would then read on
      into the next line. */
  predicate IsField(h: Header) {
    PlainHeader(h) && (SameName(h.key, "content-length") ==> SpaceRun(h.value) < |h.value|)
  }

  /** A name or value too long for its buffer, or a content-length too large for an `int`. */
  predicate Overflows(h: Header) {
    |h.key| > 63 || |h.value| > 1023 || (SameName(h.key, "content-length") && Atoi(h.value + [CR]).None?)
  }

  predicate Fits(h: Header) {
    IsField(h) && !Overflows(h)
  }

  predicate AreFields(hs: seq<Header>) {
    forall i | 0 <= i < |hs| :: IsField(hs[i])
  }

  predicate AllFit(hs: seq<Header>) {
    forall i | 0 <= i < |hs| :: Fits(hs[i])
  }

  /** Index of the first field that overflows, or the number of fields. */
  function FirstOverflow(hs: seq<Header>): (i: nat)
    ensures i <= |hs| && (i < |hs| ==> Overflows(hs[i]))
    ensures forall k | 0 <= k < i :: !Overflows(hs[k])
  {
    hide Overflows;
    if hs == [] || Overflows(hs[0]) then 0 else 1 + FirstOverflow(hs[1..])
  }

  lemma {:induction false} FitBeforeOverflow(hs: seq<Header>)
    requires AreFields(hs)
    ensures AllFit(hs[..FirstOverflow(hs)]) && (FirstOverflow(hs) == |hs| <==> AllFit(hs))
  {
    hide IsField, Overflows;
  }

  /** Any body is allowed, NUL and CRLF included. */
  predicate WellFormed(m: Message) {
    Plain(m.verb) && ' ' !in m.verb && Plain(m.path) && ' ' !in m.path && Plain(m.version) && AreFields(m.headers)
  }

  /** The last content-length field decides; without one the length is `n`. One that is too
      large never gets to decide and is passed over here. */
  function Declared(hs: seq<Header>, n: int): int {
    if hs == [] then n
    else
      var number := Atoi(hs[0].value + [CR]);
      Declared(hs[1..], if SameName(hs[0].key, "content-length") && number.Some? then number.value else n)
  }

  function Lowered(hs: seq<Header>): (ls: seq<Header>)
    ensures |ls| == |hs|
  {
    seq(|hs|, i requires 0 <= i < |hs| => Header(Lower(hs[i].key), hs[i].value))
  }

  /** The names the parser compares with are in lower case already. */
  predicate InLowerCase(name: string) {
    name == "content-length" || name == "content-type" || name == "transfer-encoding"
  }

  lemma {:induction false} ComparedNames(name: string, key: string)
    requires InLowerCase(name)
    ensures Lower(key) == name <==> SameName(key, name)
  {
    assert Lower(name) == name;
    LowerAgrees(key, name);
  }

  predicate HasField(hs: seq<Header>, key: string) {
    exists i | 0 <= i < |hs| :: SameName(hs[i].key, key)
  }

  // ----- text at a position of the buffer -----

  predicate At(buf: seq<char>, i: nat, s: string) {
    i + |s| <= |buf| && buf[i..i + |s|] == s
  }

  lemma {:induction false} AtParts(buf: seq<char>, i: nat, s: string, t: string)
    requires At(buf, i, s + t)
    ensures At(buf, i, s) && At(buf, i + |s|, t)
    ensures forall k | i <= k < i + |s| :: buf[k] == s[k - i]
  {
    var w := buf[i..i + |s + t|];
    assert w[..|s|] == buf[i..i + |s|];
    assert w[|s|..] == buf[i + |s|..i + |s| + |t|];
    assert (s + t)[..|s|] == s && (s + t)[|s|..] == t;
    assert forall k | i <= k < i + |s| :: buf[k] == buf[i..i + |s|][k - i];
  }

  /** Searching from the start of a text that is free of the delimiter's first character
      finds the delimiter that ends it. */
  lemma {:induction false} FindsEnd(buf: seq<char>, s: nat, text: string, d: string, len: int)
    requires Delimiter(d) && At(buf, s, text + d) && s + |text| > 0
    requires d[0] !in text && NUL !in text
    ensures Find(buf, s, 0, 0, d, len) == Some(Token(s, s + |text|))
  {
    var p := s + |text|;
    AtParts(buf, s, text, d);
    assert d + "" == d;
    AtParts(buf, p, d, "");
    assert forall k | s <= k < p :: buf[k] in text;
    assert OccursAt(buf, d, p) by {
      assert forall k | 0 <= k < |d| :: d[k] == buf[p + k];
    }
    forall q | s <= q < p
      ensures !OccursAt(buf, d, q)
    {
      assert buf[q + 0] in text;
    }
    assert RunBefore(buf, d[0], s, p) == 0;
    FirstOccurrence(buf, d, s, p, len);
  }

  /** A line ends in CR and LF, or in CR and the NUL that ends the string. */
  predicate LineEnd(buf: seq<char>, e: nat) {
    e + 2 <= |buf| && buf[e] == CR && (buf[e + 1] == '\n' || buf[e + 1] == NUL)
  }

  predicate TwoNuls(buf: seq<char>, e: nat) {
    e + 2 <= |buf| && buf[e] == NUL == buf[e + 1]
  }

  /** What a search for CRLF takes for the end of the line. */
  function Stopped(buf: seq<char>, e: nat): nat
    requires e < |buf|
  {
    if buf[e] == CR then e else e + 1
  }

  /** A search for CRLF from the start of a line finds its end, even one cut short; before
      two NULs it answers the second. */
  lemma {:induction false} FindsLineEnd(buf: seq<char>, s: nat, text: string)
    requires At(buf, s, text) && s + |text| > 0 && Plain(text)
    requires LineEnd(buf, s + |text|) || TwoNuls(buf, s + |text|)
    ensures Find(buf, s, 0, 0, CRLF, 0) == Some(Token(s, Stopped(buf, s + |text|)))
  {
    var e := s + |text|;
    assert forall k | s <= k < e :: buf[k] == buf[s..e][k - s];
    assert forall k | s <= k < e :: buf[k] in text;
    if buf[e + 1] == '\n' {
      AtJoin(buf, s, text, CRLF);
      FindsEnd(buf, s, text, CRLF, 0);
    } else {
      assert CRLF[0] == CR && CRLF[1] == '\n';
      assert RunBefore(buf, CR, s, e) == 0;
      assert NoneVisible(buf, CRLF, s, e + 1) by {
        forall q | s <= q && q + 2 <= e + 1 ensures !OccursAt(buf, CRLF, q) { assert buf[q + 0] in text; }
      }
      if buf[e] == NUL {
        var pending := Absent(buf, CRLF, s, e, 0);
      } else {
        assert RunBefore(buf, CR, s, e + 1) == 1;
        var pending := Absent(buf, CRLF, s, e + 1, 0);
      }
    }
  }

  // ----- the blank line -----

  lemma {:induction false} ScanPlain(buf: seq<char>, i: nat, k: nat, j: nat, end: nat)
    requires i < k <= |buf| && (j == 0 || j == 2)
    requires forall q | i <= q < k :: buf[q] != CR && buf[q] != NUL
    ensures Scan(buf, i, j, end, BLANK_LINE) == Scan(buf, k, 0, 0, BLANK_LINE)
    decreases k - i
  {
    assert Scan(buf, i, j, end, BLANK_LINE) == Scan(buf, i + 1, 0, 0, BLANK_LINE);
    if i + 1 < k { ScanPlain(buf, i + 1, k, 0, 0); }
  }

  /** A part of the blank line is remembered with the index where it starts. */
  lemma {:induction false} ScanPart(buf: seq<char>, i: nat, part: string)
    requires i > 0 && At(buf, i, part) && part <= BLANK_LINE && |part| < 4
    ensures Scan(buf, i, 0, 0, BLANK_LINE)
      == Scan(buf, i + |part|, |part|, if part == "" then 0 else i, BLANK_LINE)
  {
    if part != "" {
      var n := |part| - 1;
      assert part == part[..n] + [part[n]];
      AtParts(buf, i, part[..n], [part[n]]);
      ScanPart(buf, i, part[..n]);
      assert buf[i + n] == part[n] == BLANK_LINE[n];
    }
  }

  /** Field lines at `i`, taken apart at the first. */
  lemma {:induction false} FirstLine(buf: seq<char>, i: nat, hs: seq<Header>)
    requires hs != [] && At(buf, i, Lines(hs))
    ensures var next := i + 2 + |Line(hs[0])|;
      && At(buf, i, CRLF) && At(buf, i + 2, Line(hs[0])) && At(buf, next, Lines(hs[1..]))
      && i + |Lines(hs)| == next + |Lines(hs[1..])|
  {
    AtParts(buf, i, CRLF, Line(hs[0]) + Lines(hs[1..]));
    AtParts(buf, i + 2, Line(hs[0]), Lines(hs[1..]));
  }

  /** The search for the blank line runs over field lines without effect. */
  lemma {:induction false} ScanLines(buf: seq<char>, i: nat, hs: seq<Header>)
    requires i > 0 && PlainHeaders(hs) && At(buf, i, Lines(hs))
    ensures Scan(buf, i, 0, 0, BLANK_LINE) == Scan(buf, i + |Lines(hs)|, 0, 0, BLANK_LINE)
    decreases |hs|
  {
    hide Scan;
    if hs != [] {
      FirstLine(buf, i, hs);
      hide Lines;
      var k := i + 2 + |Line(hs[0])|;
      ScanPart(buf, i, CRLF);
      assert forall q | i + 2 <= q < k :: buf[q] == Line(hs[0])[q - i - 2];
      assert PlainHeader(hs[0]);
      ScanPlain(buf, i + 2, k, 2, i);
      ScanLines(buf, k, hs[1..]);
    }
  }

  // ----- the header walk -----

  lemma {:induction false} CopiedWhole(buf: seq<char>, from: nat, text: string, room: nat)
    requires At(buf, from, text) && NUL !in text && |text| <= room
    ensures Copied(buf, from, from + |text|, room) == Some(text)
  {
    CStrUnique(text, text);
  }

  lemma {:induction false} CopiedWithNul(buf: seq<char>, from: nat, text: string, room: nat)
    requires At(buf, from, text) && NUL !in text && from + |text| < |buf| && buf[from + |text|] == NUL
    ensures Copied(buf, from, from + |text| + 1, room) == if |text| < room then Some(text) else None
  {
    if |text| < room {
      var w := buf[from..from + |text| + 1];
      assert w == text + [NUL];
      CStrUnique(w, text);
    }
  }

  /** What the two searches of a header turn find in the line of field `h` at `start`. */
  lemma {:induction false} LineTokens(buf: seq<char>, start: nat, h: Header)
    requires PlainHeader(h) && start > 0 && At(buf, start, Line(h))
    requires LineEnd(buf, start + |Line(h)|) || TwoNuls(buf, start + |Line(h)|)
    ensures var next := Stopped(buf, start + |Line(h)|);
      && Find(buf, start, 0, 0, CRLF, 0) == Some(Token(start, next))
      && Find(buf, start, 0, 0, ": ", next) == Some(Token(start, start + |h.key|))
    ensures At(buf, start, h.key) && At(buf, start + |h.key| + 2, h.value)
  {
    hide Find;
    FindsLineEnd(buf, start, Line(h));
    AtParts(buf, start, h.key + ": ", h.value);
    FindsEnd(buf, start, h.key, ": ", Stopped(buf, start + |Line(h)|));
    AtParts(buf, start, h.key, ": ");
  }

  /** What the turn copies. A copy that ends at two NULs takes the first along and needs
      room for it. */
  lemma {:induction false} LineCopies(buf: seq<char>, start: nat, h: Header)
    requires PlainHeader(h) && start > 0 && At(buf, start, h.key) && At(buf, start + |h.key| + 2, h.value)
    requires LineEnd(buf, start + |Line(h)|) || TwoNuls(buf, start + |Line(h)|)
    ensures Copied(buf, start, start + |h.key|, KEY_MAX) == if |h.key| <= 63 then Some(h.key) else None
    ensures var next := Stopped(buf, start + |Line(h)|);
      Copied(buf, start + |h.key| + 2, next, VALUE_MAX)
        == if |h.value| + (next - start - |Line(h)|) <= 1023 then Some(h.value) else None
  {
    var from := start + |h.key| + 2;
    if |h.key| <= 63 { CopiedWhole(buf, start, h.key, KEY_MAX); }
    if buf[from + |h.value|] == NUL {
      CopiedWithNul(buf, from, h.value, VALUE_MAX);
    } else if |h.value| <= 1023 {
      CopiedWhole(buf, from, h.value, VALUE_MAX);
    }
  }

  /** The content-length is read where its value starts and no further. */
  lemma {:induction false} LineNumber(buf: seq<char>, start: nat, value: string)
    requires SpaceRun(value) < |value| && At(buf, start, value)
    requires start + |value| < |buf| && !IsDigit(buf[start + |value|])
    ensures AtoiAt(buf, start) == Atoi(value + [CR])
  {
    hide Atoi, SpaceRun;
    var k := start + |value|;
    assert buf[start..] == buf[start..k] + [buf[k]] + buf[k + 1..];
    AtoiLocal(value, buf[k], buf[k + 1..]);
  }

  lemma {:induction false} AtJoin(buf: seq<char>, i: nat, s: string, t: string)
    requires At(buf, i, s) && At(buf, i + |s|, t)
    ensures At(buf, i, s + t)
  {
    assert buf[i..i + |s + t|] == buf[i..i + |s|] + buf[i + |s|..i + |s| + |t|];
  }

  lemma {:induction false} OneField(h: Header, n: int)
    requires Fits(h)
    ensures Lowered([h]) == [Header(Lower(h.key), h.value)]
    ensures Declared([h], n) == if SameName(h.key, "content-length") then Atoi(h.value + [CR]).value else n
  {
    assert [h][1..] == [];
  }

  lemma {:induction false} NameLength(key: string, name: string)
    ensures SameName(key, name) ==> |key| == |name|
  {
  }

  /** A turn, given what its searches and copies answer. */
  lemma {:induction false} TurnFound(
      acc: seq<Header>, max: nat, buf: seq<char>, last: nat, h: Header, n: int, next: nat, value: Option<string>)
    requires |acc| <= max && Find(buf, last + 2, 0, 0, CRLF, 0) == Some(Token(last + 2, next))
    requires Find(buf, last + 2, 0, 0, ": ", next) == Some(Token(last + 2, last + 2 + |h.key|))
    requires Copied(buf, last + 2, last + 2 + |h.key|, KEY_MAX) == if |h.key| <= 63 then Some(h.key) else None
    requires Copied(buf, last + 2 + |h.key| + 2, next, VALUE_MAX) == value && (value.Some? ==> value == Some(h.value))
    ensures var t, stored := Turn(acc, max, buf, last, n), acc + [Header(Lower(h.key), h.value)];
      if |acc| == max then t == Stop(Walked(Rejected, acc, n))
      else if |h.key| > 63 || value.None? then t == Stop(Walked(Undefined, acc, n))
      else if !SameName(h.key, "content-length") then t == Next(stored, next, n)
      else
        match AtoiAt(buf, last + 18)
        case None => t == Stop(Walked(Undefined, stored, n))
        case Some(k) => t == Next(stored, next, k)
  {
    assert InLowerCase("content-length");
    hide Find, Copied, AtoiAt, Lower, SameName, InLowerCase;
    ComparedNames("content-length", h.key);
    if |acc| < max && |h.key| <= 63 && value.Some? {
      assert !SameName(h.key, "content-length") ==> Lower(h.key) != "content-length";
    }
  }

  /** One turn of the header loop on the line of one field: it is stored, or something is
      written past its buffer, or the table is full. */
  lemma {:induction false} TurnOnField(acc: seq<Header>, max: nat, buf: seq<char>, last: nat, h: Header, n: int)
    requires |acc| <= max && IsField(h) && At(buf, last + 2, Line(h))
    requires LineEnd(buf, last + 2 + |Line(h)|) || TwoNuls(buf, last + 2 + |Line(h)|)
    ensures var t, e := Turn(acc, max, buf, last, n), last + 2 + |Line(h)|;
      if |acc| == max then t == Stop(Walked(Rejected, acc, n))
      else if Overflows(h) || (TwoNuls(buf, e) && |h.value| == 1023) then
        t.Stop? && t.walked.verdict == Undefined
      else t == Next(acc + Lowered([h]), Stopped(buf, e), Declared([h], n))
  {
    NameLength(h.key, "content-length");
    hide Find, SpaceRun, Copied, AtoiAt, Atoi, At, Lower, Declared, SameName, Turn, Plain;
    var next := Stopped(buf, last + 2 + |Line(h)|);
    LineTokens(buf, last + 2, h);
    LineCopies(buf, last + 2, h);
    TurnFound(acc, max, buf, last, h, n, next, Copied(buf, last + 2 + |h.key| + 2, next, VALUE_MAX));
    if Fits(h) { OneField(h, n); }
    if SameName(h.key, "content-length") { LineNumber(buf, last + 18, h.value); }
  }

  /** Where the first of some lines begins and ends. */
  lemma {:induction false} FirstEnds(buf: seq<char>, i: nat, hs: seq<Header>)
    requires hs != [] && At(buf, i, Lines(hs))
    requires LineEnd(buf, i + |Lines(hs)|) || TwoNuls(buf, i + |Lines(hs)|)
    ensures var e := i + 2 + |Line(hs[0])|;
      LineEnd(buf, i) && e <= i + |Lines(hs)| && if |hs| == 1 then e == i + |Lines(hs)| else LineEnd(buf, e)
  {
    FirstLine(buf, i, hs);
    assert CRLF + "" == CRLF;
    AtParts(buf, i, CRLF, "");
    if |hs| > 1 {
      var next := i + 2 + |Line(hs[0])|;
      FirstLine(buf, next, hs[1..]);
      AtParts(buf, next, CRLF, "");
    }
  }

  /** One turn of the header loop stores exactly the next field and stops at the end of its
      line, strictly further on and not beyond the blank line. */
  lemma {:induction false} WalkStep(acc: seq<Header>, max: nat, buf: seq<char>, hs: seq<Header>, last: nat, n: int)
    requires |acc| <= max && hs != [] && AllFit(hs)
    requires At(buf, last, Lines(hs)) && LineEnd(buf, last + |Lines(hs)|)
    ensures var next := last + 2 + |Line(hs[0])|;
      && last < next <= last + |Lines(hs)| == next + |Lines(hs[1..])|
      && At(buf, next, Lines(hs[1..]))
      && Turn(acc, max, buf, last, n) ==
        if |acc| == max then Stop(Walked(Rejected, acc, n))
        else Next(acc + Lowered([hs[0]]), next, Declared([hs[0]], n))
  {
    hide Turn, At, Lowered, Declared, Lines, Line;
    FirstLine(buf, last, hs);
    FirstEnds(buf, last, hs);
    TurnOnField(acc, max, buf, last, hs[0], n);
  }

  lemma {:induction false} TakeField(acc: seq<Header>, hs: seq<Header>, n: int)
    requires hs != []
    ensures Declared(hs, n) == Declared(hs[1..], Declared([hs[0]], n))
    ensures acc + Lowered(hs) == acc + Lowered([hs[0]]) + Lowered(hs[1..])
  {
    hide Atoi, Lower, SameName;
    assert [hs[0]][1..] == [];
  }

  /** The loop goes on after a turn unless the turn stops it. */
  lemma {:induction false} WalkTurn(acc: seq<Header>, max: nat, buf: seq<char>, headersEnd: nat, last: nat, n: int)
    requires |acc| <= max && last != headersEnd
    ensures Walk(acc, max, buf, headersEnd, last, n) ==
      match Turn(acc, max, buf, last, n)
      case Stop(w) => w
      case Next(hs, e, k) => Walk(hs, max, buf, headersEnd, e, k)
  {
    hide Turn;
  }

  /** The header loop takes all of `hs` one by one, whatever comes after, or gives up when
      the table of fields is full. */
  lemma {:induction false} WalkAdvances(
      acc: seq<Header>, max: nat, buf: seq<char>, hs: seq<Header>, last: nat, n: int, headersEnd: nat)
    requires |acc| <= max && AllFit(hs) && headersEnd >= last + |Lines(hs)|
    requires At(buf, last, Lines(hs)) && LineEnd(buf, last + |Lines(hs)|)
    ensures var w := Walk(acc, max, buf, headersEnd, last, n);
      if |acc| + |hs| <= max then
        w == Walk(acc + Lowered(hs), max, buf, headersEnd, last + |Lines(hs)|, Declared(hs, n))
      else w.verdict == Rejected
    decreases |hs|
  {
    hide At, LineEnd, Turn, Walk, Fits, Atoi;
    if hs == [] {
      assert acc + Lowered(hs) == acc;
    } else {
      hide Lowered, Declared, Lines, Line;
      WalkStep(acc, max, buf, hs, last, n);
      WalkTurn(acc, max, buf, headersEnd, last, n);
      if |acc| < max {
        TakeField(acc, hs, n);
        var next := last + 2 + |Line(hs[0])|;
        WalkAdvances(acc + Lowered([hs[0]]), max, buf, hs[1..], next, Declared([hs[0]], n), headersEnd);
      }
    }
  }

  /** The header loop stops with equality at the blank line after exactly the fields
      present, or gives up when the table of fields is full. */
  lemma {:induction false} WalkLands(acc: seq<Header>, max: nat, buf: seq<char>, hs: seq<Header>, last: nat, n: int)
    requires |acc| <= max && AllFit(hs)
    requires At(buf, last, Lines(hs)) && LineEnd(buf, last + |Lines(hs)|)
    ensures var w := Walk(acc, max, buf, last + |Lines(hs)|, last, n);
      if |acc| + |hs| <= max then w == Walked(Accepted, acc + Lowered(hs), Declared(hs, n))
      else w.verdict == Rejected
  {
    hide At, LineEnd, Lines, Turn, Fits, Lowered, Declared;
    WalkAdvances(acc, max, buf, hs, last, n, last + |Lines(hs)|);
  }

  lemma {:induction false} Regroup(a: string, b: string, c: string)
    ensures CRLF + (a + (b + c)) == CRLF + (a + b) + c
  {
  }

  lemma {:induction false} LinesJoin(xs: seq<Header>, ys: seq<Header>)
    ensures Lines(xs + ys) == Lines(xs) + Lines(ys)
  {
    hide Line;
    if xs == [] {
      assert xs + ys == ys && "" + Lines(ys) == Lines(ys);
    } else {
      assert (xs + ys)[0] == xs[0] && (xs + ys)[1..] == xs[1..] + ys;
      LinesJoin(xs[1..], ys);
      Regroup(Line(xs[0]), Lines(xs[1..]), Lines(ys));
    }
  }

  /** The lines before field `i`, and its own. */
  lemma {:induction false} LinesAt(buf: seq<char>, last: nat, hs: seq<Header>, i: nat)
    requires i < |hs| && At(buf, last, Lines(hs))
    requires LineEnd(buf, last + |Lines(hs)|) || TwoNuls(buf, last + |Lines(hs)|)
    ensures var k := last + |Lines(hs[..i])|;
      var e := k + 2 + |Line(hs[i])|;
      && At(buf, last, Lines(hs[..i])) && LineEnd(buf, k) && At(buf, k + 2, Line(hs[i]))
      && e <= last + |Lines(hs)| && if i == |hs| - 1 then e == last + |Lines(hs)| else LineEnd(buf, e)
  {
    hide At, LineEnd, TwoNuls, Lines, Line;
    var k, tail := last + |Lines(hs[..i])|, hs[i..];
    LinesJoin(hs[..i], tail);
    assert hs[..i] + tail == hs;
    AtParts(buf, last, Lines(hs[..i]), Lines(tail));
    FirstLine(buf, k, tail);
    FirstEnds(buf, k, tail);
  }

  lemma {:induction false} WalkStopsAt(
      max: nat, buf: seq<char>, init: seq<Header>, h: Header, last: nat, headersEnd: nat)
    requires AllFit(init) && IsField(h) && Overflows(h) && At(buf, last, Lines(init))
    requires var k := last + |Lines(init)|;
      && k < headersEnd && LineEnd(buf, k) && At(buf, k + 2, Line(h))
      && (LineEnd(buf, k + 2 + |Line(h)|) || TwoNuls(buf, k + 2 + |Line(h)|))
    ensures Walk([], max, buf, headersEnd, last, 0).verdict == if |init| < max then Undefined else Rejected
  {
    hide Turn, Walk, Stopped, Lines, Line, Fits, IsField, Overflows, Declared, Lowered, LineEnd, TwoNuls, At;
    var k := last + |Lines(init)|;
    WalkAdvances([], max, buf, init, last, 0, headersEnd);
    if |init| <= max {
      var acc, n := [] + Lowered(init), Declared(init, 0);
      TurnOnField(acc, max, buf, k, h, n);
      WalkTurn(acc, max, buf, headersEnd, k, n);
    }
  }

  /** At the first field that overflows the loop writes past a buffer, if the table still
      has room for it. */
  lemma {:induction false} WalkOverflows(max: nat, buf: seq<char>, hs: seq<Header>, last: nat, headersEnd: nat)
    requires AreFields(hs) && !AllFit(hs) && headersEnd >= last + |Lines(hs)| && At(buf, last, Lines(hs))
    requires LineEnd(buf, last + |Lines(hs)|) || TwoNuls(buf, last + |Lines(hs)|)
    ensures Walk([], max, buf, headersEnd, last, 0).verdict == if FirstOverflow(hs) < max then Undefined else Rejected
  {
    hide IsField, Overflows, Fits, At, Lines, LineEnd, TwoNuls;
    var i := FirstOverflow(hs);
    FitBeforeOverflow(hs);
    assert IsField(hs[i]);
    hide *;
    LinesAt(buf, last, hs, i);
    WalkStopsAt(max, buf, hs[..i], hs[i], last, headersEnd);
  }

  // ----- whole requests -----

  lemma {:induction false} LookupFinds(hs: seq<Header>, key: string)
    ensures Lookup(hs, key).Some? <==> exists i | 0 <= i < |hs| :: hs[i].key == key
    ensures Lookup(hs, key).Some? ==> exists i | 0 <= i < |hs| ::
      hs[i] == Header(key, Lookup(hs, key).value) && forall k | 0 <= k < i :: hs[k].key != key
  {
    if hs != [] {
      if hs[0].key != key {
        LookupFinds(hs[1..], key);
        assert forall i | 0 < i < |hs| :: hs[i] == hs[1..][i - 1];
      }
      if Lookup(hs, key).Some? && hs[0].key != key {
        var i :| 0 <= i < |hs[1..]| && hs[1..][i] == Header(key, Lookup(hs, key).value)
          && forall k | 0 <= k < i :: hs[1..][k].key != key;
        assert hs[i + 1] == Header(key, Lookup(hs, key).value);
        assert forall k | 0 <= k < i + 1 :: hs[k].key != key;
      }
    }
  }

  lemma {:induction false} LookupLowered(hs: seq<Header>, key: string)
    requires InLowerCase(key)
    ensures Lookup(Lowered(hs), key).Some? <==> HasField(hs, key)
  {
    LookupFinds(Lowered(hs), key);
    hide Lower, SameName;
    forall i | 0 <= i < |hs| ensures Lower(hs[i].key) == key <==> SameName(hs[i].key, key) {
      ComparedNames(key, hs[i].key);
    }
    assert forall i | 0 <= i < |hs| :: Lowered(hs)[i].key == Lower(hs[i].key);
  }

  /** The buffer starts with everything before the blank line, and a line ends there. */
  ghost predicate HeadAt(buf: seq<char>, m: Message) {
    At(buf, 0, RequestLine(m)) && At(buf, |RequestLine(m)|, Lines(m.headers)) && LineEnd(buf, |Head(m)|)
  }

  lemma {:induction false} Layout(m: Message, part: string, rest: seq<char>)
    requires CRLF <= part || [CR, NUL] <= part
    ensures HeadAt(Head(m) + part + rest, m)
  {
    hide RequestLine, Lines;
    var buf, last := Head(m) + part + rest, |RequestLine(m)|;
    assert buf == RequestLine(m) + (Lines(m.headers) + (part + rest));
    AtParts(buf, 0, RequestLine(m), Lines(m.headers) + (part + rest));
    AtParts(buf, last, Lines(m.headers), part + rest);
    assert buf[|Head(m)|] == part[0] && buf[|Head(m)| + 1] == part[1];
    assert CRLF <= part ==> part[0] == CRLF[0] && part[1] == CRLF[1];
    assert [CR, NUL] <= part ==> part[0] == [CR, NUL][0] && part[1] == [CR, NUL][1];
  }

  /** The request line and the end of that line. */
  ghost predicate LineAt(buf: seq<char>, m: Message) {
    At(buf, 0, RequestLine(m)) && LineEnd(buf, |RequestLine(m)|)
  }

  lemma {:induction false} HeadLine(buf: seq<char>, m: Message)
    requires At(buf, 0, RequestLine(m)) && At(buf, |RequestLine(m)|, Lines(m.headers))
    requires m.headers == [] ==> LineEnd(buf, |RequestLine(m)|)
    ensures LineAt(buf, m)
  {
    var last := |RequestLine(m)|;
    hide RequestLine;
    if m.headers != [] {
      FirstLine(buf, last, m.headers);
      assert CRLF + "" == CRLF;
      AtParts(buf, last, CRLF, "");
    }
  }

  lemma {:induction false} LineLayout(buf: seq<char>, m: Message)
    requires At(buf, 0, RequestLine(m))
    ensures At(buf, 0, m.verb + " ") && At(buf, |m.verb| + 1, m.path + " ")
    ensures At(buf, |m.verb| + |m.path| + 7, m.version)
    ensures |RequestLine(m)| == |m.verb| + |m.path| + 7 + |m.version|
  {
    hide At;
    var afterPath := "HTTP/" + m.version;
    assert RequestLine(m) == (m.verb + " ") + ((m.path + " ") + afterPath);
    AtParts(buf, 0, m.verb + " ", (m.path + " ") + afterPath);
    AtParts(buf, |m.verb| + 1, m.path + " ", afterPath);
    AtParts(buf, |m.verb| + |m.path| + 2, "HTTP/", m.version);
  }

  lemma {:induction false} FieldsPlain(hs: seq<Header>)
    requires AreFields(hs)
    ensures PlainHeaders(hs)
  {
    assert forall i | 0 <= i < |hs| :: IsField(hs[i]);
  }

  lemma {:induction false} LineIsPlain(m: Message)
    requires WellFormed(m)
    ensures forall k | 0 <= k < |RequestLine(m)| :: RequestLine(m)[k] != CR && RequestLine(m)[k] != NUL
    ensures RequestLine(m) != ""
  {
    assert CR !in RequestLine(m) && NUL !in RequestLine(m);
  }

  lemma {:induction false} EmptyNotListed()
    ensures !Listed("")
  {
    assert forall i | 0 <= i < |METHODS| :: METHODS[i] != "";
  }

  /** The search for the blank line arrives at the end of the head with nothing pending. */
  lemma {:induction false} ScanHead(buf: seq<char>, m: Message)
    requires WellFormed(m) && At(buf, 0, RequestLine(m)) && At(buf, |RequestLine(m)|, Lines(m.headers))
    ensures Scan(buf, 0, 0, 0, BLANK_LINE) == Scan(buf, |Head(m)|, 0, 0, BLANK_LINE)
  {
    hide Scan, Lines, IsField;
    var line := RequestLine(m);
    LineIsPlain(m);
    hide RequestLine;
    assert forall k | 0 <= k < |line| :: buf[k] == line[k];
    FieldsPlain(m.headers);
    ScanPlain(buf, 0, |line|, 0, 0);
    ScanLines(buf, |line|, m.headers);
  }

  /** The blank line is found where it is, whatever follows it. */
  lemma {:induction false} HeadersEndFound(buf: seq<char>, m: Message)
    requires WellFormed(m) && HeadAt(buf, m) && At(buf, |Head(m)|, BLANK_LINE)
    ensures Find(buf, 0, 0, 0, BLANK_LINE, 0) == Some(Token(0, |Head(m)|))
  {
    hide Head, RequestLine, Lines;
    ScanHead(buf, m);
    AtOccurs(buf, |Head(m)|, BLANK_LINE);
    MatchHere(buf, BLANK_LINE, |Head(m)|, 0, 0);
  }

  lemma {:induction false} AtOccurs(buf: seq<char>, p: nat, d: string)
    requires At(buf, p, d)
    ensures OccursAt(buf, d, p)
  {
    var w := buf[p..p + |d|];
    assert forall k | 0 <= k < |d| :: w[k] == buf[p + k];
  }

  /** What is copied as the body when the blank line is at `headersEnd`. */
  function BodyAt(buf: seq<char>, headersEnd: nat, length: int): seq<char>
    requires length <= |buf|
  {
    if headersEnd + 4 <= length then buf[headersEnd + 4..length] else []
  }

  /** The fields a request structure holds once `m` is accepted with that body. */
  function Stored(f: Fields, m: Message, body: seq<char>): Fields {
    WithBody(f.(verb := m.verb, path := Some(m.path), version := m.version), m, body)
  }

  function WithBody(f: Fields, m: Message, body: seq<char>): Fields {
    var g := f.(headers := Lowered(m.headers));
    if HasBody(m.headers) then g.(body := Some(body), bodyLength := Declared(m.headers, 0), finished := true) else g
  }

  /** A positive content-length or a transfer coding announces a body. */
  predicate HasBody(hs: seq<Header>) {
    Declared(hs, 0) > 0 || HasField(hs, "transfer-encoding")
  }

  /** A body comes with a content-type, and the content-length is the number of bytes left. */
  predicate BodyDeclared(hs: seq<Header>, room: int) {
    HasBody(hs) ==> HasField(hs, "content-type") && Declared(hs, 0) == room
  }

  /** The chunk decoder is asked when the first transfer coding is "chunked". */
  predicate IsChunked(hs: seq<Header>) {
    HasField(hs, "content-type") && Lookup(Lowered(hs), "transfer-encoding") == Some("chunked")
  }

  /** The verdict on the fields of a request with `room` bytes after its blank line. */
  function ExpectedOfFields(hs: seq<Header>, max: nat, room: int): Verdict {
    if FirstOverflow(hs) < |hs| && FirstOverflow(hs) < max then Undefined
    else if |hs| > max then Rejected
    else if IsChunked(hs) then Chunked
    else if !BodyDeclared(hs, room) then Rejected
    else if HasBody(hs) && room < 0 then Undefined
    else Accepted
  }

  lemma {:induction false} BodyVerdict(f: Fields, buf: seq<char>, length: int, hs: seq<Header>, headersEnd: nat)
    requires AllFit(hs) && length <= |buf|
    ensures ParseBody(f.(headers := Lowered(hs)), buf, length, headersEnd, Declared(hs, 0)).0
      == ExpectedOfFields(hs, |hs|, length - headersEnd - 4)
  {
    LookupLowered(hs, "transfer-encoding");
    LookupLowered(hs, "content-type");
    FitBeforeOverflow(hs);
    hide Declared, FirstOverflow, Lowered, Lookup, HasField, Fits, AllFit, Overflows;
  }

  lemma {:induction false} BodyTaken(g: Fields, buf: seq<char>, length: int, headersEnd: nat, n: int)
    requires length <= |buf|
    ensures var r := ParseBody(g, buf, length, headersEnd, n);
      r.0 == Accepted ==>
        r.1 == if n > 0 || Lookup(g.headers, "transfer-encoding").Some? then
          g.(body := Some(BodyAt(buf, headersEnd, length)), bodyLength := n, finished := true)
        else g
  {
    hide Lookup;
  }

  lemma {:induction false} BodyStored(f: Fields, buf: seq<char>, length: int, m: Message, headersEnd: nat)
    requires length <= |buf|
    ensures var r := ParseBody(f.(headers := Lowered(m.headers)), buf, length, headersEnd, Declared(m.headers, 0));
      r.0 == Accepted ==> r.1 == WithBody(f, m, BodyAt(buf, headersEnd, length))
  {
    assert InLowerCase("transfer-encoding");
    hide Declared, Lowered, Lookup, HasField, SameName, InLowerCase, ParseBody, BodyAt;
    LookupLowered(m.headers, "transfer-encoding");
    BodyTaken(f.(headers := Lowered(m.headers)), buf, length, headersEnd, Declared(m.headers, 0));
  }

  lemma {:induction false} BodyStage(f: Fields, buf: seq<char>, length: int, m: Message, headersEnd: nat)
    requires AllFit(m.headers) && length <= |buf|
    ensures var room := length - headersEnd - 4;
      var (v, g) := ParseBody(f.(headers := Lowered(m.headers)), buf, length, headersEnd, Declared(m.headers, 0));
      && v == ExpectedOfFields(m.headers, |m.headers|, room)
      && (v == Accepted ==> g == WithBody(f, m, BodyAt(buf, headersEnd, length)))
  {
    hide *;
    BodyVerdict(f, buf, length, m.headers, headersEnd);
    BodyStored(f, buf, length, m, headersEnd);
  }

  lemma {:induction false} HeadersStage(f: Fields, max: nat, buf: seq<char>, length: int, m: Message)
    requires WellFormed(m) && f.headers == [] && HeadAt(buf, m) && length <= |buf|
    ensures var e := |Head(m)|;
      var (v, g) := ParseHeaders(f, max, buf, length, e, |RequestLine(m)|);
      && v == ExpectedOfFields(m.headers, max, length - e - 4)
      && (v == Accepted ==> g == WithBody(f, m, BodyAt(buf, e, length)))
  {
    hide Walk, ParseBody, WithBody, RequestLine, Lines, BodyAt, BodyDeclared, HasBody, IsChunked, FirstOverflow;
    hide IsField, Fits, Declared, Lowered;
    var hs := m.headers;
    FitBeforeOverflow(hs);
    if AllFit(hs) {
      WalkLands([], max, buf, hs, |RequestLine(m)|, 0);
      assert [] + Lowered(hs) == Lowered(hs);
      BodyStage(f, buf, length, m, |Head(m)|);
    } else {
      WalkOverflows(max, buf, hs, |RequestLine(m)|, |Head(m)|);
    }
  }

  lemma {:induction false} VersionStage(f: Fields, max: nat, buf: seq<char>, length: int, m: Message, headersEnd: nat)
    requires Plain(m.version) && |f.headers| <= max && LineAt(buf, m) && length <= |buf|
    ensures var g := f.(version := m.version);
      ParseVersion(f, max, buf, length, headersEnd, |m.verb| + 1 + |m.path|) ==
      if |m.version| > 3 then (Undefined, f)
      else if m.version != "1.1" then (Rejected, g)
      else ParseHeaders(g, max, buf, length, headersEnd, |RequestLine(m)|)
  {
    hide Find, ParseHeaders, RequestLine;
    LineLayout(buf, m);
    var start := |m.verb| + |m.path| + 7;
    FindsLineEnd(buf, start, m.version);
    CStrUnique(m.version, m.version);
  }

  lemma {:induction false} PathStage(f: Fields, max: nat, buf: seq<char>, length: int, m: Message, headersEnd: nat)
    requires NUL !in m.path && ' ' !in m.path && |f.headers| <= max && length <= |buf|
    requires At(buf, |m.verb| + 1, m.path + " ")
    ensures ParsePath(f, max, buf, length, headersEnd, |m.verb|)
      == ParseVersion(f.(path := Some(m.path)), max, buf, length, headersEnd, |m.verb| + 1 + |m.path|)
  {
    hide Find, ParseVersion;
    FindsEnd(buf, |m.verb| + 1, m.path, " ", 0);
    AtParts(buf, |m.verb| + 1, m.path, " ");
    CStrUnique(m.path, m.path);
  }

  lemma {:induction false} VerbStage(f: Fields, max: nat, buf: seq<char>, length: int, m: Message, headersEnd: nat)
    requires Plain(m.verb) && ' ' !in m.verb && |f.headers| <= max && At(buf, 0, m.verb + " ") && length <= |buf|
    requires headersEnd > 0 && Find(buf, 0, 0, 0, BLANK_LINE, 0) == Some(Token(0, headersEnd))
    ensures var r := Parsed(f, max, buf, length);
      if |m.verb| > 6 then r.0 == Undefined
      else if !Listed(m.verb) then r.0 == Rejected
      else r == ParsePath(f.(verb := m.verb), max, buf, length, headersEnd, |m.verb|)
  {
    hide Find, ParsePath, Listed;
    AtParts(buf, 0, m.verb, " ");
    if m.verb == "" {
      assert OccursAt(buf, " ", 0);
      MatchAtZero(buf, " ", 0);
      EmptyNotListed();
    } else {
      FindsEnd(buf, 0, m.verb, " ", 0);
      CStrUnique(m.verb, m.verb);
    }
  }

  /** The stages up to the header fields, for any text that starts with the request line. */
  lemma {:induction false} LineStages(f: Fields, max: nat, buf: seq<char>, length: int, m: Message, headersEnd: nat)
    requires WellFormed(m) && |f.headers| <= max && LineAt(buf, m) && length <= |buf|
    requires headersEnd > 0 && Find(buf, 0, 0, 0, BLANK_LINE, 0) == Some(Token(0, headersEnd))
    ensures var r := Parsed(f, max, buf, length);
      if |m.verb| > 6 then r.0 == Undefined
      else if !Listed(m.verb) then r.0 == Rejected
      else if |m.version| > 3 then r.0 == Undefined
      else if m.version != "1.1" then r.0 == Rejected
      else r == ParseHeaders(f.(verb := m.verb, path := Some(m.path), version := m.version), max, buf, length,
                             headersEnd, |RequestLine(m)|)
  {
    hide Parsed, ParsePath, ParseVersion, ParseHeaders, LineEnd, At, RequestLine, Find, Listed;
    LineLayout(buf, m);
    VerbStage(f, max, buf, length, m, headersEnd);
    var g := f.(verb := m.verb);
    PathStage(g, max, buf, length, m, headersEnd);
    VersionStage(g.(path := Some(m.path)), max, buf, length, m, headersEnd);
  }

  /** The verdict on a request with `room` bytes after its blank line. What is too long for
      its buffer is written past it, which C leaves undefined, unless the request has been
      rejected before. */
  function Expected(m: Message, max: nat, room: int): Verdict {
    if |m.verb| > 6 then Undefined
    else if !Listed(m.verb) then Rejected
    else if |m.version| > 3 then Undefined
    else if m.version != "1.1" then Rejected
    else ExpectedOfFields(m.headers, max, room)
  }

  /** The requests the server is meant to serve. */
  predicate Acceptable(m: Message, max: nat, room: int) {
    Listed(m.verb) && |m.verb| <= 6 && m.version == "1.1" && |m.headers| <= max && AllFit(m.headers)
    && BodyDeclared(m.headers, room) && !IsChunked(m.headers) && (HasBody(m.headers) ==> room >= 0)
  }

  /** Of the listed methods exactly CONNECT and OPTIONS do not fit `char method[7]`. */
  lemma {:induction false} MethodsTooLong(verb: string)
    ensures Listed("CONNECT") && Listed("OPTIONS")
    ensures Listed(verb) && |verb| > 6 <==> verb == "CONNECT" || verb == "OPTIONS"
  {
    assert METHODS[5] == "CONNECT" && METHODS[6] == "OPTIONS";
    if Listed(verb) {
      var i :| 0 <= i < |METHODS| && METHODS[i] == verb;
    }
  }

  lemma {:induction false} AcceptableExactly(m: Message, max: nat, room: int)
    requires WellFormed(m)
    ensures Expected(m, max, room) == Accepted <==> Acceptable(m, max, room)
  {
    hide FirstOverflow, AllFit, HasBody, IsChunked;
    FitBeforeOverflow(m.headers);
  }

  /** The verdict once the first search has answered the end of the head. */
  lemma {:induction false} HeadVerdict(f: Fields, max: nat, buf: seq<char>, length: int, m: Message)
    requires WellFormed(m) && f.headers == [] && HeadAt(buf, m) && length <= |buf|
    requires Find(buf, 0, 0, 0, BLANK_LINE, 0) == Some(Token(0, |Head(m)|))
    ensures var e := |Head(m)|;
      var r := Parsed(f, max, buf, length);
      && r.0 == Expected(m, max, length - e - 4)
      && (r.0 == Accepted ==> r.1 == Stored(f, m, BodyAt(buf, e, length)))
  {
    HeadLine(buf, m);
    hide Parsed, ParseHeaders, HeadAt, LineAt, Head, RequestLine, Find, Listed, WithBody, ExpectedOfFields, BodyAt;
    LineStages(f, max, buf, length, m, |Head(m)|);
    HeadersStage(f.(verb := m.verb, path := Some(m.path), version := m.version), max, buf, length, m);
  }

  /** The exact verdict on every printed request: accepted, rejected, handed to the chunk
      decoder, or undefined; and what an accepted request leaves in the structure. */
  lemma {:induction false} ExactAcceptance(f: Fields, max: nat, m: Message, rest: seq<char>)
    requires WellFormed(m) && f.headers == []
    ensures var r := Parsed(f, max, Render(m) + rest, |Render(m)|);
      && r.0 == Expected(m, max, |m.body|)
      && (r.0 == Accepted <==> Acceptable(m, max, |m.body|))
      && (r.0 == Accepted ==> r.1 == Stored(f, m, m.body))
  {
    AcceptableExactly(m, max, |m.body|);
    Rendered(m, rest);
    hide *;
    var buf := Render(m) + rest;
    HeadersEndFound(buf, m);
    HeadVerdict(f, max, buf, |Render(m)|, m);
  }

  /** Where the parts of a printed request are. */
  lemma {:induction false} Rendered(m: Message, rest: seq<char>)
    ensures var e, buf := |Head(m)|, Render(m) + rest;
      && HeadAt(buf, m) && At(buf, e, BLANK_LINE) && |Render(m)| == e + 4 + |m.body|
      && BodyAt(buf, e, |Render(m)|) == m.body
  {
    var buf, e := Render(m) + rest, |Head(m)|;
    RenderIsHead(m);
    hide Render, Head, HeadAt;
    assert buf == Head(m) + BLANK_LINE + (m.body + rest);
    assert CRLF <= BLANK_LINE;
    Layout(m, BLANK_LINE, m.body + rest);
    assert buf[e..e + 4] == BLANK_LINE && buf[e + 4..|Render(m)|] == m.body;
  }

  /** At most one field has that name. */
  predicate AtMostOne(hs: seq<Header>, key: string) {
    forall i, k | 0 <= i < k < |hs| :: !SameName(hs[i].key, key) || !SameName(hs[k].key, key)
  }

  lemma {:induction false} DeclaredWithout(hs: seq<Header>, n: int)
    requires !HasField(hs, "content-length")
    ensures Declared(hs, n) == n
  {
    if hs != [] {
      assert !SameName(hs[0].key, "content-length");
      assert forall i | 0 <= i < |hs[1..]| :: hs[1..][i] == hs[i + 1];
      DeclaredWithout(hs[1..], n);
    }
  }

  lemma {:induction false} DeclaredBy(hs: seq<Header>, i: nat, n: int)
    requires AllFit(hs) && i < |hs| && SameName(hs[i].key, "content-length") && AtMostOne(hs, "content-length")
    ensures Declared(hs, n) == Atoi(hs[i].value + [CR]).value
  {
    assert forall k | 0 <= k < |hs[1..]| :: hs[1..][k] == hs[k + 1];
    if i == 0 {
      DeclaredWithout(hs[1..], Atoi(hs[0].value + [CR]).value);
    } else {
      assert !SameName(hs[0].key, "content-length");
      DeclaredBy(hs[1..], i - 1, n);
    }
  }

  /** The stored names are the names sent, in lower case; the values are those sent. */
  predicate StoredLowered(stored: seq<Header>, hs: seq<Header>) {
    |stored| == |hs| && forall i | 0 <= i < |hs| ::
      && stored[i].value == hs[i].value && |stored[i].key| == |hs[i].key|
      && forall k | 0 <= k < |hs[i].key| :: LowerCaseOf(stored[i].key[k], hs[i].key[k])
  }

  lemma {:induction false} LoweredSpelled(hs: seq<Header>)
    ensures StoredLowered(Lowered(hs), hs)
  {
    hide LowerChar, LowerCaseOf;
    forall i, k | 0 <= i < |hs| && 0 <= k < |hs[i].key|
      ensures LowerCaseOf(Lowered(hs)[i].key[k], hs[i].key[k])
    {
      LowerCharSpelled(hs[i].key[k]);
    }
  }

  /** A field of at most 63 and 1023 characters on one line. */
  predicate ShortField(h: Header) {
    CR !in h.key && NUL !in h.key && ':' !in h.key && |h.key| <= 63
    && CR !in h.value && NUL !in h.value && |h.value| <= 1023 && !SameName(h.key, "transfer-encoding")
  }

  lemma {:induction false} ServedText(verb: string, path: string, hs: seq<Header>, body: string)
    ensures Render(Message(verb, path, "1.1", hs, body))
      == verb + " " + path + " HTTP/1.1\r\n" + RenderHeaders(hs) + "\r\n" + body
  {
    hide RenderHeaders;
    assert " HTTP/" + "1.1" == " HTTP/1.1";
    var line, block := verb + " " + path + " HTTP/1.1", RenderHeaders(hs);
    assert verb + " " + path + " HTTP/" + "1.1" == line;
    assert line + (CRLF + block + CRLF) == line + CRLF + block + CRLF;
    assert " HTTP/1.1\r\n" == " HTTP/1.1" + CRLF;
    assert verb + " " + path + " HTTP/1.1\r\n" == line + CRLF;
  }

  lemma {:induction false} ServedVerb(verb: string)
    requires verb in {"GET", "HEAD", "POST", "PUT", "DELETE", "TRACE", "PATCH"}
    ensures Listed(verb) && |verb| <= 6 && Plain(verb) && ' ' !in verb
  {
    ListedSpelled(verb);
  }

  lemma {:induction false} ShortFieldsFit(hs: seq<Header>, i: nat, n: nat)
    requires n <= 2147483647 && forall j | 0 <= j < |hs| :: ShortField(hs[j])
    requires i < |hs| && SameName(hs[i].key, "content-length") && hs[i].value == Decimal(n)
    requires AtMostOne(hs, "content-length")
    ensures AllFit(hs)
  {
    DecimalHoldsNumber(n);
    hide SameName, Atoi, Decimal, SpaceRun, ShortField, Fits, HoldsNumber;
    forall j | 0 <= j < |hs| ensures Fits(hs[j]) {
      assert SameName(hs[j].key, "content-length") ==> j == i;
      ShortFieldFits(hs[j]);
    }
  }

  lemma {:induction false} ShortFieldFits(h: Header)
    requires ShortField(h) && (SameName(h.key, "content-length") ==> HoldsNumber(h.value))
    ensures Fits(h)
  {
    hide SameName, Atoi, SpaceRun;
  }

  lemma {:induction false} NoCoding(hs: seq<Header>)
    requires forall j | 0 <= j < |hs| :: ShortField(hs[j])
    ensures !HasField(hs, "transfer-encoding") && !IsChunked(hs)
  {
    LookupLowered(hs, "transfer-encoding");
    assert forall j | 0 <= j < |hs| :: ShortField(hs[j]);
  }

  /** Parsing inverts printing. For each method but CONNECT and OPTIONS, any path, any fields
      and any body whose length one content-length declares, whatever the case of the names:
      the request is accepted and the structure holds exactly its parts. */
  lemma {:induction false} RequestRoundTrip(
      f: Fields, max: nat, verb: string, path: string, hs: seq<Header>, body: string, rest: seq<char>, i: nat, k: nat)
    requires verb in {"GET", "HEAD", "POST", "PUT", "DELETE", "TRACE", "PATCH"}
    requires CR !in path && NUL !in path && ' ' !in path && |body| <= 2147483647
    requires f.headers == [] && |hs| <= max && forall j | 0 <= j < |hs| :: ShortField(hs[j])
    requires i < |hs| && SameName(hs[i].key, "content-length") && hs[i].value == Decimal(|body|)
    requires AtMostOne(hs, "content-length") && k < |hs| && SameName(hs[k].key, "content-type")
    ensures var text := verb + " " + path + " HTTP/1.1\r\n" + RenderHeaders(hs) + "\r\n" + body;
      var (verdict, g) := Parsed(f, max, text + rest, |text|);
      && verdict == Accepted && StoredLowered(g.headers, hs)
      && g == if body == "" then f.(verb := verb, path := Some(path), version := "1.1", headers := g.headers)
              else Fields(verb, Some(path), "1.1", g.headers, Some(body), |body|, true)
  {
    var m := Message(verb, path, "1.1", hs, body);
    hide Parsed, Render, RenderHeaders, SameName, ShortField, Decimal, AtMostOne, StoredLowered;
    ServedText(verb, path, hs, body);
    ServedVerb(verb);
    ShortFieldsFit(hs, i, |body|);
    hide AllFit;
    assert WellFormed(m) by { FitFields(hs); }
    hide *;
    ServedMessage(f, max, m, rest, i, k);
    LoweredSpelled(hs);
  }

  lemma {:induction false} FitFields(hs: seq<Header>)
    requires AllFit(hs)
    ensures AreFields(hs)
  {
    hide IsField, Overflows;
    assert forall i | 0 <= i < |hs| :: Fits(hs[i]);
  }

  lemma {:induction false} ServedMessage(f: Fields, max: nat, m: Message, rest: seq<char>, i: nat, k: nat)
    requires WellFormed(m) && AllFit(m.headers) && f.headers == [] && |m.headers| <= max
    requires Listed(m.verb) && |m.verb| <= 6 && m.version == "1.1" && FitsInt(|m.body|)
    requires forall j | 0 <= j < |m.headers| :: ShortField(m.headers[j])
    requires i < |m.headers| && SameName(m.headers[i].key, "content-length") && m.headers[i].value == Decimal(|m.body|)
    requires AtMostOne(m.headers, "content-length") && k < |m.headers| && SameName(m.headers[k].key, "content-type")
    ensures var (verdict, g) := Parsed(f, max, Render(m) + rest, |Render(m)|);
      && verdict == Accepted && g.headers == Lowered(m.headers)
      && g == if m.body == "" then f.(verb := m.verb, path := Some(m.path), version := m.version, headers := g.headers)
              else Fields(m.verb, Some(m.path), m.version, g.headers, Some(m.body), |m.body|, true)
  {
    ExactAcceptance(f, max, m, rest);
    DeclaredBy(m.headers, i, 0);
    NoCoding(m.headers);
    DecimalHoldsNumber(|m.body|);
    hide Parsed, Render, Decimal, Atoi, SameName, Lowered, AllFit, WellFormed, ShortField, Declared, AtMostOne;
    assert HasField(m.headers, "content-type");
  }
}
