/** Requests without a blank line: exactly what the parser does when a NUL ends the string
    inside the blank line or before it. */
module HttpTruncated {
  import opened CStrings
  import opened LibTstr
  import opened HttpText
  import opened HttpParser
  import opened HttpRequests

  // ----- the first test -----

  /** The C string that ends at `n` shows the blank line, or ends in CR, CRLF or CRLFCR that
      the search has not run past, or is followed by a second NUL. */
  ghost predicate SeemsComplete(buf: seq<char>, n: nat)
    requires n < |buf|
  {
    || !NoneVisible(buf, BLANK_LINE, 0, n)
    || (EndsInPart(buf, BLANK_LINE, 0, n) && n > 1)
    || (n + 1 < |buf| && buf[n + 1] == NUL)
  }

  /** Exactly which texts pass the test for a blank line: those that seem complete go on to
      the method, the others stop here with nothing stored. */
  lemma {:induction false} FirstTestExactly(f: Fields, max: nat, buf: seq<char>, length: int, n: nat)
    requires |f.headers| <= max && length <= |buf|
    requires n < |buf| && buf[n] == NUL && forall q | 0 <= q < n :: buf[q] != NUL
    ensures SeemsComplete(buf, n) ==>
      var t := Find(buf, 0, 0, 0, BLANK_LINE, 0);
      t.Some? && t.value.end > 0 && Parsed(f, max, buf, length) == ParseVerb(f, max, buf, length, t.value.end)
    ensures !SeemsComplete(buf, n) ==>
      Parsed(f, max, buf, length) == (if n + 1 < |buf| then Rejected else Undefined, f)
  {
    hide Find, EndsInPart, NoneVisible, ParseVerb;
    FoundExactly(buf, BLANK_LINE, 0, n, 0);
    if !SeemsComplete(buf, n) { var pending := Absent(buf, BLANK_LINE, 0, n, 0); }
  }

  // ----- a NUL inside the blank line -----

  /** A request cut off by a NUL after one, two or three characters of its blank line is
      treated as if the blank line were there. */
  lemma {:induction false} CutInside(f: Fields, max: nat, m: Message, part: string, more: seq<char>, length: int)
    requires WellFormed(m) && f.headers == [] && part != "" && part < BLANK_LINE
    requires length <= |Head(m) + part + [NUL] + more|
    ensures var e, buf := |Head(m)|, Head(m) + part + [NUL] + more;
      var r := Parsed(f, max, buf, length);
      && r.0 == Expected(m, max, length - e - 4)
      && (r.0 == Accepted ==> r.1 == Stored(f, m, BodyAt(buf, e, length)))
  {
    PartLaidOut(m, part, more);
    hide *;
    var buf := Head(m) + part + [NUL] + more;
    PartFound(buf, m, part);
    HeadVerdict(f, max, buf, length, m);
  }

  lemma {:induction false} PartLaidOut(m: Message, part: string, more: seq<char>)
    requires part != "" && part < BLANK_LINE
    ensures var e, buf := |Head(m)|, Head(m) + part + [NUL] + more;
      HeadAt(buf, m) && At(buf, e, part) && buf[e + |part|] == NUL
  {
    var buf := Head(m) + part + [NUL] + more;
    assert part[0] == BLANK_LINE[0] && (|part| > 1 ==> part[1] == BLANK_LINE[1]);
    hide Head, HeadAt;
    if |part| == 1 {
      assert part + [NUL] == [CR, NUL];
      assert buf == Head(m) + (part + [NUL]) + more;
      Layout(m, part + [NUL], more);
    } else {
      assert buf == Head(m) + part + ([NUL] + more);
      Layout(m, part, [NUL] + more);
    }
  }

  /** A request whose string ends right after its field lines, with no blank line at all, is
      accepted exactly when the same request with one would be. */
  lemma {:induction false} MissingBlankLineAccepted(f: Fields, max: nat, m: Message, more: seq<char>, length: int)
    requires WellFormed(m) && f.headers == []
    requires length <= |RequestLine(m) + CRLF + RenderHeaders(m.headers) + [NUL] + more|
    ensures var buf := RequestLine(m) + CRLF + RenderHeaders(m.headers) + [NUL] + more;
      var room := length - |RequestLine(m)| - |RenderHeaders(m.headers)| - 4;
      Parsed(f, max, buf, length).0 == Accepted <==> Acceptable(m, max, room)
  {
    LinesRendered(m.headers);
    hide Parsed, RequestLine, Lines, RenderHeaders, Acceptable, Expected, WellFormed;
    var line := RequestLine(m);
    assert line + CRLF + RenderHeaders(m.headers) == line + (CRLF + RenderHeaders(m.headers));
    assert line + (Lines(m.headers) + CRLF) == Head(m) + CRLF;
    CutInside(f, max, m, CRLF, more, length);
    AcceptableExactly(m, max, length - |Head(m)| - 4);
  }

  lemma {:induction false} PartFound(buf: seq<char>, m: Message, part: string)
    requires WellFormed(m) && HeadAt(buf, m) && part != "" && part < BLANK_LINE
    requires At(buf, |Head(m)|, part) && |Head(m)| + |part| < |buf| && buf[|Head(m)| + |part|] == NUL
    ensures Find(buf, 0, 0, 0, BLANK_LINE, 0) == Some(Token(0, |Head(m)|))
  {
    var e := |Head(m)|;
    ScanHead(buf, m);
    hide Head, RequestLine, Lines, WellFormed, At;
    ScanPart(buf, e, part);
    assert Scan(buf, 0, 0, 0, BLANK_LINE) == AtNul(e + |part|, |part|, e);
  }

  // ----- a NUL before the blank line -----

  /** Without a single character of the blank line the request is rejected, unless a second
      NUL follows the first. */
  lemma {:induction false} CutBefore(f: Fields, max: nat, m: Message, more: string, length: int)
    requires WellFormed(m) && f.headers == [] && length <= |Head(m) + [NUL] + more|
    requires more == [] || more[0] != NUL
    ensures Parsed(f, max, Head(m) + [NUL] + more, length) == (if more == [] then Undefined else Rejected, f)
  {
    var n, buf := |Head(m)|, Head(m) + [NUL] + more;
    HeadOnly(m, [NUL] + more);
    assert buf == Head(m) + ([NUL] + more);
    ScanHead(buf, m);
    hide Head, RequestLine, Lines, WellFormed, ParseVerb;
    assert Scan(buf, 0, 0, 0, BLANK_LINE) == AtNul(n, 0, 0);
    assert more != [] ==> buf[n + 1] == more[0];
  }

  lemma {:induction false} HeadOnly(m: Message, rest: seq<char>)
    ensures At(Head(m) + rest, 0, RequestLine(m)) && At(Head(m) + rest, |RequestLine(m)|, Lines(m.headers))
  {
    hide RequestLine, Lines;
    assert Head(m) + rest == RequestLine(m) + (Lines(m.headers) + rest);
    AtParts(Head(m) + rest, 0, RequestLine(m), Lines(m.headers) + rest);
    AtParts(Head(m) + rest, |RequestLine(m)|, Lines(m.headers), rest);
  }

  /** The verdict when two NULs follow the head and `room` bytes follow what is taken for the
      blank line. The last copy takes the first NUL along and needs one byte more. */
  function ExpectedAtTwoNuls(m: Message, max: nat, room: int): Verdict {
    var k := |m.headers|;
    if |m.verb| > 6 then Undefined
    else if !Listed(m.verb) then Rejected
    else if |m.version| + (if k == 0 then 1 else 0) > 3 then Undefined
    else if m.version != "1.1" then Rejected
    else if k <= max && |m.headers[k - 1].value| == 1023 then Undefined
    else ExpectedOfFields(m.headers, max, room)
  }

  lemma {:induction false} DeclaredLast(hs: seq<Header>, n: int)
    requires hs != []
    ensures Declared(hs, n) == Declared([hs[|hs| - 1]], Declared(hs[..|hs| - 1], n))
  {
    hide Atoi, Lower;
    var k := |hs| - 1;
    TakeField([], hs, n);
    if k == 0 {
      assert hs == [hs[0]] && hs[..0] == [];
    } else {
      assert hs[1..][..k - 1] == hs[..k][1..];
      TakeField([], hs[..k], n);
      DeclaredLast(hs[1..], Declared([hs[0]], n));
    }
  }

  lemma {:induction false} WalkArrived(acc: seq<Header>, max: nat, buf: seq<char>, headersEnd: nat, n: int)
    requires |acc| <= max
    ensures Walk(acc, max, buf, headersEnd, headersEnd, n) == Walked(Accepted, acc, n)
  {
  }

  lemma {:induction false} WalkEndsAt(max: nat, buf: seq<char>, init: seq<Header>, h: Header, last: nat)
    requires AllFit(init) && Fits(h) && At(buf, last, Lines(init))
    requires var k := last + |Lines(init)|;
      LineEnd(buf, k) && At(buf, k + 2, Line(h)) && TwoNuls(buf, k + 2 + |Line(h)|)
    ensures var w := Walk([], max, buf, last + |Lines(init)| + 2 + |Line(h)| + 1, last, 0);
      if |init| >= max then w.verdict == Rejected
      else if |h.value| == 1023 then w.verdict == Undefined
      else w == Walked(Accepted, Lowered(init) + Lowered([h]), Declared([h], Declared(init, 0)))
  {
    var k := last + |Lines(init)|;
    var e := k + 2 + |Line(h)|;
    hide Turn, Walk, Lines, Line, IsField, Overflows, Declared, Lowered, LineEnd, At;
    assert Stopped(buf, e) == e + 1 && IsField(h) && !Overflows(h);
    hide Fits, Stopped, TwoNuls;
    WalkAdvances([], max, buf, init, last, 0, e + 1);
    if |init| <= max {
      assert [] + Lowered(init) == Lowered(init);
      var acc, n := Lowered(init), Declared(init, 0);
      TurnOnField(acc, max, buf, k, h, n);
      WalkTurn(acc, max, buf, e + 1, k, n);
      if |init| < max { WalkArrived(acc + Lowered([h]), max, buf, e + 1, Declared([h], n)); }
    }
  }

  /** The header loop when the last line ends at two NULs: it stops with equality at the
      second. */
  lemma {:induction false} WalkToTwoNuls(max: nat, buf: seq<char>, hs: seq<Header>, last: nat)
    requires hs != [] && AllFit(hs) && At(buf, last, Lines(hs)) && TwoNuls(buf, last + |Lines(hs)|)
    ensures var w := Walk([], max, buf, last + |Lines(hs)| + 1, last, 0);
      if |hs| > max then w.verdict == Rejected
      else if |hs[|hs| - 1].value| == 1023 then w.verdict == Undefined
      else w == Walked(Accepted, Lowered(hs), Declared(hs, 0))
  {
    hide *;
    var k := |hs| - 1;
    SplitLast(hs);
    LinesAt(buf, last, hs, k);
    WalkEndsAt(max, buf, hs[..k], hs[k], last);
  }

  lemma {:induction false} SplitLast(hs: seq<Header>)
    requires hs != [] && AllFit(hs)
    ensures var init, h := hs[..|hs| - 1], hs[|hs| - 1];
      && AllFit(init) && Fits(h) && Lowered(init) + Lowered([h]) == Lowered(hs)
      && Declared(hs, 0) == Declared([h], Declared(init, 0))
  {
    hide Fits, Declared, Lower;
    DeclaredLast(hs, 0);
  }

  lemma {:induction false} VersionAtTwoNuls(
      f: Fields, max: nat, buf: seq<char>, length: int, m: Message, headersEnd: nat)
    requires Plain(m.version) && |f.headers| <= max && At(buf, 0, RequestLine(m)) && length <= |buf|
    requires TwoNuls(buf, |RequestLine(m)|)
    ensures ParseVersion(f, max, buf, length, headersEnd, |m.verb| + 1 + |m.path|).0
      == if |m.version| >= 3 then Undefined else Rejected
  {
    hide Find, ParseHeaders, RequestLine, Copied;
    LineLayout(buf, m);
    var start := |m.verb| + |m.path| + 7;
    FindsLineEnd(buf, start, m.version);
    CopiedWithNul(buf, start, m.version, VERSION_MAX);
  }

  /** The buffer starts with the head and two NULs. */
  ghost predicate TwoNulsAt(buf: seq<char>, m: Message) {
    At(buf, 0, RequestLine(m)) && At(buf, |RequestLine(m)|, Lines(m.headers)) && TwoNuls(buf, |Head(m)|)
  }

  lemma {:induction false} HeadersAtTwoNuls(f: Fields, max: nat, buf: seq<char>, length: int, m: Message)
    requires WellFormed(m) && f.headers == [] && TwoNulsAt(buf, m) && m.headers != [] && length <= |buf|
    ensures var e, hs := |Head(m)| + 1, m.headers;
      var (v, g) := ParseHeaders(f, max, buf, length, e, |RequestLine(m)|);
      && v == (if |hs| <= max && |hs[|hs| - 1].value| == 1023 then Undefined
               else ExpectedOfFields(hs, max, length - e - 4))
      && (v == Accepted ==> g == WithBody(f, m, BodyAt(buf, e, length)))
  {
    hide Walk, ParseBody, WithBody, RequestLine, Lines, BodyAt, BodyDeclared, HasBody, IsChunked, FirstOverflow;
    hide IsField, Fits, Declared, Lowered, At;
    FitBeforeOverflow(m.headers);
    if AllFit(m.headers) {
      WalkToTwoNuls(max, buf, m.headers, |RequestLine(m)|);
      BodyStage(f, buf, length, m, |Head(m)| + 1);
    } else {
      WalkOverflows(max, buf, m.headers, |RequestLine(m)|, |Head(m)| + 1);
    }
  }

  lemma {:induction false} SecondNulFound(buf: seq<char>, m: Message)
    requires WellFormed(m) && TwoNulsAt(buf, m)
    ensures Find(buf, 0, 0, 0, BLANK_LINE, 0) == Some(Token(0, |Head(m)| + 1))
  {
    ScanHead(buf, m);
    hide Head, RequestLine, Lines, WellFormed, At;
    assert Scan(buf, 0, 0, 0, BLANK_LINE) == AtNul(|Head(m)|, 0, 0);
  }

  /** Two NULs after the head stand in for the blank line, except that the last copy may
      overflow by the NUL it takes along. */
  lemma {:induction false} CutByTwoNuls(f: Fields, max: nat, m: Message, more: string, length: int)
    requires WellFormed(m) && f.headers == [] && length <= |Head(m) + [NUL, NUL] + more|
    ensures var e, buf := |Head(m)| + 1, Head(m) + [NUL, NUL] + more;
      var r := Parsed(f, max, buf, length);
      && r.0 == ExpectedAtTwoNuls(m, max, length - e - 4)
      && (r.0 == Accepted ==> r.1 == Stored(f, m, BodyAt(buf, e, length)))
  {
    var e, buf := |Head(m)| + 1, Head(m) + [NUL, NUL] + more;
    HeadOnly(m, [NUL, NUL] + more);
    assert buf == Head(m) + ([NUL, NUL] + more);
    assert TwoNulsAt(buf, m);
    hide *;
    SecondNulFound(buf, m);
    TwoNulsVerdict(f, max, buf, length, m);
  }

  lemma {:induction false} TwoNulsVerdict(f: Fields, max: nat, buf: seq<char>, length: int, m: Message)
    requires WellFormed(m) && f.headers == [] && length <= |buf| && TwoNulsAt(buf, m)
    requires Find(buf, 0, 0, 0, BLANK_LINE, 0) == Some(Token(0, |Head(m)| + 1))
    ensures var e := |Head(m)| + 1;
      var r := Parsed(f, max, buf, length);
      && r.0 == ExpectedAtTwoNuls(m, max, length - e - 4)
      && (r.0 == Accepted ==> r.1 == Stored(f, m, BodyAt(buf, e, length)))
  {
    var e := |Head(m)| + 1;
    var g := f.(verb := m.verb, path := Some(m.path));
    if m.headers == [] {
      assert |Head(m)| == |RequestLine(m)|;
      hide Parsed, ParsePath, ParseVersion, RequestLine, Find, Listed, WithBody, ExpectedOfFields, BodyAt, At;
      LineLayout(buf, m);
      VerbStage(f, max, buf, length, m, e);
      PathStage(f.(verb := m.verb), max, buf, length, m, e);
      VersionAtTwoNuls(g, max, buf, length, m, e);
    } else {
      HeadLine(buf, m);
      hide Parsed, ParseHeaders, LineAt, TwoNulsAt, Head, RequestLine, Find, Listed, WithBody, ExpectedOfFields;
      hide BodyAt, At;
      LineStages(f, max, buf, length, m, e);
      HeadersAtTwoNuls(g.(version := m.version), max, buf, length, m);
    }
  }
}
