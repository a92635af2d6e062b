/** Malformed lines: request lines that lack a part, and field lines without ": ". The space
    after the colon is optional (RFC 9112, section 5), but the parser needs it. */
module HttpBadLines {
  import opened CStrings
  import opened LibTstr
  import opened HttpText
  import opened HttpParser
  import opened HttpRequests

  /** A search for ": " from `s` claims to have found one in the C string that ends at `z`. */
  ghost predicate Claims(buf: seq<char>, s: nat, z: nat)
    requires z < |buf|
  {
    !NoneVisible(buf, ": ", s, z) || EndsInPart(buf, ": ", s, z) || (z + 1 < |buf| && buf[z + 1] == NUL)
  }

  /** The verdict on a line from `s` without a separator, when there is room for a field. */
  ghost function ExpectedOfLine(buf: seq<char>, s: nat, z: nat, room: bool): Verdict
    requires z < |buf|
  {
    if Claims(buf, s, z) then if room then Undefined else Rejected
    else if z + 1 < |buf| then Rejected
    else Undefined
  }

  /** A line that ends at `e`, without a visible separator, in the C string that ends at `z`. */
  ghost predicate BadLineAt(buf: seq<char>, s: nat, line: string, z: nat) {
    var e := s + |line|;
    && At(buf, s, line) && Plain(line) && LineEnd(buf, e) && NoneVisible(buf, ": ", s, e)
    && e < z < |buf| && buf[z] == NUL && forall q | s <= q < z :: buf[q] != NUL
  }

  /** What the search for the separator answers on such a line: if anything, an index beyond
      the end of the line. */
  ghost predicate Beyond(buf: seq<char>, s: nat, e: nat, z: nat, r: Option<Token>)
    requires z < |buf|
  {
    && (r.Some? && r.value.end != 0 <==> Claims(buf, s, z))
    && (r.Some? ==> r.value.start == s && (r.value.end == 0 || r.value.end >= e))
    && (r.None? <==> z + 1 >= |buf| && !Claims(buf, s, z))
  }

  lemma {:induction false} SeparatorBeyond(buf: seq<char>, s: nat, line: string, z: nat)
    requires BadLineAt(buf, s, line, z) && s > 0
    ensures Beyond(buf, s, s + |line|, z, Find(buf, s, 0, 0, ": ", s + |line|))
  {
    if NoneVisible(buf, ": ", s, z) {
      NothingVisible(buf, s, s + |line|, z);
    } else {
      var p :| s <= p && p + 2 <= z && Visible(buf, ": ", s, p);
      var q := LeastVisible(buf, ": ", s, p);
      VisibleBeyond(buf, s, s + |line|, z, q);
    }
  }

  lemma {:induction false} NothingVisible(buf: seq<char>, s: nat, e: nat, z: nat)
    requires 0 < s <= e < z < |buf| && buf[z] == NUL && buf[e] == CR && NoneVisible(buf, ": ", s, z)
    requires forall q | s <= q < z :: buf[q] != NUL
    ensures Beyond(buf, s, e, z, Find(buf, s, 0, 0, ": ", e))
  {
    var pending := Absent(buf, ": ", s, z, e);
    hide EndsInPart, NoneVisible, Find;
  }

  lemma {:induction false} VisibleBeyond(buf: seq<char>, s: nat, e: nat, z: nat, q: nat)
    requires 0 < s <= e < z < |buf| && buf[e] == CR && NoneVisible(buf, ": ", s, e)
    requires s <= q && q + 2 <= z && Visible(buf, ": ", s, q) && forall r | s <= r < q :: !Visible(buf, ": ", s, r)
    requires forall q | s <= q < z :: buf[q] != NUL
    ensures Beyond(buf, s, e, z, Find(buf, s, 0, 0, ": ", e))
  {
    ReportsVisible(buf, ": ", s, q, e);
    assert ": "[0] == buf[q + 0] && ": "[1] == buf[q + 1];
    assert !NoneVisible(buf, ": ", s, z);
    hide Visible, EndsInPart, Find;
  }

  /** A turn of the header loop on a line without a separator never stores it. Where the
      search runs into a later line, the length of the value is negative. */
  lemma {:induction false} TurnOnBadLine(
      acc: seq<Header>, max: nat, buf: seq<char>, last: nat, line: string, n: int, z: nat)
    requires |acc| <= max && BadLineAt(buf, last + 2, line, z)
    ensures Turn(acc, max, buf, last, n) == Stop(Walked(ExpectedOfLine(buf, last + 2, z, |acc| < max), acc, n))
  {
    var s := last + 2;
    FindsLineEnd(buf, s, line);
    SeparatorBeyond(buf, s, line, z);
    hide Find, Claims;
  }

  /** The whole walk over fields that fit and then such a line. */
  lemma {:induction false} WalkMeetsBadLine(
      max: nat, buf: seq<char>, hs: seq<Header>, last: nat, line: string, z: nat, headersEnd: nat)
    requires AllFit(hs) && At(buf, last, Lines(hs)) && LineEnd(buf, last + |Lines(hs)|)
    requires headersEnd > last + |Lines(hs)| && BadLineAt(buf, last + |Lines(hs)| + 2, line, z)
    ensures Walk([], max, buf, headersEnd, last, 0).verdict ==
      if |hs| > max then Rejected else ExpectedOfLine(buf, last + |Lines(hs)| + 2, z, |hs| < max)
  {
    hide *;
    WalkAdvances([], max, buf, hs, last, 0, headersEnd);
    if |hs| <= max {
      var k, acc, n := last + |Lines(hs)|, [] + Lowered(hs), Declared(hs, 0);
      TurnOnBadLine(acc, max, buf, k, line, n, z);
      WalkTurn(acc, max, buf, headersEnd, k, n);
    }
  }

  /** The verdict on a request whose first line that is no stored field has no separator; the
      blank line is further on. */
  lemma {:induction false} BadLineVerdict(
      f: Fields, max: nat, m: Message, line: string, rest: seq<char>, length: int, z: nat, headersEnd: nat)
    requires WellFormed(m) && AllFit(m.headers) && f.headers == []
    requires var buf := Head(m) + CRLF + (line + rest);
      && length <= |buf| && BadLineAt(buf, |Head(m)| + 2, line, z)
      && Find(buf, 0, 0, 0, BLANK_LINE, 0) == Some(Token(0, headersEnd)) && headersEnd > |Head(m)|
    ensures var buf := Head(m) + CRLF + (line + rest);
      Parsed(f, max, buf, length).0 ==
        if |m.verb| > 6 then Undefined
        else if !Listed(m.verb) then Rejected
        else if |m.version| > 3 then Undefined
        else if m.version != "1.1" || |m.headers| > max then Rejected
        else ExpectedOfLine(buf, |Head(m)| + 2, z, |m.headers| < max)
  {
    var buf := Head(m) + CRLF + (line + rest);
    Layout(m, CRLF, line + rest);
    hide Find, RequestLine, Lines, WellFormed, AllFit, At, LineEnd, BadLineAt, ExpectedOfLine, Parsed, Listed;
    HeadLine(buf, m);
    LineStages(f, max, buf, length, m, headersEnd);
    var g := f.(verb := m.verb, path := Some(m.path), version := m.version);
    BadLineStage(g, max, buf, length, m, line, z, headersEnd);
  }

  lemma {:induction false} BadLineStage(f: Fields, max: nat, buf: seq<char>, length: int, m: Message,
                                        line: string, z: nat, headersEnd: nat)
    requires AllFit(m.headers) && f.headers == [] && HeadAt(buf, m) && length <= |buf|
    requires BadLineAt(buf, |Head(m)| + 2, line, z) && headersEnd > |Head(m)|
    ensures ParseHeaders(f, max, buf, length, headersEnd, |RequestLine(m)|).0 ==
      if |m.headers| > max then Rejected else ExpectedOfLine(buf, |Head(m)| + 2, z, |m.headers| < max)
  {
    hide Walk, ParseBody, RequestLine, Lines, AllFit, At, BadLineAt, LineEnd, Claims;
    WalkMeetsBadLine(max, buf, m.headers, |RequestLine(m)|, line, z, headersEnd);
  }

  // ----- request lines that lack a part -----

  /** From `s` to the NUL at `n` there is no space, and no second NUL follows. */
  ghost predicate NoSpace(buf: seq<char>, s: nat, n: nat) {
    && s <= n && n + 1 < |buf| && buf[n] == NUL && buf[n + 1] != NUL
    && forall q | s <= q < n :: buf[q] != ' ' && buf[q] != NUL
  }

  lemma {:induction false} SpaceNotFound(buf: seq<char>, s: nat, n: nat)
    requires NoSpace(buf, s, n)
    ensures Find(buf, s, 0, 0, " ", 0) == Some(Token(s, 0))
  {
    assert NoneVisible(buf, " ", s, n) by {
      forall q | s <= q && q + 1 <= n ensures !OccursAt(buf, " ", q) { assert " "[0] != buf[q + 0]; }
    }
    var pending := Absent(buf, " ", s, n, 0);
  }

  /** Without any space the request is rejected and nothing is stored. */
  lemma {:induction false} NoFirstSpace(f: Fields, max: nat, buf: seq<char>, length: int, n: nat, headersEnd: nat)
    requires |f.headers| <= max && length <= |buf| && NoSpace(buf, 0, n)
    requires Find(buf, 0, 0, 0, BLANK_LINE, 0) == Some(Token(0, headersEnd)) && headersEnd > 0
    ensures Parsed(f, max, buf, length) == (Rejected, f)
  {
    SpaceNotFound(buf, 0, n);
    hide Find;
  }

  /** With one space only it is rejected once the method is stored. */
  lemma {:induction false} NoSecondSpace(
      f: Fields, max: nat, buf: seq<char>, length: int, verb: string, n: nat, headersEnd: nat)
    requires |f.headers| <= max && length <= |buf| && NoSpace(buf, |verb| + 1, n)
    requires At(buf, 0, verb + " ") && Plain(verb) && ' ' !in verb && Listed(verb) && |verb| <= 6
    requires Find(buf, 0, 0, 0, BLANK_LINE, 0) == Some(Token(0, headersEnd)) && headersEnd > 0
    ensures Parsed(f, max, buf, length) == (Rejected, f.(verb := verb))
  {
    hide Find, Listed, NoSpace, Parsed, At;
    VerbStage(f, max, buf, length, Message(verb, "", "", [], ""), headersEnd);
    SpaceNotFound(buf, |verb| + 1, n);
  }

  /** Without a line end after the version, which takes a blank line inside the path, it is
      rejected once method and path are stored. */
  lemma {:induction false} NoVersionEnd(
      f: Fields, max: nat, buf: seq<char>, length: int, verb: string, path: string, n: nat, headersEnd: nat)
    requires |f.headers| <= max && length <= |buf| && At(buf, 0, verb + " ") && At(buf, |verb| + 1, path + " ")
    requires Plain(verb) && ' ' !in verb && Listed(verb) && |verb| <= 6 && NUL !in path && ' ' !in path
    requires var s := |verb| + |path| + 7;
      && s <= n && n + 1 < |buf| && buf[n] == NUL && buf[n + 1] != NUL
      && forall q | s <= q < n :: buf[q] != CR && buf[q] != NUL
    requires Find(buf, 0, 0, 0, BLANK_LINE, 0) == Some(Token(0, headersEnd)) && headersEnd > 0
    ensures Parsed(f, max, buf, length) == (Rejected, f.(verb := verb, path := Some(path)))
  {
    var m, s := Message(verb, path, "", [], ""), |verb| + |path| + 7;
    LineEndNotFound(buf, s, n);
    var g := f.(verb := verb, path := Some(path));
    VersionNotFound(g, max, buf, length, headersEnd, |verb| + 1 + |path|);
    hide *;
    VerbStage(f, max, buf, length, m, headersEnd);
    PathStage(f.(verb := verb), max, buf, length, m, headersEnd);
  }

  lemma {:induction false} VersionNotFound(
      f: Fields, max: nat, buf: seq<char>, length: int, headersEnd: nat, pathEnd: nat)
    requires |f.headers| <= max && length <= |buf|
    requires Find(buf, pathEnd + 6, 0, 0, CRLF, 0) == Some(Token(pathEnd + 6, 0))
    ensures ParseVersion(f, max, buf, length, headersEnd, pathEnd) == (Rejected, f)
  {
    hide Find;
  }

  lemma {:induction false} LineEndNotFound(buf: seq<char>, s: nat, n: nat)
    requires s <= n && n + 1 < |buf| && buf[n] == NUL && buf[n + 1] != NUL
    requires forall q | s <= q < n :: buf[q] != CR && buf[q] != NUL
    ensures Find(buf, s, 0, 0, CRLF, 0) == Some(Token(s, 0))
  {
    assert CRLF[0] == CR;
    assert NoneVisible(buf, CRLF, s, n) by {
      forall q | s <= q && q + 2 <= n ensures !OccursAt(buf, CRLF, q) { assert CRLF[0] != buf[q + 0]; }
    }
    assert RunBefore(buf, CR, s, n) == 0;
    var pending := Absent(buf, CRLF, s, n, 0);
  }

  /** Where at most five bytes follow the path and its space in the block, the search for the
      version starts outside it. */
  lemma {:induction false} VersionBeyondBlock(
      f: Fields, max: nat, verb: string, path: string, rest: seq<char>, length: int, headersEnd: nat)
    requires |f.headers| <= max && |rest| <= 5 && length <= |verb + " " + (path + " " + rest)|
    requires Plain(verb) && ' ' !in verb && Listed(verb) && |verb| <= 6 && Plain(path) && ' ' !in path
    requires headersEnd > 0
    requires Find(verb + " " + (path + " " + rest), 0, 0, 0, BLANK_LINE, 0) == Some(Token(0, headersEnd))
    ensures Parsed(f, max, verb + " " + (path + " " + rest), length).0 == Undefined
  {
    var buf, m := verb + " " + (path + " " + rest), Message(verb, path, "", [], "");
    assert At(buf, 0, buf);
    AtParts(buf, 0, verb + " ", path + " " + rest);
    AtParts(buf, |verb| + 1, path + " ", rest);
    assert Find(buf, |verb| + |path| + 7, 0, 0, CRLF, 0).None?;
    hide Find, Listed, Parsed, ParsePath, At;
    VerbStage(f, max, buf, length, m, headersEnd);
    PathStage(f.(verb := verb), max, buf, length, m, headersEnd);
  }
}
