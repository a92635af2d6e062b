/** HTTP/1.1 message text (RFC 9112, sections 3 to 6): how the parts of a message are
    written, and a reference reader for field blocks that backs up as it needs. */
module HttpText {
  import opened CStrings

  datatype Header = Header(key: string, value: string)

  function RenderHeader(h: Header): string {
    h.key + ": " + h.value + CRLF
  }

  function RenderHeaders(hs: seq<Header>): string {
    if hs == [] then "" else RenderHeader(hs[0]) + RenderHeaders(hs[1..])
  }

  /** Text that stays inside one line and one C string. */
  predicate Plain(s: string) {
    CR !in s && NUL !in s
  }

  predicate PlainHeader(h: Header) {
    Plain(h.key) && Plain(h.value) && ':' !in h.key
  }

  predicate PlainHeaders(hs: seq<Header>) {
    forall i | 0 <= i < |hs| :: PlainHeader(hs[i])
  }

  // ----- reference reader -----

  /** `s` cut at the first occurrence of `d`. */
  function Cut(s: string, d: string): (r: Option<(string, string)>)
    ensures r.Some? ==> s == r.value.0 + d + r.value.1
  {
    if d <= s then Some(("", s[|d|..]))
    else if s == "" then None
    else
      match Cut(s[1..], d)
      case None => None
      case Some((before, after)) => Some(([s[0]] + before, after))
  }

  lemma {:induction false} CutAtFirst(before: string, d: string, after: string)
    requires d != [] && d[0] !in before
    ensures Cut(before + d + after, d) == Some((before, after))
  {
    var s := before + d + after;
    if before == "" {
      assert s == d + after;
    } else {
      assert s[0] == before[0];
      assert s[1..] == before[1..] + d + after;
      CutAtFirst(before[1..], d, after);
      assert [before[0]] + before[1..] == before;
    }
  }

  /** Field lines up to the empty line, and what follows it. */
  function ReadHeaders(s: string): (r: Option<(seq<Header>, string)>)
    decreases |s|
  {
    if "\r\n" <= s then Some(([], s[2..]))
    else
      match Cut(s, "\r\n")
      case None => None
      case Some((line, rest)) =>
        match Cut(line, ": ")
        case None => None
        case Some((key, value)) =>
          match ReadHeaders(rest)
          case None => None
          case Some((hs, body)) => Some(([Header(key, value)] + hs, body))
  }

  /** Reading a written field block gives the fields back. */
  lemma {:induction false} ReadRendered(hs: seq<Header>, body: string)
    requires PlainHeaders(hs)
    ensures ReadHeaders(RenderHeaders(hs) + CRLF + body) == Some((hs, body))
  {
    hide Cut;
    var s := RenderHeaders(hs) + CRLF + body;
    if hs == [] {
      assert s == CRLF + body;
    } else {
      var h, rest := hs[0], RenderHeaders(hs[1..]) + CRLF + body;
      var line := h.key + ": " + h.value;
      assert s == line + CRLF + rest;
      assert s[0] == line[0];
      CutAtFirst(line, CRLF, rest);
      CutAtFirst(h.key, ": ", h.value);
      ReadRendered(hs[1..], body);
      assert [h] + hs[1..] == hs;
    }
  }
}
