/** The one-pass substring search and the buffer append of libtstr.c. */
module LibTstr {
  import opened CStrings

  datatype Token = Token(start: nat, end: nat)

  // ----- tstr_find_between, start == NULL -----

  /** How one run of the inner loop ends: with the whole delimiter matched, at a NUL, or
      by reading outside the memory block. */
  datatype Scanned = Found(end: nat) | AtNul(at: nat, j: nat, end: nat) | OffMemory

  /** The inner loop from index `i` with `j` delimiter characters matched so far and
      `end` the candidate match index (0 for none). A mismatch consumes its character. */
  function Scan(buf: seq<char>, i: nat, j: nat, end: nat, delim: string): (r: Scanned)
    requires j < |delim|
    ensures r.AtNul? ==> i <= r.at < |buf| && buf[r.at] == NUL && r.j < |delim|
    decreases |buf| - i
  {
    if i >= |buf| then OffMemory
    else if buf[i] == NUL then AtNul(i, j, end)
    else if buf[i] == delim[j] then
      var candidate := if end == 0 then i else end;
      if j + 1 == |delim| then Found(candidate) else Scan(buf, i + 1, j + 1, candidate, delim)
    else Scan(buf, i + 1, 0, 0, delim)
  }

  /** The whole search: the outer loop runs the scan again past a NUL while `len` allows
      it, and a search that found nothing looks at the byte after the last NUL. */
  function Find(buf: seq<char>, i: nat, j: nat, end: nat, delim: string, len: int): (r: Option<Token>)
    requires j < |delim|
    decreases |buf| - i
  {
    match Scan(buf, i, j, end, delim)
    case OffMemory => None
    case Found(e) => Some(Token(i, e))
    case AtNul(n, k, e) =>
      if len != 0 && n + 1 < len then Find(buf, n + 1, k, e, delim, len)
      else if e != 0 then Some(Token(i, e))
      else if n + 1 >= |buf| then None
      else Some(Token(i, if buf[n + 1] == NUL then n + 1 else 0))
  }

  /** `None` stands for a read outside the memory block, which C leaves undefined. */
  method FindBetween(buf: seq<char>, startIndex: nat, delim: string, len: int) returns (r: Option<Token>)
    requires delim != []
    ensures r == Find(buf, startIndex, 0, 0, delim, len)
  {
    var i, j, start, end := startIndex, 0, startIndex, 0;
    while true
      invariant j < |delim|
      invariant Find(buf, startIndex, 0, 0, delim, len) == Find(buf, i, j, end, delim, len)
      decreases |buf| - i
    {
      start := i;
      ghost var entry := Scan(buf, i, j, end, delim);
      while i < |buf| && buf[i] != NUL
        invariant start <= i && j < |delim|
        invariant Scan(buf, i, j, end, delim) == entry
      {
        if buf[i] == delim[j] {
          if end == 0 { end := i; }
          j := j + 1;
          if j == |delim| { return Some(Token(start, end)); }
        } else {
          end := 0;
          j := 0;
        }
        i := i + 1;
      }
      if i >= |buf| { return None; }
      i := i + 1;
      if !(len != 0 && i < len) { break; }
    }
    if end == 0 {
      if i >= |buf| { return None; }
      if buf[i] == NUL { end := i; }
    }
    return Some(Token(start, end));
  }

  // ----- what the search finds -----

  /** The delimiters the repository searches for. */
  predicate Delimiter(d: string) {
    d == " " || d == ": " || d == CRLF || d == BLANK_LINE
  }

  predicate OccursAt(buf: seq<char>, d: string, p: nat) {
    p + |d| <= |buf| && forall k | 0 <= k < |d| :: d[k] == buf[p + k]
  }

  /** `p` is the least index at or after `s` where `d` occurs, and no NUL comes first. */
  ghost predicate FirstAt(buf: seq<char>, d: string, s: nat, p: nat) {
    s <= p && OccursAt(buf, d, p)
    && (forall q | s <= q < p :: !OccursAt(buf, d, q))
    && (forall q | s <= q < p :: buf[q] != NUL)
  }

  /** Length of the run of `c` that ends just before `p`, not looking before `s`. */
  function RunBefore(buf: seq<char>, c: char, s: nat, p: nat): nat
    requires p <= |buf|
  {
    if p > s && buf[p - 1] == c then 1 + RunBefore(buf, c, s, p - 1) else 0
  }

  /** An occurrence the scan does not run past: an even run of first characters, or none,
      ends where it starts. */
  ghost predicate Visible(buf: seq<char>, d: string, s: nat, p: nat)
    requires d != ""
  {
    OccursAt(buf, d, p) && RunBefore(buf, d[0], s, p) % 2 == 0
  }

  ghost predicate NoneVisible(buf: seq<char>, d: string, s: nat, n: nat)
    requires d != ""
  {
    forall q | s <= q && q + |d| <= n :: !Visible(buf, d, s, q)
  }

  /** What the scan remembers at index `i`: the `j` characters just read match from a
      visible start, `end` is that start, and `j` has the parity of the run of first
      characters. */
  ghost predicate Remembers(buf: seq<char>, d: string, s: nat, i: nat, j: nat, end: nat) {
    s <= i <= |buf| && j < |d| && s + j <= i
    && (forall k | 0 <= k < j :: d[k] == buf[i - j + k])
    && (if j == 0 then end == 0 else if i - j > 0 then end == i - j else end == if j == 1 then 0 else 1)
    && (j > 0 ==> RunBefore(buf, d[0], s, i - j) % 2 == 0)
    && (j % 2 == 1 <==> RunBefore(buf, d[0], s, i) % 2 == 1)
  }

  /** Matching the last character completes a visible occurrence. */
  lemma {:induction false} Completes(buf: seq<char>, d: string, s: nat, i: nat, j: nat, end: nat)
    requires d != "" && i < |buf| && Remembers(buf, d, s, i, j, end) && j + 1 == |d| && buf[i] == d[j]
    requires j == 0 ==> d == " "
    ensures s <= i - j && Visible(buf, d, s, i - j)
  {
    assert forall k | 0 <= k < j :: d[k] == buf[i - j + k];
  }

  lemma {:induction false} Step(buf: seq<char>, d: string, s: nat, p: nat, i: nat, j: nat, end: nat)
    returns (j': nat, end': nat)
    requires Delimiter(d) && i < p <= |buf| && Remembers(buf, d, s, i, j, end)
    requires forall q | s <= q < p :: buf[q] != NUL
    requires i + 1 - |d| >= s ==> !Visible(buf, d, s, i + 1 - |d|)
    ensures Remembers(buf, d, s, i + 1, j', end') && j' == if buf[i] == d[j] then j + 1 else 0
    ensures Scan(buf, i, j, end, d) == Scan(buf, i + 1, j', end', d)
  {
    if buf[i] == d[j] {
      if j + 1 == |d| { Completes(buf, d, s, i, j, end); }
      j', end' := j + 1, if end == 0 then i else end;
      hide OccursAt, Visible;
      assert forall k | 0 <= k < j' :: d[k] == buf[i + 1 - j' + k];
    } else {
      j', end' := 0, 0;
    }
  }

  /** The scan reaches `p` in a state it remembers correctly. */
  lemma {:induction false} Reach(buf: seq<char>, d: string, s: nat, p: nat, i: nat, j: nat, end: nat)
    returns (j': nat, end': nat)
    requires Delimiter(d) && i <= p <= |buf| && Remembers(buf, d, s, i, j, end)
    requires NoneVisible(buf, d, s, p)
    requires forall q | s <= q < p :: buf[q] != NUL
    ensures Remembers(buf, d, s, p, j', end')
    ensures Scan(buf, i, j, end, d) == Scan(buf, p, j', end', d)
    decreases p - i
  {
    j', end' := j, end;
    if i < p {
      var k, e := Step(buf, d, s, p, i, j, end);
      j', end' := Reach(buf, d, s, p, i + 1, k, e);
    }
  }

  /** Once the scan is past `p` it can no longer answer `p`. */
  lemma {:induction false} NeverBack(buf: seq<char>, d: string, p: nat, i: nat, j: nat, end: nat, len: int)
    requires p > 0 && j < |d| && i > p && (end == 0 || end > p)
    ensures var r := Find(buf, i, j, end, d, len); r.Some? ==> r.value.end != p
    decreases |buf| - i
  {
    NeverBackScan(buf, d, p, i, j, end);
    match Scan(buf, i, j, end, d)
    case AtNul(n, k, e) =>
      if len != 0 && n + 1 < len { NeverBack(buf, d, p, n + 1, k, e, len); }
    case _ =>
  }

  lemma {:induction false} NeverBackScan(buf: seq<char>, d: string, p: nat, i: nat, j: nat, end: nat)
    requires j < |d| && i > p && (end == 0 || end > p)
    ensures var r := Scan(buf, i, j, end, d); r.Found? ==> r.end > p
    ensures var r := Scan(buf, i, j, end, d); r.AtNul? ==> r.end == 0 || r.end > p
    decreases |buf| - i
  {
    if i < |buf| && buf[i] != NUL {
      if buf[i] == d[j] {
        if j + 1 < |d| { NeverBackScan(buf, d, p, i + 1, j + 1, if end == 0 then i else end); }
      } else {
        NeverBackScan(buf, d, p, i + 1, 0, 0);
      }
    }
  }

  lemma {:induction false} FindFollowsScan(buf: seq<char>, d: string, s: nat, p: nat, j: nat, end: nat, len: int)
    requires d != [] && j < |d|
    requires Scan(buf, s, 0, 0, d) == Scan(buf, p, j, end, d)
    ensures var a, b := Find(buf, s, 0, 0, d, len), Find(buf, p, j, end, d, len);
      (a.None? && b.None?) || (a.Some? && b.Some? && a.value.end == b.value.end)
  {
  }

  /** The first-occurrence theorem. The search never backs up, yet it reports the first
      occurrence `p` of the delimiter exactly when the run of the delimiter's first
      character that touches `p` from the left has even length. */
  lemma {:induction false} FirstOccurrence(buf: seq<char>, d: string, s: nat, p: nat, len: int)
    requires Delimiter(d) && FirstAt(buf, d, s, p) && p > 0
    ensures Find(buf, s, 0, 0, d, len) == Some(Token(s, p)) <==> RunBefore(buf, d[0], s, p) % 2 == 0
  {
    if RunBefore(buf, d[0], s, p) % 2 == 0 {
      ReportsVisible(buf, d, s, p, len);
    } else {
      var j, end := Reach(buf, d, s, p, s, 0, 0);
      assert d[0] == buf[p + 0];
      assert Scan(buf, p, j, end, d) == Scan(buf, p + 1, 0, 0, d);
      NeverBack(buf, d, p, p + 1, 0, 0, len);
      FindFollowsScan(buf, d, s, p + 1, 0, 0, len);
    }
  }

  /** Whatever is hidden before it, the first visible occurrence is the one reported. */
  lemma {:induction false} ReportsVisible(buf: seq<char>, d: string, s: nat, p: nat, len: int)
    requires Delimiter(d) && s <= p && Visible(buf, d, s, p)
    requires forall q | s <= q < p :: !Visible(buf, d, s, q) && buf[q] != NUL
    ensures Find(buf, s, 0, 0, d, len) == Some(Token(s, if p > 0 || |d| == 1 then p else 1))
  {
    var j, end := Reach(buf, d, s, p, s, 0, 0);
    FreshStart(buf, d, s, p, j, end);
    hide OccursAt, RunBefore, Scan;
    MatchHere(buf, d, p, 0, 0);
    assert Visible(buf, d, s, p);
    FindFollowsScan(buf, d, s, p, j, end, len);
  }

  /** The scan arrives at the first visible occurrence with nothing pending. */
  lemma {:induction false} FreshStart(buf: seq<char>, d: string, s: nat, p: nat, j: nat, end: nat)
    requires Delimiter(d) && s <= p && Visible(buf, d, s, p) && Remembers(buf, d, s, p, j, end)
    requires forall q | s <= q < p :: !Visible(buf, d, s, q)
    ensures j == 0 && end == 0
  {
    if j == 2 { Overlap(buf, d, s, p, end); }
  }

  /** Half a blank line and a blank line begin a blank line. */
  lemma {:induction false} Overlap(buf: seq<char>, d: string, s: nat, p: nat, end: nat)
    requires Delimiter(d) && OccursAt(buf, d, p) && Remembers(buf, d, s, p, 2, end)
    ensures s <= p - 2 && Visible(buf, d, s, p - 2)
  {
    assert d[0] == buf[p - 2 + 0] && d[1] == buf[p - 2 + 1];
    assert d[0] == buf[p + 0] && d[1] == buf[p + 1];
  }

  lemma {:induction false} MatchHere(buf: seq<char>, d: string, p: nat, j: nat, end: nat)
    requires OccursAt(buf, d, p) && NUL !in d && j < |d|
    ensures Scan(buf, p + j, j, end, d)
      == Found(if end > 0 then end else if p + j > 0 || |d| == 1 then p + j else 1)
    decreases |d| - j
  {
    assert d[j] == buf[p + j];
    if j + 1 < |d| { MatchHere(buf, d, p, j + 1, if end == 0 then p + j else end); }
  }

  /** A match at index 0 has no representation: a longer delimiter is reported one byte
      late, and the space reads as "not found". */
  lemma {:induction false} MatchAtZero(buf: seq<char>, d: string, len: int)
    requires Delimiter(d) && OccursAt(buf, d, 0)
    ensures Find(buf, 0, 0, 0, d, len) == Some(Token(0, if d == " " then 0 else 1))
  {
    MatchHere(buf, d, 0, 0, 0);
  }

  /** Where a match of `pending` characters that ends at `n` is said to start. */
  function PendingStart(n: nat, pending: nat): nat {
    if pending == 0 then 0 else if n > pending then n - pending else if pending == 1 then 0 else 1
  }

  /** The text up to `n` ends in a part of the delimiter: an odd run of its first character,
      or CRLF after which only half a blank line is missing. */
  predicate EndsInPart(buf: seq<char>, d: string, s: nat, n: nat)
    requires d != "" && n <= |buf|
  {
    RunBefore(buf, d[0], s, n) % 2 == 1
    || (d == BLANK_LINE && n > s && buf[n - 1] == '\n' && RunBefore(buf, CR, s, n - 1) % 2 == 1)
  }

  /** What the search answers when it reaches the NUL at `n`, nothing visible before it. A
      part of the delimiter at the end is reported as if the delimiter had been found; if
      there is none, a second NUL is. An end bound not beyond the NUL changes nothing. */
  lemma {:induction false} Absent(buf: seq<char>, d: string, s: nat, n: nat, len: int) returns (pending: nat)
    requires Delimiter(d) && s <= n < |buf| && buf[n] == NUL && len <= n + 1
    requires forall q | s <= q < n :: buf[q] != NUL
    requires NoneVisible(buf, d, s, n)
    ensures pending < |d| && s + pending <= n && (forall k | 0 <= k < pending :: d[k] == buf[n - pending + k])
    ensures pending > 0 <==> EndsInPart(buf, d, s, n)
    ensures pending > 0 ==> RunBefore(buf, d[0], s, n - pending) % 2 == 0
    ensures pending % 2 == 1 <==> RunBefore(buf, d[0], s, n) % 2 == 1
    ensures Find(buf, s, 0, 0, d, len) ==
      var e := PendingStart(n, pending);
      if e > 0 then Some(Token(s, e))
      else if n + 1 < |buf| then Some(Token(s, if buf[n + 1] == NUL then n + 1 else 0))
      else None
  {
    var end;
    pending, end := Arrive(buf, d, s, n);
    hide RunBefore, EndsInPart, NoneVisible;
    assert Scan(buf, s, 0, 0, d) == AtNul(n, pending, end);
  }

  /** The scan reaches the NUL with the part of the delimiter it has just read. */
  lemma {:induction false} Arrive(buf: seq<char>, d: string, s: nat, n: nat) returns (pending: nat, end: nat)
    requires Delimiter(d) && s <= n < |buf| && NoneVisible(buf, d, s, n)
    requires forall q | s <= q < n :: buf[q] != NUL
    ensures Remembers(buf, d, s, n, pending, end) && Scan(buf, s, 0, 0, d) == Scan(buf, n, pending, end, d)
    ensures pending > 0 <==> EndsInPart(buf, d, s, n)
  {
    if n == s {
      pending, end := 0, 0;
    } else {
      var j, start := Reach(buf, d, s, n - 1, s, 0, 0);
      pending, end := Step(buf, d, s, n, n - 1, j, start);
      PartPending(buf, d, s, n, j, start, pending, end);
    }
  }

  lemma {:induction false} PartPending(
      buf: seq<char>, d: string, s: nat, n: nat, j: nat, start: nat, pending: nat, end: nat)
    requires Delimiter(d) && s < n <= |buf|
    requires Remembers(buf, d, s, n - 1, j, start) && Remembers(buf, d, s, n, pending, end)
    requires pending == if buf[n - 1] == d[j] then j + 1 else 0
    ensures pending > 0 <==> EndsInPart(buf, d, s, n)
  {
    if pending == 2 {
      assert d[0] == buf[n - 2 + 0] && d[1] == buf[n - 2 + 1];
    }
  }

  /** An end bound beyond the NUL at `n` makes the search start over behind it, unless the
      text before it ends in a part of the delimiter. */
  lemma {:induction false} StartsOver(buf: seq<char>, d: string, s: nat, n: nat, len: int)
    requires Delimiter(d) && s <= n < |buf| && buf[n] == NUL && len > n + 1
    requires forall q | s <= q < n :: buf[q] != NUL
    requires NoneVisible(buf, d, s, n) && !EndsInPart(buf, d, s, n)
    ensures Find(buf, s, 0, 0, d, len) == Find(buf, n + 1, 0, 0, d, len)
  {
    var pending, end := Arrive(buf, d, s, n);
    hide RunBefore, EndsInPart, NoneVisible;
    assert Scan(buf, s, 0, 0, d) == AtNul(n, 0, 0);
  }

  lemma {:induction false} LeastVisible(buf: seq<char>, d: string, s: nat, p: nat) returns (q: nat)
    requires d != "" && s <= p && Visible(buf, d, s, p)
    ensures s <= q <= p && Visible(buf, d, s, q) && forall r | s <= r < q :: !Visible(buf, d, s, r)
    decreases p
  {
    if r :| s <= r < p && Visible(buf, d, s, r) {
      q := LeastVisible(buf, d, s, r);
    } else {
      q := p;
    }
  }

  /** Exactly when a search for ": ", CRLF or CRLFCRLF claims to have found something in the
      C string that ends at `n`: there is a visible occurrence, or the string ends in a part
      of the delimiter (unless that is all of a one-character string), or a second NUL
      follows the first. The end bound does not matter up to the NUL. */
  lemma {:induction false} FoundExactly(buf: seq<char>, d: string, s: nat, n: nat, len: int)
    requires Delimiter(d) && |d| > 1 && s <= n < |buf| && buf[n] == NUL && len <= n + 1
    requires forall q | s <= q < n :: buf[q] != NUL
    ensures var r := Find(buf, s, 0, 0, d, len);
      r.Some? && r.value.end != 0 <==>
        || !NoneVisible(buf, d, s, n)
        || (EndsInPart(buf, d, s, n) && n > 1)
        || (n + 1 < |buf| && buf[n + 1] == NUL)
  {
    hide EndsInPart, Visible;
    if NoneVisible(buf, d, s, n) {
      var pending := Absent(buf, d, s, n, len);
    } else {
      var p :| s <= p && p + |d| <= n && Visible(buf, d, s, p);
      var q := LeastVisible(buf, d, s, p);
      ReportsVisible(buf, d, s, q, len);
    }
  }

  /** The scan is not a first-occurrence search in general: "::" hides the delimiter. */
  lemma {:induction false} DoubledColonHidesDelimiter()
    ensures FirstAt("a:: b\0c", ": ", 0, 2)
    ensures Find("a:: b\0c", 0, 0, 0, ": ", 0) == Some(Token(0, 0))
  {
    var b := "a:: b\0c";
    assert ": "[0] == ':' && ": "[1] == ' ';
    assert Scan(b, 0, 0, 0, ": ") == Scan(b, 1, 0, 0, ": ");
    assert Scan(b, 1, 0, 0, ": ") == Scan(b, 2, 1, 1, ": ");
    assert Scan(b, 2, 1, 1, ": ") == Scan(b, 3, 0, 0, ": ");
    assert Scan(b, 3, 0, 0, ": ") == Scan(b, 4, 0, 0, ": ");
    assert Scan(b, 4, 0, 0, ": ") == Scan(b, 5, 0, 0, ": ");
  }

  // ----- tstr_append -----

  /** The bytes an append reads are all in the memory block. */
  predicate InMemory(append: seq<char>, limiter: int) {
    if limiter == 0 then NUL in append else limiter <= |append|
  }

  /** What an append copies: the C string when `limiter` is 0, otherwise the first
      `limiter` characters (none when it is negative). */
  function Piece(append: seq<char>, limiter: int): (s: seq<char>)
    requires InMemory(append, limiter)
  {
    if limiter == 0 then CStr(append) else if limiter < 0 then [] else append[..limiter]
  }

  /** The new length; `None` for a read or a write outside the blocks. */
  method Append(str: array<char>, append: seq<char>, length: nat, limiter: int) returns (r: Option<nat>)
    requires length <= str.Length
    modifies str
    ensures r.Some? <==> InMemory(append, limiter) && length + |Piece(append, limiter)| <= str.Length
    ensures r.Some? ==> r.value == length + |Piece(append, limiter)|
    ensures r.Some? ==> str[..r.value] == old(str[..length]) + Piece(append, limiter)
    ensures r.Some? ==> str[r.value..] == old(str[r.value..])
  {
    var i, newLength := 0, length;
    ghost var n := if limiter == 0 then |CStr(append)| else if limiter < 0 then 0 else limiter;
    while true
      invariant 0 <= i <= n && i <= |append| && newLength == length + i <= str.Length
      invariant str[..newLength] == old(str[..length]) + append[..i]
      invariant forall k | newLength <= k < str.Length :: str[k] == old(str[k])
      decreases |append| - i
    {
      if limiter != 0 && i >= limiter { break; }
      if i >= |append| { return None; }
      if limiter == 0 && append[i] == NUL { break; }
      if newLength >= str.Length { return None; }
      str[newLength] := append[i];
      assert append[..i + 1] == append[..i] + [append[i]];
      assert str[..newLength + 1] == str[..newLength] + [append[i]];
      newLength := newLength + 1;
      i := i + 1;
    }
    return Some(newLength);
  }
}
