/** NUL-terminated strings and the decimal conversions of the C library that the
    repository calls (`strcmp`, `snprintf("%d")`, `atoi`). */
module CStrings {

  datatype Option<+T> = None | Some(value: T) {
    predicate IsFailure() { None? }

    function PropagateFailure<U>(): Option<U>
      requires None?
    {
      None
    }

    function Extract(): T
      requires Some?
    {
      value
    }
  }

  const NUL: char := '\0'
  const CR: char := '\r'
  const CRLF: string := "\r\n"
  const BLANK_LINE: string := "\r\n\r\n"
  const INT_MAX: int := 0x7fff_ffff

  /** The C string that starts a memory block: everything before the first NUL. */
  function CStr(memory: seq<char>): (s: string)
    ensures s <= memory && NUL !in s
    ensures |s| < |memory| ==> memory[|s|] == NUL
  {
    if memory == [] || memory[0] == NUL then []
    else
      assert memory == [memory[0]] + memory[1..];
      [memory[0]] + CStr(memory[1..])
  }

  lemma {:induction false} CStrUnique(memory: seq<char>, s: string)
    requires s <= memory && NUL !in s
    requires |s| < |memory| ==> memory[|s|] == NUL
    ensures CStr(memory) == s
  {
    var t := CStr(memory);
    assert forall i | 0 <= i < |s| :: memory[i] == s[i] && s[i] != NUL;
    assert forall i | 0 <= i < |t| :: memory[i] == t[i] && t[i] != NUL;
  }

  // ----- decimal numbers -----

  predicate IsDigit(c: char) {
    '0' <= c <= '9'
  }

  predicate AllDigits(s: string) {
    forall i | 0 <= i < |s| :: IsDigit(s[i])
  }

  function DigitChar(n: nat): (c: char)
    requires n < 10
  {
    ('0' as int + n) as char
  }

  function DigitValue(c: char): (n: nat)
    requires IsDigit(c)
  {
    c as int - '0' as int
  }

  function Digits(n: nat): (s: string)
    ensures s != [] && AllDigits(s)
    ensures n > 0 ==> s[0] != '0'
  {
    if n < 10 then [DigitChar(n)] else Digits(n / 10) + [DigitChar(n % 10)]
  }

  /** What `snprintf("%d")` (or `"%zu"`) prints. */
  function Decimal(n: int): (s: string)
    ensures s != []
  {
    if n < 0 then ['-'] + Digits(-n) else Digits(n)
  }

  function NatOf(s: string): nat
    requires AllDigits(s)
  {
    if s == [] then 0 else NatOf(s[..|s| - 1]) * 10 + DigitValue(s[|s| - 1])
  }

  lemma {:induction false} NatOfDigits(n: nat)
    ensures NatOf(Digits(n)) == n
  {
    if n < 10 {
      assert Digits(n)[..0] == [];
    } else {
      NatOfDigits(n / 10);
      assert Digits(n)[..|Digits(n)| - 1] == Digits(n / 10);
    }
  }

  /** Length of the longest prefix made of digits. */
  function DigitRun(s: string): (k: nat)
    ensures k <= |s| && AllDigits(s[..k])
    ensures k < |s| ==> !IsDigit(s[k])
  {
    if s == [] || !IsDigit(s[0]) then 0 else 1 + DigitRun(s[1..])
  }

  lemma {:induction false} DigitRunUnique(digits: string, rest: string)
    requires AllDigits(digits)
    requires rest == [] || !IsDigit(rest[0])
    ensures DigitRun(digits + rest) == |digits|
    ensures (digits + rest)[..|digits|] == digits
  {
    var s, k := digits + rest, DigitRun(digits + rest);
    assert forall i | 0 <= i < |digits| :: s[i] == digits[i];
    assert rest != [] ==> s[|digits|] == rest[0];
    assert forall i | 0 <= i < k :: s[i] == s[..k][i];
  }

  // ----- atoi -----

  predicate FitsInt(n: int) {
    -INT_MAX - 1 <= n <= INT_MAX
  }

  predicate IsSpace(c: char) {
    c == ' ' || c == '\t' || c == '\n' || c as int == 11 || c as int == 12 || c == '\r'
  }

  function SpaceRun(s: string): (k: nat)
    ensures k <= |s|
    ensures forall i | 0 <= i < k :: IsSpace(s[i])
    ensures k < |s| ==> !IsSpace(s[k])
  {
    if s == [] || !IsSpace(s[0]) then 0 else 1 + SpaceRun(s[1..])
  }

  function SignLength(s: string): (k: nat)
    ensures k <= |s| && k <= 1
  {
    if s != [] && (s[0] == '-' || s[0] == '+') then 1 else 0
  }

  /** An optional sign, then digits. `None` when the digits reach the end of the memory
      or the number does not fit an `int`. */
  function Signed(t: seq<char>): (r: Option<int>)
    ensures r.Some? ==> FitsInt(r.value)
  {
    var u := t[SignLength(t)..];
    var k := DigitRun(u);
    if k == |u| then None
    else
      var n: int := NatOf(u[..k]);
      var v := if t[0] == '-' then -n else n;
      if FitsInt(v) then Some(v) else None
  }

  /** `atoi` on the memory `s`. `None` when the conversion reads past the memory or the
      number does not fit an `int`; the C standard leaves both undefined. */
  function Atoi(s: seq<char>): (r: Option<int>)
    ensures r.Some? ==> FitsInt(r.value)
  {
    Signed(s[SpaceRun(s)..])
  }

  /** A field value that `atoi` settles without looking beyond it. */
  predicate HoldsNumber(value: string) {
    SpaceRun(value) < |value| && Atoi(value + [CR]).Some?
  }

  lemma {:induction false} SpaceRunLocal(a: string, b: string)
    requires SpaceRun(a) < |a|
    ensures SpaceRun(a + b) == SpaceRun(a)
  {
    var s, k, l := a + b, SpaceRun(a), SpaceRun(a + b);
    assert s[k] == a[k];
    assert forall i | 0 <= i < |a| :: s[i] == a[i];
  }

  lemma {:induction false} DigitRunLocal(a: string, b: string)
    requires DigitRun(a) < |a|
    ensures DigitRun(a + b) == DigitRun(a) && (a + b)[..DigitRun(a)] == a[..DigitRun(a)]
  {
    var k := DigitRun(a);
    assert a + b == a[..k] + (a[k..] + b);
    DigitRunUnique(a[..k], a[k..] + b);
  }

  /** A digit run that ends before a byte that is no digit. */
  lemma {:induction false} DigitRunEnds(u: string, c: char, rest: string)
    requires !IsDigit(c)
    ensures DigitRun(u + [c] + rest) == DigitRun(u)
    ensures (u + [c] + rest)[..DigitRun(u)] == u[..DigitRun(u)]
  {
    if DigitRun(u) < |u| {
      assert u + [c] + rest == u + ([c] + rest);
      DigitRunLocal(u, [c] + rest);
    } else {
      assert u[..|u|] == u;
      assert u + [c] + rest == u + ([c] + rest);
      DigitRunUnique(u, [c] + rest);
    }
  }

  lemma {:induction false} SignedEnds(t: string, c: char, rest: string)
    requires t != "" && !IsDigit(c)
    ensures Signed(t + [c] + rest) == Signed(t + [CR])
  {
    hide NatOf, DigitRun;
    var u := t[SignLength(t)..];
    assert (t + [c] + rest)[SignLength(t)..] == u + [c] + rest;
    assert (t + [CR])[SignLength(t)..] == u + [CR] + "";
    DigitRunEnds(u, c, rest);
    DigitRunEnds(u, CR, "");
  }

  /** `atoi` on a header value inside a message stops at the byte that ends it, be it CR or
      NUL. */
  lemma {:induction false} AtoiLocal(value: string, c: char, rest: string)
    requires SpaceRun(value) < |value| && !IsDigit(c)
    ensures Atoi(value + [c] + rest) == Atoi(value + [CR])
  {
    hide Signed;
    var k := SpaceRun(value);
    assert value + [c] + rest == value + ([c] + rest);
    SpaceRunLocal(value, [c] + rest);
    SpaceRunLocal(value, [CR]);
    assert (value + [c] + rest)[k..] == value[k..] + [c] + rest;
    assert (value + [CR])[k..] == value[k..] + [CR];
    SignedEnds(value[k..], c, rest);
  }

  /** Printing a number and reading it back with `atoi`. */
  lemma {:induction false} AtoiDecimal(n: int, rest: string)
    requires rest != [] && !IsDigit(rest[0])
    ensures Atoi(Decimal(n) + rest) == if FitsInt(n) then Some(n) else None
  {
    hide NatOf, Digits, DigitRun;
    var m: nat := if n < 0 then -n else n;
    var s := Decimal(n) + rest;
    assert s[0] == Decimal(n)[0];
    assert SpaceRun(s) == 0;
    assert s[SignLength(s)..] == Digits(m) + rest;
    DigitRunUnique(Digits(m), rest);
    NatOfDigits(m);
  }

  lemma {:induction false} DecimalHoldsNumber(n: int)
    requires FitsInt(n)
    ensures HoldsNumber(Decimal(n)) && Atoi(Decimal(n) + [CR]) == Some(n)
    ensures forall c | c in Decimal(n) :: c == '-' || IsDigit(c)
  {
    hide NatOf, Digits, Atoi;
    AtoiDecimal(n, [CR]);
    assert !IsSpace(Decimal(n)[0]);
  }
}
