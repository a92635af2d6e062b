/** What the decimal conversions compute, in positional notation. */
module Numbers {
  import opened CStrings
  import opened Powers

  const DIGITS := "0123456789"

  /** `isspace` in the C locale. */
  const WHITE_SPACE: string := [' ', '\t', '\n', '\U{000B}', '\U{000C}', '\r']

  function IndexIn(c: char, s: string): (i: nat)
    requires c in s
    ensures i < |s| && s[i] == c
  {
    if s[0] == c then 0 else 1 + IndexIn(c, s[1..])
  }

  /** The number a run of digits stands for. */
  function DecimalValue(d: string): nat
    requires forall c | c in d :: c in DIGITS
  {
    if d == "" then 0 else IndexIn(d[0], DIGITS) * Power(10, |d| - 1) + DecimalValue(d[1..])
  }

  lemma {:induction false} DigitAt(i: nat)
    requires i < 10
    ensures DIGITS[i] as int == 48 + i
  {
  }

  lemma {:induction false} DigitSpelled(c: char)
    ensures IsDigit(c) <==> c in DIGITS
    ensures c in DIGITS ==> DigitValue(c) == IndexIn(c, DIGITS)
  {
    if IsDigit(c) {
      var i := DigitValue(c);
      DigitAt(i);
      assert DIGITS[i] == c;
    }
    if c in DIGITS { DigitAt(IndexIn(c, DIGITS)); }
  }

  lemma {:induction false} DigitsSpelled(d: string)
    ensures AllDigits(d) <==> forall c | c in d :: c in DIGITS
  {
    forall c ensures IsDigit(c) <==> c in DIGITS { DigitSpelled(c); }
  }

  lemma {:induction false} NatOfHead(d: string)
    requires AllDigits(d) && d != ""
    ensures NatOf(d) == DigitValue(d[0]) * Power(10, |d| - 1) + NatOf(d[1..])
  {
    var n := |d| - 1;
    if n == 0 {
      assert d[..0] == "" && d[1..] == "";
    } else {
      var init, x := d[..n], DigitValue(d[0]);
      NatOfHead(init);
      assert d[1..][..n - 1] == init[1..];
      var p := Power(10, n - 1);
      assert (x * p) * 10 == x * (10 * p);
    }
  }

  lemma {:induction false} NatOfIsValue(d: string)
    requires AllDigits(d)
    ensures (forall c | c in d :: c in DIGITS) && NatOf(d) == DecimalValue(d)
  {
    DigitsSpelled(d);
    if d != "" {
      NatOfHead(d);
      DigitSpelled(d[0]);
      NatOfIsValue(d[1..]);
    }
  }

  /** A printed number: an optional minus and digits that stand for it, without a leading
      zero. */
  lemma {:induction false} DecimalSpelled(n: int)
    ensures var d := if n < 0 then Decimal(n)[1..] else Decimal(n);
      && (n < 0 ==> Decimal(n)[0] == '-') && d != "" && (d[0] == '0' ==> d == "0")
      && (forall c | c in d :: c in DIGITS) && DecimalValue(d) == if n < 0 then -n else n
  {
    var m: nat := if n < 0 then -n else n;
    NatOfDigits(m);
    NatOfIsValue(Digits(m));
    if m == 0 { assert Digits(0) == "0"; }
  }

  // ----- atoi on any text -----

  lemma {:induction false} SpaceSpelled(c: char)
    ensures IsSpace(c) <==> c in WHITE_SPACE
  {
    assert WHITE_SPACE[0] == ' ' && WHITE_SPACE[1] == '\t' && WHITE_SPACE[2] == '\n' && WHITE_SPACE[5] == '\r';
    assert WHITE_SPACE[3] == 11 as char && WHITE_SPACE[4] == 12 as char;
  }

  predicate Sign(s: string) {
    s == "" || s == "+" || s == "-"
  }

  /** `atoi` text: white space, a sign, digits, and something else. Without a sign and digits
      the rest starts with none of these. */
  predicate Parts(spaces: string, sign: string, digits: string, rest: string) {
    && (forall c | c in spaces :: c in WHITE_SPACE) && Sign(sign)
    && (forall c | c in digits :: c in DIGITS) && (rest != "" ==> rest[0] !in DIGITS)
    && (sign == "" && digits == "" && rest != "" ==>
        rest[0] !in WHITE_SPACE && rest[0] != '+' && rest[0] != '-')
  }

  /** The number that sign and digits stand for. */
  function SignedValue(sign: string, digits: string): int
    requires forall c | c in digits :: c in DIGITS
  {
    var n: int := DecimalValue(digits);
    if sign == "-" then -n else n
  }

  lemma {:induction false} SignedReads(sign: string, digits: string, rest: string)
    requires Parts("", sign, digits, rest)
    ensures Signed(sign + digits + rest) ==
      if rest != "" && FitsInt(SignedValue(sign, digits)) then Some(SignedValue(sign, digits)) else None
  {
    var t, u := sign + digits + rest, digits + rest;
    SignRead(sign, digits, rest);
    MinusIs(sign, digits, rest);
    assert t == sign + u && t[|sign|..] == u;
    DigitsSpelled(digits);
    if rest != "" { DigitSpelled(rest[0]); }
    DigitRunUnique(digits, rest);
    NatOfIsValue(digits);
    hide NatOf, DecimalValue, DigitRun, SignLength, AllDigits, IsDigit;
    assert u[..|digits|] == digits;
  }

  /** `atoi` skips white space, reads a sign, and answers the number the longest run of digits
      after it stands for: 0 if there is none. It is undefined when the run ends with the
      memory or the number does not fit 32 bits. */
  lemma {:induction false} AtoiReads(spaces: string, sign: string, digits: string, rest: string)
    requires Parts(spaces, sign, digits, rest)
    ensures Atoi(spaces + sign + digits + rest) ==
      var v := SignedValue(sign, digits);
      if rest != "" && -2147483648 <= v <= 2147483647 then Some(v) else None
  {
    var t := sign + digits + rest;
    SpacesSkipped(spaces, sign, digits, rest);
    assert spaces + sign + digits + rest == spaces + t && (spaces + t)[|spaces|..] == t;
    SignedReads(sign, digits, rest);
    hide Signed, SpaceRun, SignedValue;
  }

  lemma {:induction false} MinusIs(sign: string, digits: string, rest: string)
    requires Parts("", sign, digits, rest)
    ensures var t := sign + digits + rest; t != "" && t[0] == '-' <==> sign == "-"
  {
    if sign == "" && digits != "" { DigitSpelled(digits[0]); }
  }

  lemma {:induction false} SignRead(sign: string, digits: string, rest: string)
    requires Parts("", sign, digits, rest)
    ensures SignLength(sign + digits + rest) == |sign|
  {
    if sign == "" && digits != "" { DigitSpelled(digits[0]); }
  }

  lemma {:induction false} SpaceRunUnique(spaces: string, rest: string)
    requires forall c | c in spaces :: c in WHITE_SPACE
    requires rest != "" ==> rest[0] !in WHITE_SPACE
    ensures SpaceRun(spaces + rest) == |spaces|
  {
    var s := spaces + rest;
    if spaces == "" {
      assert s == rest;
      if rest != "" { SpaceSpelled(rest[0]); }
    } else {
      SpaceSpelled(spaces[0]);
      assert s[0] == spaces[0] && s[1..] == spaces[1..] + rest;
      SpaceRunUnique(spaces[1..], rest);
    }
  }

  lemma {:induction false} SpacesSkipped(spaces: string, sign: string, digits: string, rest: string)
    requires Parts(spaces, sign, digits, rest)
    ensures SpaceRun(spaces + (sign + digits + rest)) == |spaces|
  {
    var t := sign + digits + rest;
    if sign == "" && digits != "" { SpaceIsNoDigit(digits[0]); }
    assert t != "" ==> t[0] == if sign != "" then sign[0] else if digits != "" then digits[0] else rest[0];
    assert '+' !in WHITE_SPACE && '-' !in WHITE_SPACE;
    SpaceRunUnique(spaces, t);
  }

  lemma {:induction false} SpaceIsNoDigit(c: char)
    requires c in DIGITS
    ensures c !in WHITE_SPACE
  {
    DigitSpelled(c);
    SpaceSpelled(c);
  }

  /** Every text has such parts. */
  lemma {:induction false} AnyParts(s: string) returns (spaces: string, sign: string, digits: string, rest: string)
    ensures s == spaces + sign + digits + rest && Parts(spaces, sign, digits, rest)
  {
    spaces := s[..SpaceRun(s)];
    var t := s[SpaceRun(s)..];
    forall c | c in spaces ensures c in WHITE_SPACE { SpaceSpelled(c); }
    if t != "" { SpaceSpelled(t[0]); }
    hide SpaceRun, IsSpace;
    sign, digits, rest := SignAndDigits(t);
    assert s == spaces + t;
  }

  lemma {:induction false} SignAndDigits(t: string) returns (sign: string, digits: string, rest: string)
    requires t != "" ==> t[0] !in WHITE_SPACE
    ensures t == sign + digits + rest && Parts("", sign, digits, rest)
  {
    sign := t[..SignLength(t)];
    var u := t[SignLength(t)..];
    digits, rest := u[..DigitRun(u)], u[DigitRun(u)..];
    assert u == digits + rest;
    DigitsSpelled(digits);
    if rest != "" { DigitSpelled(rest[0]); }
    hide DigitRun, IsDigit, AllDigits, SignLength;
    assert t == sign + u;
    assert sign == "" || sign == [t[0]];
  }
}
