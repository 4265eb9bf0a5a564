/**
  Decimal text of integers: the parse std::stoi and std::stoll perform
  (strtol / strtoll in base 10 followed by a range check) and the text
  std::to_string produces.
 */
module Decimal {
  import opened Wrappers
  import opened Binary
  import opened Seqs

  /** The characters isspace accepts in the C locale: space, \t, \n, \v, \f, \r. */
  predicate IsSpace(c: char)
  {
    c == ' ' || '\t' <= c <= '\r'
  }

  predicate IsDigit(c: char)
  {
    '0' <= c <= '9'
  }

  predicate AllDigits(s: string)
  {
    forall i :: 0 <= i < |s| ==> IsDigit(s[i])
  }

  /** The length of the run of white space that s starts with. */
  function SpaceRun(s: string): (k: nat)
    ensures k <= |s|
    ensures forall i :: 0 <= i < k ==> IsSpace(s[i])
    ensures k < |s| ==> !IsSpace(s[k])
  {
    if s != [] && IsSpace(s[0]) then 1 + SpaceRun(s[1..]) else 0
  }

  /** The length of the run of decimal digits that s starts with. */
  function DigitRun(s: string): (k: nat)
    ensures k <= |s|
    ensures AllDigits(s[..k])
    ensures k < |s| ==> !IsDigit(s[k])
  {
    if s != [] && IsDigit(s[0]) then
      var k := 1 + DigitRun(s[1..]);
      assert s[..k] == [s[0]] + s[1..][..k - 1];
      k
    else 0
  }

  /** The value of one decimal digit. */
  function DigitValue(c: char): nat
    requires IsDigit(c)
  {
    c as int - '0' as int
  }

  /** The number a string of decimal digits denotes, most significant digit first. */
  function DigitsValue(ds: string): nat
    requires AllDigits(ds)
  {
    if ds == [] then 0 else DigitsValue(ds[..|ds| - 1]) * 10 + DigitValue(ds[|ds| - 1])
  }

  /**
    What strtol and strtoll compute in base 10 before their range check:
    leading white space is skipped, one optional sign is taken, then the
    longest run of digits; whatever follows is ignored.  None when there is
    no digit at that point (std::stoi and std::stoll then throw
    invalid_argument).
   */
  function ParseInteger(s: string): Option<int>
  {
    ParseSigned(s[SpaceRun(s)..])
  }

  /** The parse after the white space: an optional sign, then digits. */
  function ParseSigned(rest: string): Option<int>
  {
    if |rest| > 0 && rest[0] == '-' then
      match ParseDigits(rest[1..])
      case None => None
      case Some(d) => Some(0 - d as int)
    else if |rest| > 0 && rest[0] == '+' then ParseDigits(rest[1..])
    else ParseDigits(rest)
  }

  /** The value of the run of digits s starts with; None when there is none. */
  function ParseDigits(body: string): Option<nat>
  {
    var k := DigitRun(body);
    if k == 0 then None else Some(DigitsValue(body[..k]))
  }

  /** std::stoi: the parse, or None (an exception) when it fails or leaves the int range. */
  function StoI(s: string): (r: Option<int32>)
    ensures r.Some? <==> ParseInteger(s).Some? && -0x8000_0000 <= ParseInteger(s).value < 0x8000_0000
    ensures r.Some? ==> r.value == ParseInteger(s).value
  {
    match ParseInteger(s)
    case Some(v) => if -0x8000_0000 <= v < 0x8000_0000 then Some(v) else None
    case None => None
  }

  /** std::stoll: the parse, or None (an exception) when it fails or leaves the long long range. */
  function StoLL(s: string): (r: Option<int64>)
    ensures r.Some? <==> ParseInteger(s).Some? && -0x8000_0000_0000_0000 <= ParseInteger(s).value < 0x8000_0000_0000_0000
    ensures r.Some? ==> r.value == ParseInteger(s).value
  {
    match ParseInteger(s)
    case Some(v) => if -0x8000_0000_0000_0000 <= v < 0x8000_0000_0000_0000 then Some(v) else None
    case None => None
  }

  // ------------------------------------------------------------ integer text

  predicate AllSpace(sp: string)
  {
    forall i :: 0 <= i < |sp| ==> IsSpace(sp[i])
  }

  /**
    s is text strtol reads as v in base 10: white space sp, an optional
    sign, a non-empty run of digits ds, then a tail that does not start with
    a digit.
   */
  predicate IntegerText(s: string, v: int, sp: string, sign: string, ds: string, tail: string)
  {
    && s == sp + (sign + (ds + tail))
    && AllSpace(sp)
    && Sign(sign)
    && ds != [] && AllDigits(ds)
    && (tail == [] || !IsDigit(tail[0]))
    && v == if Minus(sign) then 0 - DigitsValue(ds) as int else DigitsValue(ds) as int
  }

  /** No sign, or one '-' or '+'. */
  predicate Sign(sign: string)
  {
    |sign| == 0 || (|sign| == 1 && (sign[0] == '-' || sign[0] == '+'))
  }

  predicate Minus(sign: string)
  {
    |sign| == 1 && sign[0] == '-'
  }

  /** White space followed by a non-space is skipped exactly. */
  lemma {:induction false} SpaceRunOfSpaces(sp: string, rest: string)
    requires AllSpace(sp)
    requires rest == [] || !IsSpace(rest[0])
    ensures SpaceRun(sp + rest) == |sp|
  {
    if sp != [] {
      assert (sp + rest)[0] == sp[0] && (sp + rest)[1..] == sp[1..] + rest;
      SpaceRunOfSpaces(sp[1..], rest);
    } else {
      assert sp + rest == rest;
    }
  }

  /** Integer text parses to its value. */
  lemma ParseIntegerOfText(s: string, v: int, sp: string, sign: string, ds: string, tail: string)
    requires IntegerText(s, v, sp, sign, ds, tail)
    ensures ParseInteger(s) == Some(v)
  {
    var rest := sign + (ds + tail);
    ParseSignedOf(sign, ds, tail);
    assert ParseSigned(rest) == Some(v);
    SkipSpaces(s, sp, rest);
  }

  /** After white space that ends at a non-space, the parse starts at the rest. */
  lemma SkipSpaces(s: string, sp: string, rest: string)
    requires s == sp + rest && AllSpace(sp)
    requires rest == [] || !IsSpace(rest[0])
    ensures ParseInteger(s) == ParseSigned(rest)
  {
    SpaceRunOfSpaces(sp, rest);
    assert s[|sp|..] == rest;
  }

  /** An optional sign and digits, then a non-digit, parse to the signed value of the digits. */
  lemma ParseSignedOf(sign: string, ds: string, tail: string)
    requires Sign(sign)
    requires ds != [] && AllDigits(ds)
    requires tail == [] || !IsDigit(tail[0])
    ensures var rest := sign + (ds + tail);
      && rest != [] && !IsSpace(rest[0])
      && ParseSigned(rest) == Some(if Minus(sign) then 0 - DigitsValue(ds) as int else DigitsValue(ds) as int)
  {
    var body := ds + tail;
    var rest := sign + body;
    var d := DigitsValue(ds);
    ParseDigitsOf(ds, tail);
    assert ParseDigits(body) == Some(d);
    if |sign| == 0 {
      assert rest == body && rest[0] == ds[0];
      assert ParseSigned(rest) == ParseDigits(body);
    } else {
      assert rest[0] == sign[0] && rest[1..] == body;
      if sign[0] == '-' {
        assert ParseSigned(rest) == Some(0 - d as int);
      } else {
        assert ParseSigned(rest) == ParseDigits(body);
      }
    }
  }

  /** Whatever ParseInteger accepts is integer text for the value it gives. */
  lemma ParseIntegerText(s: string)
    requires ParseInteger(s).Some?
    ensures exists sp, sign, ds, tail :: IntegerText(s, ParseInteger(s).value, sp, sign, ds, tail)
  {
    var k := SpaceRun(s);
    var sp, rest := s[..k], s[k..];
    assert s == sp + rest;
    var sign, ds, tail := SignedParts(rest);
    assert IntegerText(s, ParseInteger(s).value, sp, sign, ds, tail);
  }

  /** The sign, digits and tail of text ParseSigned accepts. */
  lemma SignedParts(rest: string) returns (sign: string, ds: string, tail: string)
    requires ParseSigned(rest).Some?
    ensures rest == sign + (ds + tail)
    ensures Sign(sign)
    ensures ds != [] && AllDigits(ds)
    ensures tail == [] || !IsDigit(tail[0])
    ensures ParseSigned(rest).value == if Minus(sign) then 0 - DigitsValue(ds) as int else DigitsValue(ds) as int
  {
    var body;
    if rest[0] == '-' || rest[0] == '+' {
      sign, body := [rest[0]], rest[1..];
      assert rest == sign + body;
    } else {
      sign, body := "", rest;
      assert rest == sign + body;
    }
    var d := DigitRun(body);
    ds, tail := body[..d], body[d..];
    assert body == ds + tail;
  }

  /** std::stoi accepts integer text exactly when its value fits int32. */
  lemma StoIOfText(s: string, v: int, sp: string, sign: string, ds: string, tail: string)
    requires IntegerText(s, v, sp, sign, ds, tail)
    ensures StoI(s) == if -0x8000_0000 <= v < 0x8000_0000 then Some(v) else None
  {
    ParseIntegerOfText(s, v, sp, sign, ds, tail);
  }

  /** Whatever std::stoi accepts is integer text for the value it gives. */
  lemma StoIText(s: string)
    requires StoI(s).Some?
    ensures exists sp, sign, ds, tail :: IntegerText(s, StoI(s).value, sp, sign, ds, tail)
  {
    ParseIntegerText(s);
  }

  /** std::stoll accepts integer text exactly when its value fits int64. */
  lemma StoLLOfText(s: string, v: int, sp: string, sign: string, ds: string, tail: string)
    requires IntegerText(s, v, sp, sign, ds, tail)
    ensures StoLL(s) == if -0x8000_0000_0000_0000 <= v < 0x8000_0000_0000_0000 then Some(v) else None
  {
    ParseIntegerOfText(s, v, sp, sign, ds, tail);
  }

  /** Whatever std::stoll accepts is integer text for the value it gives. */
  lemma StoLLText(s: string)
    requires StoLL(s).Some?
    ensures exists sp, sign, ds, tail :: IntegerText(s, StoLL(s).value, sp, sign, ds, tail)
  {
    ParseIntegerText(s);
  }

  // ------------------------------------------------------------ to_string

  /** The digit character for d. */
  function DigitChar(d: nat): (c: cchar)
    requires d < 10
    ensures IsDigit(c) && DigitValue(c) == d
  {
    ('0' as int + d) as char
  }

  /** The decimal digits of n without leading zeros. */
  function NatDigits(n: nat): (r: cstring)
    ensures |r| >= 1 && AllDigits(r)
  {
    if n < 10 then [DigitChar(n)] else NatDigits(n / 10) + [DigitChar(n % 10)]
  }

  /** std::to_string of an integer: a minus sign for negatives, then the digits. */
  function DecimalString(v: int): cstring
  {
    if v < 0 then "-" + NatDigits(-v) else NatDigits(v)
  }

  lemma {:induction false} DigitsValueOfNatDigits(n: nat)
    ensures DigitsValue(NatDigits(n)) == n
  {
    if n >= 10 {
      var ds := NatDigits(n);
      assert ds[..|ds| - 1] == NatDigits(n / 10);
      DigitsValueOfNatDigits(n / 10);
    }
  }

  /** A run of digits followed by a non-digit (or nothing) is exactly the digit run. */
  lemma {:induction false} DigitRunOfDigits(ds: string, tail: string)
    requires AllDigits(ds)
    requires tail == [] || !IsDigit(tail[0])
    ensures DigitRun(ds + tail) == |ds|
  {
    if ds != [] {
      assert (ds + tail)[1..] == ds[1..] + tail;
      DigitRunOfDigits(ds[1..], tail);
    } else {
      assert ds + tail == tail;
    }
  }

  /**
    The text to_string gives for an integer parses back to that integer,
    and the parse stops where the digits stop.
   */
  lemma ParseDecimalString(v: int, tail: string)
    requires tail == [] || !IsDigit(tail[0])
    ensures ParseInteger(DecimalString(v) + tail) == Some(v)
  {
    if v < 0 {
      var ds := NatDigits(-v);
      DigitsValueOfNatDigits(-v);
      ParseNegative(ds, tail);
      assert DecimalString(v) == "-" + ds;
      ConcatRegroup("-", ds, tail);
    } else {
      DigitsValueOfNatDigits(v);
      ParseUnsigned(NatDigits(v), tail);
    }
  }

  /** std::stoi of to_string's text, whatever non-digit text follows, is the value when it fits int32. */
  lemma StoIOfDecimal(v: int, tail: string)
    requires tail == [] || !IsDigit(tail[0])
    ensures StoI(DecimalString(v) + tail) == if -0x8000_0000 <= v < 0x8000_0000 then Some(v) else None
  {
    ParseDecimalString(v, tail);
  }

  /** std::stoll of to_string's text, whatever non-digit text follows, is the value when it fits int64. */
  lemma StoLLOfDecimal(v: int, tail: string)
    requires tail == [] || !IsDigit(tail[0])
    ensures StoLL(DecimalString(v) + tail) ==
      if -0x8000_0000_0000_0000 <= v < 0x8000_0000_0000_0000 then Some(v) else None
  {
    ParseDecimalString(v, tail);
  }

  /** Digits followed by a non-digit parse to the value of the digits. */
  lemma ParseDigitsOf(ds: string, tail: string)
    requires ds != [] && AllDigits(ds)
    requires tail == [] || !IsDigit(tail[0])
    ensures ParseDigits(ds + tail) == Some(DigitsValue(ds))
  {
    DigitRunOfDigits(ds, tail);
    assert (ds + tail)[..|ds|] == ds;
  }

  /** Digits with no sign parse to their value. */
  lemma ParseUnsigned(ds: string, tail: string)
    requires ds != [] && AllDigits(ds)
    requires tail == [] || !IsDigit(tail[0])
    ensures ParseInteger(ds + tail) == Some(DigitsValue(ds))
  {
    var s := ds + tail;
    assert s[0] == ds[0];
    assert SpaceRun(s) == 0;
    assert s[0..] == s;
    ParseDigitsOf(ds, tail);
  }

  /** A minus sign and digits parse to the negated value. */
  lemma ParseNegative(ds: string, tail: string)
    requires ds != [] && AllDigits(ds)
    requires tail == [] || !IsDigit(tail[0])
    ensures ParseInteger("-" + (ds + tail)) == Some(0 - DigitsValue(ds) as int)
  {
    var s := "-" + (ds + tail);
    assert s[0] == '-' && s[1..] == ds + tail;
    assert SpaceRun(s) == 0;
    assert s[0..] == s;
    ParseDigitsOf(ds, tail);
  }
}
