/** JavaScript's global `parseInt(text)` without a radix, which `.del` applies
    to the operator's reply, and the decimal rendering `${pic}` that `.list`
    shows. NaN is `None`. */
module JsParseInt {
  import opened Optional

  /** The characters `parseInt` skips before the number: ECMAScript's
      WhiteSpace and LineTerminator. */
  predicate IsSpace(c: char)
  {
    c == ' ' || c == '\t' || c == '\n' || c == '\r' || c == '\U{000B}' || c == '\U{000C}'
    || c == '\U{00A0}' || c == '\U{1680}' || ('\U{2000}' <= c <= '\U{200A}')
    || c == '\U{2028}' || c == '\U{2029}' || c == '\U{202F}' || c == '\U{205F}'
    || c == '\U{3000}' || c == '\U{FEFF}'
  }

  /** The value of `c` as a digit in base `radix`, if it is one. */
  function DigitIn(c: char, radix: nat): (d: Option<nat>)
    ensures d.Some? ==> d.value < radix
  {
    var v := if '0' <= c <= '9' then c as int - '0' as int
             else if 'a' <= c <= 'z' then c as int - 'a' as int + 10
             else if 'A' <= c <= 'Z' then c as int - 'A' as int + 10
             else 36;
    if v < radix then Some(v) else None
  }

  /** `text` without its leading white space. */
  function SkipSpace(text: string): (r: string)
    ensures |r| <= |text| && r == text[|text| - |r|..]
    ensures r == [] || !IsSpace(r[0])
    ensures forall k :: 0 <= k < |text| - |r| ==> IsSpace(text[k])
  {
    if text != [] && IsSpace(text[0]) then SkipSpace(text[1..]) else text
  }

  /** Length of the longest prefix of `s` made of base-`radix` digits. */
  function DigitRun(s: string, radix: nat): (n: nat)
    ensures n <= |s|
    ensures forall k :: 0 <= k < n ==> DigitIn(s[k], radix).Some?
    ensures n < |s| ==> DigitIn(s[n], radix).None?
  {
    if s == [] || DigitIn(s[0], radix).None? then 0 else 1 + DigitRun(s[1..], radix)
  }

  lemma NatProduct(a: nat, b: nat)
    ensures a * b >= 0
  {
  }

  /** The number written by `digits` in base `radix`, most significant first. */
  function ValueOf(digits: string, radix: nat): nat
    requires forall k :: 0 <= k < |digits| ==> DigitIn(digits[k], radix).Some?
  {
    if digits == [] then 0
    else
      var high := ValueOf(digits[..|digits| - 1], radix);
      NatProduct(high, radix);
      high * radix + DigitIn(digits[|digits| - 1], radix).value
  }

  /** The digits after the sign: base 16 after `0x`/`0X`, base 10 otherwise,
      as many as there are; none at all is NaN. */
  function ParseMagnitude(u: string): (n: Option<nat>)
    ensures n.Some? ==> exists k :: 0 <= k < |u| && DigitIn(u[k], 10).Some?
  {
    var hex := |u| >= 2 && u[0] == '0' && (u[1] == 'x' || u[1] == 'X');
    var radix := if hex then 16 else 10;
    var body := if hex then u[2..] else u;
    var k := DigitRun(body, radix);
    if k == 0 then None
    else
      assert if hex then DigitIn(u[0], 10).Some? else DigitIn(body[0], 10).Some? && u[0] == body[0];
      Some(ValueOf(body[..k], radix))
  }

  /** An optional sign, then the magnitude. */
  function ParseSigned(t: string): (n: Option<int>)
    ensures (forall k :: 0 <= k < |t| ==> DigitIn(t[k], 10).None?) ==> n == None
  {
    var signed := |t| > 0 && (t[0] == '-' || t[0] == '+');
    var u := if signed then t[1..] else t;
    match ParseMagnitude(u)
    case None => None
    case Some(v) =>
      var magnitude: int := v;
      Some(if signed && t[0] == '-' then -magnitude else magnitude)
  }

  /** `parseInt(text)`: skip white space, read an optional sign, then the
      magnitude. An empty text is NaN; the lemmas below say the rest. */
  function ParseInt(text: string): (n: Option<int>)
    ensures text == [] ==> n == None
  {
    ParseSigned(SkipSpace(text))
  }

  function DigitChar(d: nat): (c: char)
    requires d < 10
    ensures DigitIn(c, 10) == Some(d)
  {
    ('0' as int + d) as char
  }

  /** `${n}` for a natural number: its decimal digits, most significant first. */
  function Decimal(n: nat): (s: string)
    ensures |s| >= 1
    ensures forall k :: 0 <= k < |s| ==> DigitIn(s[k], 10).Some?
    ensures |s| > 1 ==> s[0] != '0'
  {
    if n < 10 then [DigitChar(n)] else Decimal(n / 10) + [DigitChar(n % 10)]
  }

  lemma {:induction false} DecimalValue(n: nat)
    ensures ValueOf(Decimal(n), 10) == n
  {
    var s := Decimal(n);
    if n >= 10 {
      assert s[..|s| - 1] == Decimal(n / 10);
      DecimalValue(n / 10);
    } else {
      assert s[..|s| - 1] == [];
    }
  }

  lemma {:induction false} DigitRunOfDigits(s: string, rest: string, radix: nat)
    requires forall k :: 0 <= k < |s| ==> DigitIn(s[k], radix).Some?
    requires rest == [] || DigitIn(rest[0], radix).None?
    ensures DigitRun(s + rest, radix) == |s|
  {
    if s != [] {
      assert (s + rest)[1..] == s[1..] + rest;
      DigitRunOfDigits(s[1..], rest, radix);
    } else {
      assert s + rest == rest;
    }
  }

  lemma DecimalMagnitude(n: nat, rest: string)
    requires rest == [] || DigitIn(rest[0], 36).None?
    ensures ParseMagnitude(Decimal(n) + rest) == Some(n)
  {
    var s := Decimal(n);
    var u := s + rest;
    assert !(|u| >= 2 && u[0] == '0' && (u[1] == 'x' || u[1] == 'X')) by {
      if |s| >= 2 {
        assert u[0] == s[0] && u[1] == s[1];
      } else if |u| >= 2 {
        assert u[1] == rest[0];
      }
    }
    assert rest == [] || DigitIn(rest[0], 10).None?;
    DigitRunOfDigits(s, rest, 10);
    assert u[..|s|] == s;
    DecimalValue(n);
  }

  /** Text that starts with a decimal digit has no white space or sign to
      skip: `parseInt` reads its magnitude directly. */
  lemma StartsWithDigit(text: string)
    requires text != [] && '0' <= text[0] <= '9'
    ensures ParseInt(text).None? <==> ParseMagnitude(text).None?
    ensures ParseMagnitude(text).Some? ==> ParseInt(text) == Some(ParseMagnitude(text).value as int)
  {
    assert !IsSpace(text[0]);
    assert SkipSpace(text) == text;
  }

  /** The number `.list` prints for a rule, typed back as `.del`'s reply (with
      anything after it that is not a letter or digit), parses to that number. */
  lemma DecimalRoundTrip(n: nat, rest: string)
    requires rest == [] || DigitIn(rest[0], 36).None?
    ensures ParseInt(Decimal(n) + rest) == Some(n)
  {
    var text := Decimal(n) + rest;
    assert text[0] == Decimal(n)[0];
    StartsWithDigit(text);
    DecimalMagnitude(n, rest);
  }

  /** `parseInt(`${n}`)` is `n`. */
  lemma DecimalParses(n: nat)
    ensures ParseInt(Decimal(n)) == Some(n)
  {
    DecimalRoundTrip(n, "");
    assert Decimal(n) + "" == Decimal(n);
  }

  /** White space skipped by `SkipSpace` before any text leaves the rest
      as it was. */
  lemma {:induction false} SkipLeadingSpace(space: string, text: string)
    requires forall k :: 0 <= k < |space| ==> IsSpace(space[k])
    ensures SkipSpace(space + text) == SkipSpace(text)
  {
    if space != [] {
      assert (space + text)[0] == space[0];
      assert (space + text)[1..] == space[1..] + text;
      SkipLeadingSpace(space[1..], text);
    } else {
      assert space + text == text;
    }
  }

  /** White space typed before the number does not change what `.del` reads. */
  lemma LeadingSpaceIgnored(space: string, text: string)
    requires forall k :: 0 <= k < |space| ==> IsSpace(space[k])
    ensures ParseInt(space + text) == ParseInt(text)
  {
    SkipLeadingSpace(space, text);
  }

  /** A reply with no decimal digit at all (`abc`, `delete`) is NaN: a
      hexadecimal number needs the `0` of its `0x` prefix. */
  lemma NoDigitIsNaN(text: string)
    requires forall k :: 0 <= k < |text| ==> DigitIn(text[k], 10).None?
    ensures ParseInt(text) == None
  {
  }
}
