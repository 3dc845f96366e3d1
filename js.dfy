/**
 * The few JavaScript semantics the request handlers depend on: the values a decoded JSON body
 * can hold, truthiness (`!x`, `x || y`), `parseInt` with no radix, and number-to-string
 * conversion of non-negative integers (`'Team ' + (i + 1)`).
 */
module Js {
  import opened Wrappers

  /**
   * A field read from a decoded JSON body. `Undefined` is a field the body does not have;
   * `Object` stands for any array or object. JSON numbers are modelled as integers.
   */
  datatype Value = Undefined | Null | Bool(b: bool) | Num(n: int) | Str(s: string) | Object

  /** JavaScript truthiness: `undefined`, `null`, `false`, `0` and `""` are falsy. */
  predicate Truthy(v: Value)
  {
    match v
    case Undefined => false
    case Null => false
    case Bool(b) => b
    case Num(n) => n != 0
    case Str(s) => s != ""
    case Object => true
  }

  /** JavaScript `a || b`: the left operand when it is truthy, otherwise the right one. */
  function Or(a: Value, b: Value): Value
  {
    if Truthy(a) then a else b
  }

  /** Truthiness of a `string | null`, as returned by `headers.get` and `searchParams.get`. */
  predicate PresentText(o: Option<string>)
  {
    o.Some? && o.value != ""
  }

  /** The white-space and line-terminator characters that `parseInt` skips at the start. */
  predicate IsWhiteSpace(c: char)
  {
    || c == '\t' || c == '\n' || c == '\U{B}' || c == '\U{C}' || c == '\r' || c == ' '
    || c == '\U{A0}' || c == '\U{1680}' || ('\U{2000}' <= c <= '\U{200A}')
    || c == '\U{2028}' || c == '\U{2029}' || c == '\U{202F}' || c == '\U{205F}'
    || c == '\U{3000}' || c == '\U{FEFF}'
  }

  /** `trimStart`: the longest suffix that does not start with white space. */
  function TrimStart(s: string): (r: string)
    ensures |r| <= |s| && r == s[|s| - |r|..]
    ensures forall i :: 0 <= i < |s| - |r| ==> IsWhiteSpace(s[i])
    ensures r != [] ==> !IsWhiteSpace(r[0])
  {
    if s != [] && IsWhiteSpace(s[0]) then TrimStart(s[1..]) else s
  }

  /** The value of a digit character in radix 36; 36 for a character that is no digit at all. */
  function DigitValue(c: char): nat
  {
    if '0' <= c <= '9' then (c as int) - ('0' as int)
    else if 'a' <= c <= 'z' then (c as int) - ('a' as int) + 10
    else if 'A' <= c <= 'Z' then (c as int) - ('A' as int) + 10
    else 36
  }

  /** The length of the longest prefix of `s` made of digits of the given radix. */
  function DigitRun(s: string, radix: nat): (k: nat)
    ensures k <= |s|
    ensures forall i :: 0 <= i < k ==> DigitValue(s[i]) < radix
    ensures k < |s| ==> DigitValue(s[k]) >= radix
  {
    if s != [] && DigitValue(s[0]) < radix then 1 + DigitRun(s[1..], radix) else 0
  }

  /** The number a digit string denotes in the given radix, most significant digit first. */
  function DigitsValue(d: string, radix: nat): nat
  {
    if d == [] then 0 else DigitsValue(d[..|d| - 1], radix) * radix + DigitValue(d[|d| - 1])
  }

  /**
   * `parseInt(s)` with no radix argument: leading white space is skipped, one sign is read,
   * and the rest is read by `ParseMagnitude`; `None` is `NaN`.
   */
  function ParseInt(s: string): (r: Option<int>)
    ensures TrimStart(s) == [] ==> r.None?
    ensures r.Some? && TrimStart(s)[0] == '-' ==> r.value <= 0
    ensures r.Some? && TrimStart(s)[0] != '-' ==> r.value >= 0
    ensures var t := TrimStart(s); t != [] && '1' <= t[0] <= '9' ==> r.Some?
  {
    var t := TrimStart(s);
    if t != [] && t[0] == '-' then
      match ParseMagnitude(t[1..])
      case None => None
      case Some(m) => Some(-(m as int))
    else if t != [] && t[0] == '+' then
      match ParseMagnitude(t[1..])
      case None => None
      case Some(m) => Some(m)
    else
      match ParseMagnitude(t)
      case None => None
      case Some(m) => Some(m)
  }

  /**
   * The unsigned part of `parseInt`: a `0x`/`0X` prefix selects radix 16, otherwise radix 10,
   * and the longest run of digits that follows is converted; `None` when that run is empty.
   */
  function ParseMagnitude(u: string): (r: Option<nat>)
  {
    var hex := |u| >= 2 && u[0] == '0' && (u[1] == 'x' || u[1] == 'X');
    var radix := if hex then 16 else 10;
    var w := if hex then u[2..] else u;
    var k := DigitRun(w, radix);
    if k == 0 then None else Some(DigitsValue(w[..k], radix))
  }

  function DecimalDigit(d: nat): (c: char)
    requires d < 10
  {
    ((d + ('0' as int)) as char)
  }

  /** `String(n)` for a non-negative integer: its decimal digits with no leading zero. */
  function NatToString(n: nat): (r: string)
    ensures r != []
    ensures forall i :: 0 <= i < |r| ==> '0' <= r[i] <= '9'
    ensures r[0] == '0' ==> n == 0 && r == "0"
  {
    if n < 10 then [DecimalDigit(n)] else NatToString(n / 10) + [DecimalDigit(n % 10)]
  }

  lemma {:induction false} DigitRunOfDigits(s: string)
    requires forall i :: 0 <= i < |s| ==> '0' <= s[i] <= '9'
    ensures DigitRun(s, 10) == |s|
  {
    if s != [] {
      DigitRunOfDigits(s[1..]);
    }
  }

  lemma {:induction false} DigitsValueOfNatToString(n: nat)
    ensures DigitsValue(NatToString(n), 10) == n
  {
    var r := NatToString(n);
    if n < 10 {
      assert r[..0] == [];
    } else {
      var p := NatToString(n / 10);
      assert r[..|r| - 1] == p;
      DigitsValueOfNatToString(n / 10);
    }
  }

  lemma MagnitudeOfNatToString(n: nat, rest: string)
    requires rest == [] || !('0' <= rest[0] <= '9' || rest[0] == 'x' || rest[0] == 'X')
    ensures ParseMagnitude(NatToString(n) + rest) == Some(n)
  {
    var r := NatToString(n);
    var s := r + rest;
    assert s[0] == r[0];
    assert !(|s| >= 2 && s[0] == '0' && (s[1] == 'x' || s[1] == 'X')) by {
      if |s| >= 2 && s[0] == '0' {
        assert r == "0";
        assert s[1] == rest[0];
      }
    }
    DigitRunPrefix(r, rest);
    assert s[..|r|] == r;
    DigitsValueOfNatToString(n);
  }

  /** `parseInt(String(n)) == n`: the decimal string of a non-negative integer reads back as it. */
  lemma NatToStringRoundTrip(n: nat)
    ensures ParseInt(NatToString(n)) == Some(n)
  {
    ParseIntStopsAtNonDigit(n, "");
    assert NatToString(n) + "" == NatToString(n);
  }

  /** `parseInt('-' + String(n)) == -n`. */
  lemma NegativeRoundTrip(n: nat)
    ensures ParseInt("-" + NatToString(n)) == Some(-(n as int))
  {
    var r := NatToString(n);
    ParseNegative(r);
    MagnitudeOfNatToString(n, "");
    assert r + "" == r;
  }

  /** A leading minus sign negates what the rest reads as. */
  lemma ParseNegative(u: string)
    ensures ParseInt("-" + u) == match ParseMagnitude(u) case None => None case Some(m) => Some(-(m as int))
  {
    var s := "-" + u;
    TrimStartKeeps(s);
    assert s[1..] == u;
  }

  lemma TrimStartKeeps(s: string)
    requires s != [] && !IsWhiteSpace(s[0])
    ensures TrimStart(s) == s
  {
  }

  /** Distinct non-negative integers print differently, so "Team 1" .. "Team N" are distinct names. */
  lemma NatToStringInjective(a: nat, b: nat)
    ensures NatToString(a) == NatToString(b) ==> a == b
  {
    NatToStringRoundTrip(a);
    NatToStringRoundTrip(b);
  }

  /** A string whose first non-blank character is no sign and no digit is `NaN`. */
  lemma ParseIntNoDigits(s: string)
    requires TrimStart(s) != []
    requires var c := TrimStart(s)[0]; c != '-' && c != '+' && !('0' <= c <= '9')
    ensures ParseInt(s) == None
  {
  }

  /**
   * Characters after the digit run are ignored: `parseInt("12abc") == 12`. (A rest starting
   * with `x` is excluded because `"0x..."` is read in radix 16.)
   */
  lemma ParseIntStopsAtNonDigit(n: nat, rest: string)
    requires rest == [] || !('0' <= rest[0] <= '9' || rest[0] == 'x' || rest[0] == 'X')
    ensures ParseInt(NatToString(n) + rest) == Some(n)
  {
    var s := NatToString(n) + rest;
    assert s[0] == NatToString(n)[0];
    assert '0' <= s[0] <= '9';
    assert !IsWhiteSpace(s[0]);
    assert TrimStart(s) == s;
    MagnitudeOfNatToString(n, rest);
  }

  lemma NonDigitValue(c: char)
    requires !('0' <= c <= '9')
    ensures DigitValue(c) >= 10
  {
  }

  lemma {:induction false} DigitRunPrefix(r: string, rest: string)
    requires forall i :: 0 <= i < |r| ==> '0' <= r[i] <= '9'
    requires rest == [] || !('0' <= rest[0] <= '9')
    ensures DigitRun(r + rest, 10) == |r|
  {
    if r == [] {
      assert r + rest == rest;
      if rest != [] {
        NonDigitValue(rest[0]);
      }
    } else {
      assert (r + rest)[1..] == r[1..] + rest;
      DigitRunPrefix(r[1..], rest);
    }
  }
}
