/**
 * The part of JavaScript's global `parseInt(string)` (no radix argument) that the
 * duration inputs rely on, over Unicode characters as `char`: skip leading white
 * space, read an optional sign, an optional `0x`/`0X` prefix, then the longest run
 * of digits of the radix. No digits gives `NaN` (here `None`); `-0` is `Some(0)`,
 * which is just as falsy as `+0` for the `||` that follows every call.
 */
module JsParse {
  import opened Common

  /** WhiteSpace and LineTerminator code points of ECMAScript (section 12.2 and 12.3 of ECMA-262). */
  predicate IsJsSpace(c: char)
  {
    var n := c as int;
    n == 0x09 || n == 0x0B || n == 0x0C || n == 0x20 || n == 0xA0 || n == 0xFEFF
    || n == 0x0A || n == 0x0D || n == 0x2028 || n == 0x2029
    || n == 0x1680 || (0x2000 <= n <= 0x200A) || n == 0x202F || n == 0x205F || n == 0x3000
  }

  predicate IsDigit(c: char, radix: int)
  {
    if radix == 16 then ('0' <= c <= '9') || ('a' <= c <= 'f') || ('A' <= c <= 'F')
    else '0' <= c <= '9'
  }

  function DigitValue(c: char): (d: nat)
    requires IsDigit(c, 16)
    ensures d < 16
    ensures '0' <= c <= '9' ==> d < 10
  {
    if '0' <= c <= '9' then c as int - '0' as int
    else if 'a' <= c <= 'f' then c as int - 'a' as int + 10
    else c as int - 'A' as int + 10
  }

  /** The input with its leading white space removed. */
  function TrimStart(s: string): (r: string)
    ensures |r| <= |s| && r == s[|s| - |r|..]
    ensures r == [] || !IsJsSpace(r[0])
    ensures forall i :: 0 <= i < |s| - |r| ==> IsJsSpace(s[i])
  {
    if s != [] && IsJsSpace(s[0]) then
      var r := TrimStart(s[1..]);
      SkipOneMore(s, r);
      r
    else s
  }

  /** One more leading space in front of a trimmed suffix. */
  lemma SkipOneMore(s: string, r: string)
    requires s != [] && IsJsSpace(s[0]) && |r| <= |s| - 1
    requires r == s[1..][|s| - 1 - |r|..]
    requires forall i :: 0 <= i < |s| - 1 - |r| ==> IsJsSpace(s[1..][i])
    ensures r == s[|s| - |r|..]
    ensures forall i :: 0 <= i < |s| - |r| ==> IsJsSpace(s[i])
  {
    forall i | 0 <= i < |s| - |r| ensures IsJsSpace(s[i]) {
      if i > 0 {
        assert s[i] == s[1..][i - 1];
      }
    }
  }

  /** The longest prefix made only of digits of the radix. */
  function LeadingDigits(s: string, radix: int): (ds: string)
    ensures |ds| <= |s| && ds == s[..|ds|]
    ensures forall i :: 0 <= i < |ds| ==> IsDigit(ds[i], radix)
    ensures |ds| < |s| ==> !IsDigit(s[|ds|], radix)
  {
    if s != [] && IsDigit(s[0], radix) then [s[0]] + LeadingDigits(s[1..], radix) else []
  }

  /** The number a digit string denotes in the radix, most significant digit first. */
  function DigitsValue(ds: string, radix: nat): nat
    requires forall i :: 0 <= i < |ds| ==> IsDigit(ds[i], 16)
  {
    if ds == [] then 0
    else DigitsValue(ds[..|ds| - 1], radix) * radix + DigitValue(ds[|ds| - 1])
  }

  /** `parseInt(s)`; `None` stands for `NaN`. */
  function ParseInt(s: string): (r: Option<int>)
    ensures TrimStart(s) == [] ==> r.None?
    ensures r.Some? && r.value < 0 ==> TrimStart(s) != [] && TrimStart(s)[0] == '-'
  {
    ParseSigned(TrimStart(s))
  }

  /** The sign step, on text that no longer starts with white space. */
  function ParseSigned(t: string): Option<int>
  {
    var negative := t != [] && t[0] == '-';
    var p := ParseUnsigned(if t != [] && (t[0] == '-' || t[0] == '+') then t[1..] else t);
    if p.None? then None
    else if negative then Some(-(p.value as int))
    else Some(p.value as int)
  }

  /** The radix step: a `0x` or `0X` prefix selects radix 16, otherwise radix 10. */
  function ParseUnsigned(u: string): Option<nat>
  {
    if |u| >= 2 && u[0] == '0' && (u[1] == 'x' || u[1] == 'X') then ParseDigits(u[2..], 16)
    else ParseDigits(u, 10)
  }

  /** The digit step: the longest run of digits, or `NaN` when there is none. */
  function ParseDigits(body: string, radix: nat): Option<nat>
  {
    var ds := LeadingDigits(body, radix);
    if ds == [] then None else Some(DigitsValue(ds, radix))
  }

  /** The decimal digits of a natural number, without leading zeros (`String(n)` for n >= 0). */
  function NatToDigits(n: nat): (ds: string)
    ensures ds != []
    ensures forall i :: 0 <= i < |ds| ==> '0' <= ds[i] <= '9'
    ensures |ds| > 1 ==> ds[0] != '0'
  {
    if n < 10 then [('0' as int + n) as char]
    else NatToDigits(n / 10) + [('0' as int + n % 10) as char]
  }

  /** `String(n)` for an integer `n`. */
  function IntToString(n: int): string
  {
    if n < 0 then "-" + NatToDigits(-n) else NatToDigits(n)
  }

  lemma {:induction false} DigitsValueOfNatToDigits(n: nat)
    ensures DigitsValue(NatToDigits(n), 10) == n
  {
    var ds := NatToDigits(n);
    if n >= 10 {
      assert ds[..|ds| - 1] == NatToDigits(n / 10);
      DigitsValueOfNatToDigits(n / 10);
    }
  }

  lemma {:induction false} LeadingDigitsOfDigits(ds: string, rest: string)
    requires forall i :: 0 <= i < |ds| ==> '0' <= ds[i] <= '9'
    requires rest == [] || !IsDigit(rest[0], 10)
    ensures LeadingDigits(ds + rest, 10) == ds
  {
    if ds != [] {
      assert (ds + rest)[1..] == ds[1..] + rest;
      LeadingDigitsOfDigits(ds[1..], rest);
    } else {
      assert ds + rest == rest;
    }
  }

  /**
   * Reading back the decimal text of an integer, possibly followed by a fraction,
   * an exponent or other text that does not start with a digit (a number input holds
   * text such as `37.5` or `1e3`), gives the integer; only `0` followed by `x` or `X`
   * reads as a hexadecimal prefix instead.
   */
  lemma ParseIntOfIntToString(n: int, rest: string)
    requires rest == [] || (!IsDigit(rest[0], 10) && (n != 0 || (rest[0] != 'x' && rest[0] != 'X')))
    ensures ParseInt(IntToString(n) + rest) == Some(n)
  {
    var m: nat := if n < 0 then -n else n;
    ParseUnsignedOfDigits(m, rest);
    if n < 0 {
      ParseNegative(m, rest);
    } else {
      ParseNonNegative(m, rest);
    }
  }

  lemma ParseNegative(m: nat, rest: string)
    requires ParseUnsigned(NatToDigits(m) + rest) == Some(m)
    ensures ParseInt("-" + NatToDigits(m) + rest) == Some(-(m as int))
  {
    var s := "-" + NatToDigits(m) + rest;
    assert s[0] == '-' && s[1..] == NatToDigits(m) + rest;
    assert TrimStart(s) == s;
  }

  lemma ParseNonNegative(m: nat, rest: string)
    requires ParseUnsigned(NatToDigits(m) + rest) == Some(m)
    ensures ParseInt(NatToDigits(m) + rest) == Some(m)
  {
    var s := NatToDigits(m) + rest;
    var c := s[0];
    assert c == NatToDigits(m)[0];
    assert '0' <= c <= '9';
    assert !IsJsSpace(c) && c != '-' && c != '+';
    assert TrimStart(s) == s;
    assert ParseSigned(s) == Some(m);
  }

  lemma ParseUnsignedOfDigits(m: nat, rest: string)
    requires rest == [] || (!IsDigit(rest[0], 10) && (m != 0 || (rest[0] != 'x' && rest[0] != 'X')))
    ensures ParseUnsigned(NatToDigits(m) + rest) == Some(m)
  {
    var ds := NatToDigits(m);
    var u := ds + rest;
    assert !(|u| >= 2 && u[0] == '0' && (u[1] == 'x' || u[1] == 'X')) by {
      if |u| >= 2 {
        if m == 0 { assert u[1] == rest[0]; }
        else if m < 10 { assert u[0] == ds[0] != '0'; }
        else { assert u[1] == ds[1]; }
      }
    }
    LeadingDigitsOfDigits(ds, rest);
    DigitsValueOfNatToDigits(m);
  }

  /** Leading white space is skipped. */
  lemma {:induction false} ParseIntSkipsSpace(ws: string, s: string)
    requires forall i :: 0 <= i < |ws| ==> IsJsSpace(ws[i])
    ensures ParseInt(ws + s) == ParseInt(s)
  {
    TrimStartSkipsSpace(ws, s);
  }

  lemma {:induction false} TrimStartSkipsSpace(ws: string, s: string)
    requires forall i :: 0 <= i < |ws| ==> IsJsSpace(ws[i])
    ensures TrimStart(ws + s) == TrimStart(s)
  {
    if ws != [] {
      assert (ws + s)[1..] == ws[1..] + s;
      TrimStartSkipsSpace(ws[1..], s);
    } else {
      assert ws + s == s;
    }
  }

  /** Text without a decimal digit, such as the empty input or `abc`, is `NaN`. */
  lemma ParseIntOfNonNumeric(s: string)
    requires forall i :: 0 <= i < |s| ==> !IsDigit(s[i], 10)
    ensures ParseInt(s) == None
  {
    var t := TrimStart(s);
    assert forall i :: 0 <= i < |t| ==> !IsDigit(t[i], 10) by {
      forall i | 0 <= i < |t| ensures !IsDigit(t[i], 10) { assert t[i] == s[|s| - |t| + i]; }
    }
    var u := if t != [] && (t[0] == '-' || t[0] == '+') then t[1..] else t;
    assert u == [] || !IsDigit(u[0], 10) by {
      if u != [] && t != [] && (t[0] == '-' || t[0] == '+') { assert u[0] == t[1]; }
    }
    assert ParseUnsigned(u) == None;
  }

  /** JavaScript's `x || fallback` on the number `x`: `NaN`, `0` and `-0` are falsy. */
  function OrElse(parsed: Option<int>, fallback: int): (v: int)
    ensures v == fallback || (parsed == Some(v) && v != 0)
    ensures parsed.Some? && parsed.value != 0 ==> v == parsed.value
    ensures !(parsed.Some? && parsed.value != 0) ==> v == fallback
  {
    if parsed.Some? && parsed.value != 0 then parsed.value else fallback
  }
}
