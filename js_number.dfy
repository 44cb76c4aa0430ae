/** `parseInt(text, 10)` and the decimal rendering of an integer that a JavaScript
    template literal performs. `NaN` is modelled as `None`. */
module JsNumber {
  import opened Wrappers

  /** The code points ECMAScript counts as white space or line terminators
      (productions WhiteSpace and LineTerminator), which `parseInt` skips first. */
  predicate IsStrWhiteSpace(c: char) {
    || c == '\t' || c == '\n' || c == '\U{000B}' || c == '\U{000C}' || c == '\r'
    || c == ' ' || c == '\U{00A0}' || c == '\U{1680}'
    || ('\U{2000}' <= c <= '\U{200A}')
    || c == '\U{2028}' || c == '\U{2029}' || c == '\U{202F}' || c == '\U{205F}'
    || c == '\U{3000}' || c == '\U{FEFF}'
  }

  predicate IsDigit(c: char) {
    '0' <= c <= '9'
  }

  function DigitValue(c: char): (d: nat)
    requires IsDigit(c)
    ensures d < 10
  {
    c as int - '0' as int
  }

  function DigitChar(d: nat): (c: char)
    requires d < 10
    ensures IsDigit(c) && DigitValue(c) == d
  {
    ('0' as int + d) as char
  }

  /** The text with its leading white space removed. */
  function TrimStart(s: string): (t: string)
    ensures |t| <= |s|
  {
    if s != [] && IsStrWhiteSpace(s[0]) then TrimStart(s[1..]) else s
  }

  /** `TrimStart` removes exactly the longest white-space prefix: what it keeps
      is a suffix of the text that does not start with white space, and all it
      drops is white space. */
  lemma {:induction false} TrimStartSkipsWhiteSpace(s: string)
    ensures var t := TrimStart(s);
      && t == s[|s| - |t|..]
      && (t != [] ==> !IsStrWhiteSpace(t[0]))
      && forall k :: 0 <= k < |s| - |t| ==> IsStrWhiteSpace(s[k])
  {
    if s != [] && IsStrWhiteSpace(s[0]) {
      var t := TrimStart(s[1..]);
      TrimStartSkipsWhiteSpace(s[1..]);
      assert TrimStart(s) == t;
      assert s[1..][|s| - 1 - |t|..] == s[|s| - |t|..];
      forall k | 1 <= k < |s| - |t|
        ensures IsStrWhiteSpace(s[k])
      {
        assert s[k] == s[1..][k - 1];
      }
    }
  }

  /** The longest prefix of decimal digits. */
  function LeadingDigits(s: string): (ds: string)
    ensures |ds| <= |s| && ds == s[..|ds|]
    ensures forall k :: 0 <= k < |ds| ==> IsDigit(ds[k])
    ensures |ds| < |s| ==> !IsDigit(s[|ds|])
  {
    if s != [] && IsDigit(s[0]) then [s[0]] + LeadingDigits(s[1..]) else []
  }

  /** The value of a string of decimal digits, most significant first. */
  function DecimalValue(ds: string): nat
    requires forall k :: 0 <= k < |ds| ==> IsDigit(ds[k])
  {
    if ds == [] then 0 else 10 * DecimalValue(ds[..|ds| - 1]) + DigitValue(ds[|ds| - 1])
  }

  /** `parseInt(s, 10)`: skip leading white space, read one optional sign, then
      as many decimal digits as follow; no digit at all gives `NaN` (`None`).
      Anything after the digits is ignored, so `"12ab"` gives 12. */
  function ParseInt(s: string): Option<int> {
    ParseTrimmed(TrimStart(s))
  }

  /** `parseInt` once the leading white space is gone. */
  function ParseTrimmed(t: string): Option<int> {
    var negative := t != [] && t[0] == '-';
    var unsigned := if t != [] && (t[0] == '-' || t[0] == '+') then t[1..] else t;
    var ds := LeadingDigits(unsigned);
    if ds == [] then None
    else
      var magnitude: int := DecimalValue(ds);
      Some(if negative then -magnitude else magnitude)
  }

  /** The shortest decimal numeral of a natural number. */
  function NatToDecimal(n: nat): (s: string)
    ensures s != []
    ensures forall k :: 0 <= k < |s| ==> IsDigit(s[k])
  {
    if n < 10 then [DigitChar(n)] else NatToDecimal(n / 10) + [DigitChar(n % 10)]
  }

  /** `${n}` for an integer-valued number (below 10^21 in magnitude JavaScript
      renders exactly this). */
  function IntToDecimal(n: int): string {
    if n < 0 then "-" + NatToDecimal(-n) else NatToDecimal(n)
  }

  lemma {:induction false} DecimalValueOfNatToDecimal(n: nat)
    ensures DecimalValue(NatToDecimal(n)) == n
  {
    if n >= 10 {
      var s := NatToDecimal(n);
      assert s[..|s| - 1] == NatToDecimal(n / 10);
      DecimalValueOfNatToDecimal(n / 10);
    }
  }

  /** Rendering an integer and parsing it back gives the same integer. */
  lemma {:induction false} ParseIntOfIntToDecimal(n: int)
    ensures ParseInt(IntToDecimal(n)) == Some(n)
  {
    var m := if n < 0 then -n else n;
    var digits := NatToDecimal(m);
    DecimalValueOfNatToDecimal(m);
    var sign := if n < 0 then "-" else "";
    assert IntToDecimal(n) == sign + digits + [];
    ParseIntIgnoresTrailer(sign, digits, []);
  }

  /** An optional minus sign, digits, then text that does not start with a digit:
      the value is that of the digits, negated after a minus sign. */
  lemma {:induction false} ParseIntIgnoresTrailer(sign: string, ds: string, trailer: string)
    requires sign == "" || sign == "-"
    requires ds != [] && forall k :: 0 <= k < |ds| ==> IsDigit(ds[k])
    requires trailer == [] || !IsDigit(trailer[0])
    ensures ParseInt(sign + ds + trailer) ==
      Some(if sign == "-" then -(DecimalValue(ds) as int) else DecimalValue(ds))
  {
    var rest := ds + trailer;
    assert rest[0] == ds[0];
    LeadingDigitsPrefix(ds, trailer);
    if sign == "-" {
      assert sign + ds + trailer == "-" + rest;
      ParseIntOfNegative(rest, ds);
    } else {
      assert sign + ds + trailer == rest;
      ParseIntOfUnsigned(rest, ds);
    }
  }

  lemma ParseIntOfUnsigned(u: string, ds: string)
    requires u != [] && IsDigit(u[0]) && LeadingDigits(u) == ds
    ensures ParseInt(u) == Some(DecimalValue(ds) as int)
  {
    TrimStartNoSpace(u);
  }

  lemma ParseIntOfNegative(u: string, ds: string)
    requires u != [] && IsDigit(u[0]) && LeadingDigits(u) == ds
    ensures ParseInt("-" + u) == Some(-(DecimalValue(ds) as int))
  {
    var s := "-" + u;
    assert s[0] == '-' && s[1..] == u;
    TrimStartNoSpace(s);
  }

  lemma TrimStartNoSpace(s: string)
    requires s != [] && !IsStrWhiteSpace(s[0])
    ensures TrimStart(s) == s
  {
  }

  lemma {:induction false} LeadingDigitsPrefix(ds: string, trailer: string)
    requires forall k :: 0 <= k < |ds| ==> IsDigit(ds[k])
    requires trailer == [] || !IsDigit(trailer[0])
    ensures LeadingDigits(ds + trailer) == ds
  {
    if ds != [] {
      assert (ds + trailer)[1..] == ds[1..] + trailer;
      LeadingDigitsPrefix(ds[1..], trailer);
    } else {
      assert ds + trailer == trailer;
    }
  }
}
