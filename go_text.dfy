/**
 * The few Go standard-library text routines the probe relies on:
 * `strconv.ParseInt(s, 10, 64)`, `fmt.Sprintf("%d", n)` and
 * `strings.TrimSpace`. Strings are sequences of characters, one character
 * per byte of the Go string.
 */
module GoText {
  import opened Wrappers

  const Int64Min: int := -0x8000_0000_0000_0000
  const Int64Max: int := 0x7FFF_FFFF_FFFF_FFFF

  predicate IsDigit(c: char) {
    '0' <= c <= '9'
  }

  predicate AllDigits(s: string) {
    forall i :: 0 <= i < |s| ==> IsDigit(s[i])
  }

  function DigitValue(c: char): (d: int)
    requires IsDigit(c)
    ensures 0 <= d < 10
  {
    c as int - '0' as int
  }

  function DigitChar(d: int): (c: char)
    requires 0 <= d < 10
    ensures IsDigit(c) && DigitValue(c) == d
  {
    ('0' as int + d) as char
  }

  /** The value of a run of decimal digits, most significant digit first. */
  function DigitsValue(s: string): nat
    requires AllDigits(s)
  {
    if |s| == 0 then 0 else DigitsValue(s[..|s| - 1]) * 10 + DigitValue(s[|s| - 1])
  }

  /**
   * `strconv.ParseInt(s, 10, 64)`: an optional `+` or `-`, then one or more
   * ASCII digits (no spaces, no underscores, no base prefix), whose value
   * must fit in a signed 64-bit integer. Anything else is an error; `None`
   * stands for both the syntax error and the range error, which the probe
   * never tells apart.
   */
  function ParseInt(s: string): (r: Option<int>)
    ensures r.Some? ==> Int64Min <= r.value <= Int64Max
  {
    if |s| == 0 then None
    else
      var negative := s[0] == '-';
      var digits := if s[0] == '+' || s[0] == '-' then s[1..] else s;
      if |digits| == 0 || !AllDigits(digits) then None
      else
        var m: int := DigitsValue(digits);
        var v := if negative then -m else m;
        if Int64Min <= v <= Int64Max then Some(v) else None
  }

  /**
   * What `ParseInt` accepts and rejects: an empty text, a lone sign, and
   * any character other than a digit after the optional sign give no
   * value; digits after an optional sign give their signed value exactly
   * when it fits in 64 bits.
   */
  lemma ParseIntMeaning(s: string)
    ensures |s| == 0 ==> ParseInt(s).None?
    ensures |s| == 1 && (s[0] == '+' || s[0] == '-') ==> ParseInt(s).None?
    ensures (exists i :: 0 <= i < |s| && !IsDigit(s[i]) && !(i == 0 && (s[0] == '+' || s[0] == '-'))) ==>
              ParseInt(s).None?
    ensures |s| > 0 && AllDigits(s) ==>
              ParseInt(s) == if DigitsValue(s) <= Int64Max then Some(DigitsValue(s)) else None
    ensures |s| > 1 && s[0] == '+' && AllDigits(s[1..]) ==>
              ParseInt(s) == if DigitsValue(s[1..]) <= Int64Max then Some(DigitsValue(s[1..])) else None
    ensures |s| > 1 && s[0] == '-' && AllDigits(s[1..]) ==>
              var m: int := DigitsValue(s[1..]);
              ParseInt(s) == if m <= -Int64Min then Some(-m) else None
  {
  }

  /** Decimal rendering of a natural number without leading zeros. */
  function FormatNat(n: nat): (s: string)
    ensures |s| > 0 && AllDigits(s)
    ensures n >= 10 ==> s[0] != '0'
    decreases n
  {
    if n < 10 then [DigitChar(n)] else FormatNat(n / 10) + [DigitChar(n % 10)]
  }

  /** `fmt.Sprintf("%d", n)`. */
  function FormatInt(n: int): (s: string)
    ensures |s| > 0 && (s[0] == '-' <==> n < 0)
    ensures AllDigits(s[if n < 0 then 1 else 0..])
  {
    if n < 0 then "-" + FormatNat(-n) else FormatNat(n)
  }

  lemma {:induction false} DigitsValueOfFormat(n: nat)
    ensures DigitsValue(FormatNat(n)) == n
  {
    if n >= 10 {
      var s := FormatNat(n);
      var prefix := FormatNat(n / 10);
      assert s[..|s| - 1] == prefix;
      DigitsValueOfFormat(n / 10);
    }
  }

  /** Parsing the decimal text that `%d` writes gives the number back. */
  lemma ParseFormatRoundTrip(n: int)
    requires Int64Min <= n <= Int64Max
    ensures ParseInt(FormatInt(n)) == Some(n)
  {
    ParseFormatted(n);
  }

  /** A formatted number never parses as a different number. */
  lemma ParseFormatInjective(n: int, m: int)
    requires Int64Min <= n <= Int64Max
    ensures ParseInt(FormatInt(m)) == Some(n) <==> m == n
  {
    ParseFormatRoundTrip(n);
    if ParseInt(FormatInt(m)) == Some(n) && m != n {
      if Int64Min <= m <= Int64Max {
        ParseFormatRoundTrip(m);
      } else {
        FormatOutOfRange(m);
      }
    }
  }

  lemma FormatOutOfRange(m: int)
    requires !(Int64Min <= m <= Int64Max)
    ensures ParseInt(FormatInt(m)) == None
  {
    ParseFormatted(m);
  }

  /** What `ParseInt` makes of any formatted number, in range or not. */
  lemma ParseFormatted(n: int)
    ensures ParseInt(FormatInt(n)) == if Int64Min <= n <= Int64Max then Some(n) else None
  {
    var s := FormatInt(n);
    if n < 0 {
      var d := FormatNat(-n);
      assert s == "-" + d && s[0] == '-' && s[1..] == d;
      DigitsValueOfFormat(-n);
    } else {
      var d := FormatNat(n);
      assert s == d && IsDigit(s[0]);
      DigitsValueOfFormat(n);
    }
  }

  /** Go's ASCII white space: tab, line feed, vertical tab, form feed, carriage return, space. */
  predicate IsSpace(c: char) {
    c == ' ' || '\t' <= c <= '\r'
  }

  function TrimLeft(s: string): (r: string)
    ensures |r| <= |s| && r == s[|s| - |r|..]
    ensures forall i :: 0 <= i < |s| - |r| ==> IsSpace(s[i])
    ensures |r| > 0 ==> !IsSpace(r[0])
  {
    if |s| > 0 && IsSpace(s[0]) then TrimLeft(s[1..]) else s
  }

  function TrimRight(s: string): (r: string)
    ensures |r| <= |s| && r == s[..|r|]
    ensures forall i :: |r| <= i < |s| ==> IsSpace(s[i])
    ensures |r| > 0 ==> !IsSpace(r[|r| - 1])
  {
    if |s| > 0 && IsSpace(s[|s| - 1]) then TrimRight(s[..|s| - 1]) else s
  }

  /**
   * `strings.TrimSpace`: the input without its leading and trailing white
   * space. The result is a slice `s[i..j]` of the input, everything cut off
   * is white space, and the result neither starts nor ends with white space.
   */
  function TrimSpace(s: string): (r: string)
    ensures |r| <= |s|
    ensures |r| > 0 ==> !IsSpace(r[0]) && !IsSpace(r[|r| - 1])
  {
    TrimRight(TrimLeft(s))
  }

  /** How many white-space characters `TrimSpace` cuts from the front. */
  function LeadingSpaces(s: string): nat {
    |s| - |TrimLeft(s)|
  }

  /** Trimming keeps exactly the middle of the input and cuts only white space. */
  lemma TrimSpaceSlice(s: string)
    ensures var r, i := TrimSpace(s), LeadingSpaces(s);
            && i + |r| <= |s| && r == s[i..i + |r|]
            && (forall k :: 0 <= k < i ==> IsSpace(s[k]))
            && (forall k :: i + |r| <= k < |s| ==> IsSpace(s[k]))
  {
    var l := TrimLeft(s);
    var r := TrimRight(l);
    var i := |s| - |l|;
    assert r == s[i..i + |r|];
    forall k | i + |r| <= k < |s| ensures IsSpace(s[k]) {
      assert s[k] == l[k - i];
    }
  }

  lemma TrimSpaceIdempotent(s: string)
    ensures TrimSpace(TrimSpace(s)) == TrimSpace(s)
  {
    var r := TrimSpace(s);
    assert TrimLeft(r) == r;
    assert TrimRight(r) == r;
  }
}
