/**
 The base-10 text of a signed integer, as `from_int` is meant to produce it:
 `"0"` for zero, otherwise the digits without leading zeros, preceded by `'-'`
 for negative values. A parser is defined alongside and proved inverse to the
 renderer in both directions.
 */
module Decimal {

  /** The source's `int`, taken as 32 bits wide, and its most negative value. */
  const IntMin: int := -0x8000_0000
  newtype Int32 = x: int | -0x8000_0000 <= x < 0x8000_0000

  predicate IsDigit(c: char)
  {
    '0' <= c <= '9'
  }

  predicate AllDigits(s: seq<char>)
  {
    forall k :: 0 <= k < |s| ==> IsDigit(s[k])
  }

  /** `char('0' + d)` for a digit value `d`. */
  function DigitChar(d: nat): (c: char)
    requires d < 10
    ensures IsDigit(c) && c as int - '0' as int == d
  {
    ('0' as int + d) as char
  }

  /** `10^k`. */
  function Pow10(k: nat): (p: nat)
    ensures p >= 1
  {
    if k == 0 then 1 else 10 * Pow10(k - 1)
  }

  /** The digits of `n`, most significant first. */
  function DecimalDigits(n: nat): (r: seq<char>)
    ensures 1 <= |r| && AllDigits(r)
    ensures r[0] == '0' <==> n == 0
    ensures n == 0 ==> r == ['0']
    decreases n
  {
    if n < 10 then [DigitChar(n)] else DecimalDigits(n / 10) + [DigitChar(n % 10)]
  }

  /** The value a digit string denotes. */
  function DigitsValue(s: seq<char>): nat
    requires AllDigits(s)
  {
    if |s| == 0 then 0 else DigitsValue(s[..|s| - 1]) * 10 + (s[|s| - 1] as int - '0' as int)
  }

  /** A digit string is canonical when it is `"0"` or starts with a non-zero digit. */
  predicate CanonicalDigits(s: seq<char>)
  {
    1 <= |s| && AllDigits(s) && (s[0] == '0' ==> |s| == 1)
  }

  /** The text `from_int` is meant to produce for `v`. */
  function Render(v: int): (r: seq<char>)
    ensures 1 <= |r| && '\0' !in r
    ensures r[0] == '-' <==> v < 0
    ensures v < 0 ==> CanonicalDigits(r[1..]) && r[1] != '0'
    ensures v >= 0 ==> CanonicalDigits(r)
  {
    if v < 0 then ['-'] + DecimalDigits(-v) else DecimalDigits(v)
  }

  /** Texts `Render` can produce: a canonical digit string, or `'-'` followed
      by one that is not `"0"`. */
  predicate Canonical(s: seq<char>)
  {
    if 1 <= |s| && s[0] == '-' then CanonicalDigits(s[1..]) && s[1] != '0'
    else CanonicalDigits(s)
  }

  /** The value a canonical text denotes. */
  function Parse(s: seq<char>): int
    requires Canonical(s)
  {
    if s[0] == '-' then -(DigitsValue(s[1..]) as int) else DigitsValue(s)
  }

  /** `s` read backwards. */
  function Reverse(s: seq<char>): (r: seq<char>)
    ensures |r| == |s|
    ensures forall k :: 0 <= k < |s| ==> r[k] == s[|s| - 1 - k]
  {
    if |s| == 0 then [] else [s[|s| - 1]] + Reverse(s[..|s| - 1])
  }

  lemma {:induction false} DigitsRoundTrip(n: nat)
    ensures DigitsValue(DecimalDigits(n)) == n
    decreases n
  {
    var r := DecimalDigits(n);
    if n >= 10 {
      DigitsRoundTrip(n / 10);
      assert r[..|r| - 1] == DecimalDigits(n / 10);
    }
  }

  lemma {:induction false} LeadingDigitPositive(s: seq<char>)
    requires 1 <= |s| && AllDigits(s) && s[0] != '0'
    ensures DigitsValue(s) > 0
    decreases |s|
  {
    if |s| > 1 {
      LeadingDigitPositive(s[..|s| - 1]);
    }
  }

  lemma {:induction false} DigitsOfValue(s: seq<char>)
    requires CanonicalDigits(s)
    ensures DecimalDigits(DigitsValue(s)) == s
    decreases |s|
  {
    if |s| > 1 {
      var p := s[..|s| - 1];
      DigitsOfValue(p);
      LeadingDigitPositive(p);
      var d := s[|s| - 1] as int - '0' as int;
      var n := DigitsValue(s);
      assert n == DigitsValue(p) * 10 + d;
      assert n / 10 == DigitsValue(p) && n % 10 == d;
      assert s == p + [s[|s| - 1]];
    }
  }

  /** Parsing undoes rendering. */
  lemma RenderRoundTrip(v: int)
    ensures Canonical(Render(v))
    ensures Parse(Render(v)) == v
  {
    if v < 0 {
      DigitsRoundTrip(-v);
      assert Render(v)[1..] == DecimalDigits(-v);
    } else {
      DigitsRoundTrip(v);
    }
  }

  /** Rendering undoes parsing: every canonical text is the rendering of
      exactly the value it denotes. */
  lemma ParseRoundTrip(s: seq<char>)
    requires Canonical(s)
    ensures Render(Parse(s)) == s
  {
    if s[0] == '-' {
      DigitsOfValue(s[1..]);
      LeadingDigitPositive(s[1..]);
    } else {
      DigitsOfValue(s);
    }
  }

  /** Distinct values have distinct renderings. */
  lemma RenderInjective(v: int, w: int)
    requires Render(v) == Render(w)
    ensures v == w
  {
    RenderRoundTrip(v);
    RenderRoundTrip(w);
  }

  lemma {:induction false} DigitsLength(n: nat, k: nat)
    requires 1 <= k && n < Pow10(k)
    ensures |DecimalDigits(n)| <= k
    decreases k
  {
    if n >= 10 {
      assert k >= 2;
      assert n / 10 < Pow10(k - 1);
      DigitsLength(n / 10, k - 1);
    }
  }

  /** A 32-bit value renders to at most 11 characters (ten digits and a sign),
      so the source's 12-character scratch buffer always suffices. */
  lemma RenderLength(v: Int32)
    ensures |Render(v as int)| <= 11
    ensures v >= 0 ==> |Render(v as int)| <= 10
  {
    assert Pow10(10) == 10_000_000_000;
    if v < 0 {
      DigitsLength(-(v as int), 10);
    } else {
      DigitsLength(v as int, 10);
    }
  }

  /** Two sample renderings. */
  lemma RenderExamples()
    ensures Render(0) == "0"
    ensures Render(-5) == "-5"
  {
    assert DecimalDigits(5) == "5";
  }

  /** One step of `DecimalDigits`: the last digit is the remainder. */
  lemma DigitsSnoc(n: nat, prefix: seq<char>)
    requires n >= 10 && DecimalDigits(n / 10) == prefix
    ensures DecimalDigits(n) == prefix + [DigitChar(n % 10)]
  {
  }

  /** The rendering of the most negative 32-bit value. */
  lemma IntMinRendering()
    ensures Render(IntMin) == "-2147483648"
  {
    assert DecimalDigits(2) == "2";
    DigitsSnoc(21, "2");
    DigitsSnoc(214, "21");
    DigitsSnoc(2147, "214");
    DigitsSnoc(21474, "2147");
    DigitsSnoc(214748, "21474");
    DigitsSnoc(2147483, "214748");
    DigitsSnoc(21474836, "2147483");
    DigitsSnoc(214748364, "21474836");
    DigitsSnoc(2147483648, "214748364");
  }
}
