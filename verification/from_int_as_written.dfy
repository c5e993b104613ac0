/**
 The digit loop of `from_int` exactly as the source writes it, with C's
 arithmetic: `int` negation that wraps around in two's complement, and `/`
 and `%` that truncate toward zero. For every value except the most negative
 one it agrees with the intended rendering; for the most negative one the
 negation leaves the value negative and the loop emits non-digit characters.
 */
module FromIntAsWritten {
  import opened Decimal

  /** C's `a / b` for `b > 0`: the quotient truncated toward zero. */
  function CDiv(a: int, b: int): int
    requires b > 0
  {
    if a >= 0 then a / b else -((-a) / b)
  }

  /** C's `a % b` for `b > 0`: takes the sign of `a`. */
  function CRem(a: int, b: int): (r: int)
    requires b > 0
    ensures -b < r < b
    ensures a >= 0 ==> r == a % b
    ensures a < 0 ==> r <= 0
  {
    a - b * CDiv(a, b)
  }

  /** `value = -value` on a 32-bit `int`, wrapping as two's-complement
      hardware does: the most negative value stays unchanged. */
  function WrappingNegate(v: Int32): (r: Int32)
    ensures v as int != IntMin ==> r as int == -(v as int)
    ensures v as int == IntMin ==> r == v
  {
    if v as int == IntMin then v else -v
  }

  /** The do-while loop: appends the character that lies `value % 10` places
      after `'0'` (C remainder, so possibly before it) and divides `value` by
      ten, repeating while `value` is non-zero and `tmp` has room. */
  function Scratch(value: int, tmp: seq<char>): (r: seq<char>)
    requires |tmp| < 12
    ensures |tmp| < |r| <= 12 && r[..|tmp|] == tmp
    decreases 12 - |tmp|
  {
    var tmp' := tmp + [('0' as int + CRem(value, 10)) as char];
    var value' := CDiv(value, 10);
    if value' != 0 && |tmp'| < 12 then Scratch(value', tmp') else tmp'
  }

  /** On a value of magnitude below `10^k` the loop stops after at most `k`
      more characters, whatever the sign of the value. */
  lemma {:induction false} ScratchLength(value: int, tmp: seq<char>, k: nat)
    requires 1 <= k && |tmp| + k <= 12
    requires -(Pow10(k) as int) < value < Pow10(k)
    ensures |Scratch(value, tmp)| <= |tmp| + k
    decreases k
  {
    var tmp' := tmp + [('0' as int + CRem(value, 10)) as char];
    var value' := CDiv(value, 10);
    if value' != 0 && |tmp'| < 12 {
      assert value >= 10 || value <= -10;
      assert k >= 2;
      assert -(Pow10(k - 1) as int) < value' < Pow10(k - 1);
      ScratchLength(value', tmp', k - 1);
    }
  }

  /** The text `from_int(v)` writes, before its capacity check: the scratch
      buffer, with `'-'` appended for a negative input, read backwards. The
      loop fills at most ten of the twelve scratch slots for any 32-bit
      value, even the wrapped most negative one, so appending `'-'` stays
      inside the scratch array. */
  function RenderAsWritten(v: Int32): (r: seq<char>)
    ensures 1 <= |r| <= 11
    ensures v < 0 ==> r[0] == '-'
  {
    var value := if v < 0 then WrappingNegate(v) else v;
    assert Pow10(10) == 10_000_000_000;
    ScratchLength(value as int, [], 10);
    var tmp := Scratch(value as int, []);
    Reverse(if v < 0 then tmp + ['-'] else tmp)
  }

  /** On a non-negative value the loop emits the decimal digits, least
      significant first. */
  lemma {:induction false} ScratchIsReversedDigits(m: nat, tmp: seq<char>)
    requires |tmp| + |DecimalDigits(m)| <= 12
    ensures Scratch(m, tmp) == tmp + Reverse(DecimalDigits(m))
    decreases m
  {
    var tmp' := tmp + [DigitChar(m % 10)];
    assert ('0' as int + CRem(m, 10)) as char == DigitChar(m % 10);
    if m >= 10 {
      var d := DecimalDigits(m / 10);
      assert DecimalDigits(m) == d + [DigitChar(m % 10)];
      assert CDiv(m, 10) == m / 10 != 0;
      ScratchIsReversedDigits(m / 10, tmp');
      assert Reverse(d + [DigitChar(m % 10)]) == [DigitChar(m % 10)] + Reverse(d);
    } else {
      assert CDiv(m, 10) == 0;
      assert Reverse(DecimalDigits(m)) == [DigitChar(m % 10)];
    }
  }

  /** Reading a text backwards twice gives it back; a trailing `'-'` comes
      out in front. */
  lemma ReverseTwice(d: seq<char>)
    ensures Reverse(Reverse(d)) == d
    ensures Reverse(Reverse(d) + ['-']) == ['-'] + d
  {
    assert Reverse(Reverse(d)) == d;
    var t := Reverse(d) + ['-'];
    assert Reverse(t) == ['-'] + d;
  }

  /** Away from the most negative value, the source's loop renders correctly. */
  lemma AsWrittenAgreesAwayFromIntMin(v: Int32)
    requires v as int != IntMin
    ensures RenderAsWritten(v) == Render(v as int)
  {
    RenderLength(v);
    var m: nat := if v < 0 then -(v as int) else v as int;
    var value := if v < 0 then WrappingNegate(v) else v;
    assert value as int == m;
    ScratchIsReversedDigits(m, []);
    var tmp := Scratch(m, []);
    assert tmp == Reverse(DecimalDigits(m));
    ReverseTwice(DecimalDigits(m));
    if v < 0 {
      assert RenderAsWritten(v) == Reverse(tmp + ['-']);
    } else {
      assert RenderAsWritten(v) == Reverse(tmp);
    }
  }

  /** `from_int(INT_MIN)` does not produce `"-2147483648"`: the first digit
      the loop emits is `char('0' + INT_MIN % 10)`, which is `'('`, where the
      rendering ends in `'8'`. */
  lemma IntMinMisrendered()
    ensures RenderAsWritten(IntMin as Int32)[|RenderAsWritten(IntMin as Int32)| - 1] == '('
    ensures Render(IntMin)[|Render(IntMin)| - 1] == '8'
    ensures RenderAsWritten(IntMin as Int32) != Render(IntMin)
  {
    var v := IntMin as Int32;
    var tmp := Scratch(IntMin, []);
    assert CRem(IntMin, 10) == -8;
    assert tmp[0] == '(';
    var r := RenderAsWritten(v);
    assert r == Reverse(tmp + ['-']);
    assert r[|r| - 1] == (tmp + ['-'])[0];
    IntMinRendering();
  }
}
