/**
 * Resolution of the `batch.size` setting: the property text is parsed the way
 * Java's `Integer.parseInt` parses a decimal `int`, and any failure (missing
 * property, malformed text, a value outside the 32-bit range) falls back to 1000.
 */
module BatchSize {
  import opened Wrappers

  const IntMin: int := -0x8000_0000
  const IntMax: int := 0x7fff_ffff
  const DefaultBatchSize: int := 1000

  predicate IsDigit(c: char) { '0' <= c <= '9' }

  predicate AllDigits(s: string)
  {
    forall i :: 0 <= i < |s| ==> IsDigit(s[i])
  }

  function DigitValue(c: char): nat
    requires IsDigit(c)
  {
    (c as int) - ('0' as int)
  }

  function DigitChar(d: nat): char
    requires d < 10
  {
    (('0' as int) + d) as char
  }

  /** The value of a string of decimal digits, read most significant digit first. */
  function DigitsValue(ds: string): nat
    requires AllDigits(ds)
  {
    if |ds| == 0 then 0 else DigitsValue(ds[..|ds| - 1]) * 10 + DigitValue(ds[|ds| - 1])
  }

  /** The text after an optional leading `+` or `-`. */
  function Magnitude(s: string): string
  {
    if |s| > 0 && (s[0] == '-' || s[0] == '+') then s[1..] else s
  }

  /** `s` is an optional sign followed by at least one decimal digit. */
  predicate IsNumeral(s: string)
  {
    |Magnitude(s)| > 0 && AllDigits(Magnitude(s))
  }

  /** The mathematical value of a numeral, sign included. */
  function NumeralValue(s: string): int
    requires IsNumeral(s)
  {
    if s[0] == '-' then -(DigitsValue(Magnitude(s)) as int) else DigitsValue(Magnitude(s))
  }

  /**
   * What `Integer.parseInt(s)` yields, stated declaratively: `Some(v)` when
   * `s` is a numeral whose value fits a Java `int`, `None` where Java throws
   * `NumberFormatException`.
   */
  function IntValue(s: string): Option<int>
  {
    if IsNumeral(s) && IntMin <= NumeralValue(s) <= IntMax then Some(NumeralValue(s)) else None
  }

  /** A prefix of a digit string is a digit string of no greater value. */
  lemma {:induction false} DigitsPrefix(ds: string, j: nat)
    requires AllDigits(ds) && j <= |ds|
    ensures AllDigits(ds[..j]) && DigitsValue(ds[..j]) <= DigitsValue(ds)
    decreases |ds| - j
  {
    if j < |ds| {
      var init := ds[..|ds| - 1];
      assert AllDigits(init) by {
        forall k | 0 <= k < |init| ensures IsDigit(init[k]) { assert init[k] == ds[k]; }
      }
      DigitsPrefix(init, j);
      assert init[..j] == ds[..j];
    } else {
      assert ds[..j] == ds;
    }
  }

  /** Appending a digit multiplies the value by ten and adds the digit. */
  lemma DigitsSnoc(ds: string, c: char)
    requires AllDigits(ds) && IsDigit(c)
    ensures AllDigits(ds + [c])
    ensures DigitsValue(ds + [c]) == DigitsValue(ds) * 10 + DigitValue(c)
  {
    assert (ds + [c])[..|ds|] == ds;
  }

  /**
   * Once the digits read so far exceed a bound, the whole magnitude exceeds
   * it too, or holds a non-digit: either way the text is refused.
   */
  lemma DigitsOverflow(s: string, start: nat, i: nat)
    requires start <= i <= |s| && Magnitude(s) == s[start..]
    requires AllDigits(s[start..i])
    ensures AllDigits(Magnitude(s)) ==> DigitsValue(s[start..i]) <= DigitsValue(Magnitude(s))
  {
    if AllDigits(Magnitude(s)) {
      DigitsPrefix(Magnitude(s), i - start);
      assert Magnitude(s)[..i - start] == s[start..i];
    }
  }

  /**
   * `Integer.parseInt(s)` with radix 10, as the JDK computes it: an optional
   * sign, then one pass over the digits accumulating the negated value, with
   * the `multmin` and `limit` guards refusing an overflow before it happens.
   * The guards keep every intermediate value within the `int` range, so the
   * unbounded arithmetic here agrees with Java's 32-bit arithmetic.
   */
  method ParseInt(s: string) returns (r: Option<int>)
    ensures r.Some? <==> IsNumeral(s) && IntMin <= NumeralValue(s) <= IntMax
    ensures r.Some? ==> r.value == NumeralValue(s)
    ensures r == IntValue(s)
  {
    if |s| == 0 {
      return None;
    }
    var negative := false;
    var limit := -IntMax;
    var i := 0;
    if s[0] < '0' {
      if s[0] == '-' {
        negative := true;
        limit := IntMin;
      } else if s[0] != '+' {
        assert !IsDigit(Magnitude(s)[0]);
        return None;
      }
      if |s| == 1 {
        return None;
      }
      i := 1;
    }
    ghost var start := i;
    assert Magnitude(s) == s[start..];
    // `limit / 10` in Java truncates toward zero
    var multmin := -((-limit) / 10);
    var result := 0;
    while i < |s|
      invariant start <= i <= |s|
      invariant AllDigits(s[start..i])
      invariant result == -(DigitsValue(s[start..i]) as int) && limit <= result
    {
      var c := s[i];
      if !IsDigit(c) {
        assert !IsDigit(Magnitude(s)[i - start]);
        return None;
      }
      DigitsSnoc(s[start..i], c);
      assert s[start..i + 1] == s[start..i] + [c];
      if result < multmin {
        DigitsOverflow(s, start, i + 1);
        return None;
      }
      var digit := DigitValue(c);
      result := result * 10;
      if result < limit + digit {
        DigitsOverflow(s, start, i + 1);
        return None;
      }
      result := result - digit;
      i := i + 1;
    }
    assert s[start..i] == Magnitude(s);
    r := Some(if negative then result else -result);
  }

  /** Decimal digits of a natural number, without leading zeros. */
  function NatDigits(n: nat): (ds: string)
    ensures |ds| > 0 && AllDigits(ds)
  {
    if n < 10 then [DigitChar(n)] else NatDigits(n / 10) + [DigitChar(n % 10)]
  }

  /** `Integer.toString(n)`: a `-` for negative values, then the digits of the magnitude. */
  function FormatInt(n: int): string
  {
    if n < 0 then "-" + NatDigits(-n) else NatDigits(n)
  }

  lemma {:induction false} NatDigitsValue(n: nat)
    ensures DigitsValue(NatDigits(n)) == n
  {
    var ds := NatDigits(n);
    if n >= 10 {
      NatDigitsValue(n / 10);
      assert ds[..|ds| - 1] == NatDigits(n / 10);
    }
  }

  /** Formatting an `int` and parsing the text gives the same `int` back. */
  lemma ParseFormat(n: int)
    requires IntMin <= n <= IntMax
    ensures IntValue(FormatInt(n)) == Some(n)
  {
    var s := FormatInt(n);
    if n < 0 {
      NatDigitsValue(-n);
      assert Magnitude(s) == NatDigits(-n);
    } else {
      NatDigitsValue(n);
      assert Magnitude(s) == NatDigits(n);
    }
  }

  /**
   * The batch size used by the copy engine, from the `batch.size` property
   * (`None` when the key is absent).
   */
  function ResolveBatchSize(property: Option<string>): (b: int)
    ensures IntMin <= b <= IntMax
  {
    if property.Some? && IntValue(property.value).Some? then IntValue(property.value).value
    else DefaultBatchSize
  }

  /** A property holding a numeral in range resolves to that numeral's value. */
  lemma ResolveParsed(text: string)
    requires IsNumeral(text) && IntMin <= NumeralValue(text) <= IntMax
    ensures ResolveBatchSize(Some(text)) == NumeralValue(text)
  {
  }

  /** Every other property text, and a missing key, resolves to the default 1000. */
  lemma ResolveFallback(property: Option<string>)
    requires property.None? || !IsNumeral(property.value) || !(IntMin <= NumeralValue(property.value) <= IntMax)
    ensures ResolveBatchSize(property) == DefaultBatchSize
  {
  }

  /** Any `int` written out as the property is the batch size used. */
  lemma ResolveFormatted(n: int)
    requires IntMin <= n <= IntMax
    ensures ResolveBatchSize(Some(FormatInt(n))) == n
  {
    ParseFormat(n);
  }

  /** A text with a character that is not a digit after the optional sign is refused. */
  lemma ParseRejectsNonDigit(s: string, i: nat)
    requires i < |Magnitude(s)| && !IsDigit(Magnitude(s)[i])
    ensures IntValue(s).None?
  {
  }

  /** Non-numeric text, empty text, a bare sign and a missing key all fall back to 1000. */
  lemma ResolveMalformed()
    ensures ResolveBatchSize(Some("abc")) == 1000
    ensures ResolveBatchSize(Some("")) == 1000
    ensures ResolveBatchSize(Some("-")) == 1000
    ensures ResolveBatchSize(None) == 1000
  {
    assert !IsDigit(Magnitude("abc")[0]);
  }

  /** Any value outside the `int` range, written out in decimal, overflows and falls back to 1000. */
  lemma ResolveOutOfRange(n: int)
    requires n < IntMin || n > IntMax
    ensures ResolveBatchSize(Some(FormatInt(n))) == DefaultBatchSize
  {
    var s := FormatInt(n);
    if n < 0 {
      NatDigitsValue(-n);
      assert Magnitude(s) == NatDigits(-n);
    } else {
      NatDigitsValue(n);
      assert Magnitude(s) == NatDigits(n);
    }
  }

  /** A leading `+` and leading zeros are accepted, as `Integer.parseInt` accepts them. */
  lemma ResolveSignedLeadingZeros()
    ensures ResolveBatchSize(Some("+0250")) == 250
  {
    var small := Magnitude("+0250");
    assert small == "0250";
    assert DigitsValue(small[..0]) == 0;
    assert DigitsValue(small[..1]) == 0;
    assert small[..2][..1] == small[..1];
    assert DigitsValue(small[..2]) == 2;
    assert small[..3][..2] == small[..2];
    assert DigitsValue(small[..3]) == 25;
    assert small[..4] == small;
    assert small[..3] == small[..4][..3];
    assert DigitsValue(small) == 250;
  }
}
