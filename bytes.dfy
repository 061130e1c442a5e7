/**
 * `ByteFormatter.Format`: divide by 1024 while the value is at least 1024,
 * at most five times, and let the number of divisions pick the unit.
 *
 * The displayed number is the double `dblSByte`; the model keeps it as the
 * exact fraction `dividend / divisor` it is computed from, and leaves its
 * `0.##` rendering out.
 */
module ByteFormatter {
  import opened Outcomes

  /** The suffix table; it has five entries, indices 0 to 4. */
  const Suffixes: seq<string> := ["B", "KB", "MB", "GB", "TB"]

  function Pow1024(k: nat): (r: int)
    ensures r >= 1
  {
    if k == 0 then 1 else Pow1024(k - 1) * 1024
  }

  /** The value before rendering: the double `dividend / divisor`, shown with `unit`. */
  datatype Scaled = Scaled(dividend: int, divisor: int, unit: string)

  /** `suffix[i]` with `i` past the end of the table. */
  datatype FormatError = SuffixIndexOutOfRange(index: nat)

  /**
   * How often the loop divides, in closed form: the largest `k` up to 5 with
   * `1024^k <= bytes`, and 0 for anything below 1024 (negative values too).
   */
  function Magnitude(bytes: int): (k: nat)
    ensures k <= 5
  {
    if bytes < Pow1024(1) then 0
    else if bytes < Pow1024(2) then 1
    else if bytes < Pow1024(3) then 2
    else if bytes < Pow1024(4) then 3
    else if bytes < Pow1024(5) then 4
    else 5
  }

  /**
   * What `Format` yields: after `k` divisions the double holds the value
   * divided `k - 1` times, over 1024; five divisions index past the table.
   */
  function ScaleOf(bytes: int): Result<Scaled, FormatError> {
    var k := Magnitude(bytes);
    if k == 5 then Err(SuffixIndexOutOfRange(5))
    else if k == 0 then Ok(Scaled(bytes, 1, Suffixes[0]))
    else Ok(Scaled(bytes / Pow1024(k - 1), 1024, Suffixes[k]))
  }

  /** The loop as written: `i` counts the divisions, `b` is the running quotient. */
  method Format(bytes: int) returns (r: Result<Scaled, FormatError>)
    ensures r == ScaleOf(bytes)
  {
    var i := 0;
    var b := bytes;
    var dividend, divisor := bytes, 1;
    while i < |Suffixes| && b >= 1024
      invariant 0 <= i <= |Suffixes|
      invariant i == 0 ==> b == bytes && dividend == bytes && divisor == 1
      invariant i > 0 ==>
        && Pow1024(i) <= bytes
        && b == bytes / Pow1024(i)
        && dividend == bytes / Pow1024(i - 1) && divisor == 1024
    {
      dividend, divisor := b, 1024;
      // b is at least 1024 here, so C#'s truncating division is Dafny's
      DivStep(bytes, i);
      DivBound(bytes, i);
      i, b := i + 1, b / 1024;
    }
    if i == |Suffixes| {
      MagnitudeOf(bytes, i);
      return Err(SuffixIndexOutOfRange(i));
    }
    if i > 0 {
      DivBound(bytes, i);
    }
    MagnitudeOf(bytes, i);
    return Ok(Scaled(dividend, divisor, Suffixes[i]));
  }

  lemma PowValues()
    ensures Pow1024(1) == 1024 && Pow1024(2) == 1048576 && Pow1024(3) == 1073741824
    ensures Pow1024(4) == 1099511627776 && Pow1024(5) == 1125899906842624
  {
  }

  /** One more division by 1024 divides by the next power (the loop divides at most five times). */
  lemma DivStep(x: int, i: nat)
    requires x >= 0 && i <= 4
    ensures x / Pow1024(i) / 1024 == x / Pow1024(i + 1)
  {
    PowValues();
    if i == 0 {
    } else if i == 1 {
      assert x / 1024 / 1024 == x / 1048576;
    } else if i == 2 {
      assert x / 1048576 / 1024 == x / 1073741824;
    } else if i == 3 {
      assert x / 1073741824 / 1024 == x / 1099511627776;
    } else {
      assert x / 1099511627776 / 1024 == x / 1125899906842624;
    }
  }

  /** The quotient by `1024^i` is at least 1024 exactly when `x` reaches the next power. */
  lemma DivBound(x: int, i: nat)
    requires x >= 0 && i <= 4
    ensures x / Pow1024(i) >= 1024 <==> x >= Pow1024(i + 1)
    ensures x / Pow1024(i) >= 1 <==> x >= Pow1024(i)
  {
    PowValues();
  }

  lemma PowMonotone(j: nat, k: nat)
    requires j <= k
    ensures Pow1024(j) <= Pow1024(k)
  {
    if j < k {
      PowMonotone(j, k - 1);
    }
  }

  /** `bytes` lies in the range of magnitude `k`, so `k` is its magnitude. */
  lemma MagnitudeOf(bytes: int, k: nat)
    requires k <= 5
    requires k == 0 ==> bytes < 1024
    requires 0 < k ==> Pow1024(k) <= bytes
    requires k < 5 ==> bytes < Pow1024(k + 1)
    ensures Magnitude(bytes) == k
  {
    forall j: nat | j <= k ensures Pow1024(j) <= Pow1024(k) {
      PowMonotone(j, k);
    }
    forall j: nat | k < j <= 5 ensures Pow1024(k + 1) <= Pow1024(j) {
      PowMonotone(k + 1, j);
    }
  }

  /** The magnitude is the exact range `1024^k <= bytes < 1024^(k+1)`, capped at 5. */
  lemma MagnitudeRange(bytes: int)
    ensures var k := Magnitude(bytes);
      && (k == 0 <==> bytes < 1024)
      && (0 < k ==> Pow1024(k) <= bytes)
      && (k < 5 ==> bytes < Pow1024(k + 1))
  {
  }

  /** A larger size never gets a smaller unit. */
  lemma MagnitudeMonotone(a: int, b: int)
    requires a <= b
    ensures Magnitude(a) <= Magnitude(b)
  {
  }

  /** `Format` fails exactly from 1024^5 bytes (one pebibyte) on. */
  lemma FormatFailsIff(bytes: int)
    ensures ScaleOf(bytes).Err? <==> bytes >= Pow1024(5)
    ensures ScaleOf(bytes).Err? ==> ScaleOf(bytes).error.index == |Suffixes|
  {
  }

  /** Below 1024, including negative values, the number is shown as it is, in bytes. */
  lemma FormatSmall(bytes: int)
    requires bytes < 1024
    ensures ScaleOf(bytes) == Ok(Scaled(bytes, 1, "B"))
  {
  }

  /**
   * From 1024 bytes up to the failure bound the unit is `Suffixes[k]` for the
   * `k` with `1024^k <= bytes < 1024^(k+1)`, and the whole part of the value
   * before rendering is the quotient `bytes / 1024^k`, between 1 and 1023
   * (the `0.##` rounding may still display it as 1024).
   */
  lemma FormatScaled(bytes: int)
    requires 1024 <= bytes < Pow1024(5)
    ensures var k := Magnitude(bytes);
      var s := ScaleOf(bytes);
      && 1 <= k <= 4
      && s.Ok? && s.value.unit == Suffixes[k] && s.value.divisor == 1024
      && Pow1024(k) <= bytes < Pow1024(k + 1)
      && s.value.dividend / s.value.divisor == bytes / Pow1024(k)
      && 1 <= bytes / Pow1024(k) < 1024
  {
    var k := Magnitude(bytes);
    MagnitudeRange(bytes);
    DivStep(bytes, k - 1);
    DivBound(bytes, k);
  }

  /** The whole part of a successful result's value before rendering never reaches 1024. */
  lemma FormatWholePartBelow1024(bytes: int)
    requires 0 <= bytes
    requires ScaleOf(bytes).Ok?
    ensures 0 <= ScaleOf(bytes).value.dividend / ScaleOf(bytes).value.divisor < 1024
  {
    if bytes >= 1024 {
      FormatFailsIff(bytes);
      FormatScaled(bytes);
    }
  }

  /** 1024 bytes is the first value shown in kilobytes, as `1 KB`. */
  lemma FormatExamples()
    ensures ScaleOf(1023) == Ok(Scaled(1023, 1, "B"))
    ensures ScaleOf(1024) == Ok(Scaled(1024, 1024, "KB"))
    ensures ScaleOf(1536) == Ok(Scaled(1536, 1024, "KB"))
    ensures ScaleOf(Pow1024(5)) == Err(SuffixIndexOutOfRange(5))
  {
  }
}
