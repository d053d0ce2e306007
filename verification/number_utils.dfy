/**
 * The numeric helpers: clamping, a random integer in a range, byte-count
 * formatting and the "time ago" ladder.
 */
module NumberUtils {
  import Text

  function Min(a: real, b: real): real { if a <= b then a else b }

  function Max(a: real, b: real): real { if a >= b then a else b }

  /** `clamp(value, min, max)`, that is `Math.max(min, Math.min(max, value))`. */
  function Clamp(value: real, lo: real, hi: real): (r: real)
    ensures lo <= hi ==> lo <= r <= hi
    ensures lo <= value <= hi ==> r == value
    ensures value < lo || hi <= lo ==> r == lo
    ensures lo <= hi <= value ==> r == hi
  {
    Max(lo, Min(hi, value))
  }

  /** The examples of the clamp tests. */
  lemma ClampExamples()
    ensures Clamp(5.0, 0.0, 10.0) == 5.0 && Clamp(-5.0, 0.0, 10.0) == 0.0 && Clamp(15.0, 0.0, 10.0) == 10.0
    ensures Clamp(5.0, 10.0, 10.0) == 10.0 && Clamp(15.0, 10.0, 10.0) == 10.0
    ensures Clamp(-5.0, -10.0, 0.0) == -5.0 && Clamp(-15.0, -10.0, 0.0) == -10.0
  {
  }

  // ---------------------------------------------------------------------------
  // randomBetween
  // ---------------------------------------------------------------------------

  /** `randomBetween(min, max)`, with `draw` standing for `Math.random()`. */
  function RandomBetween(lo: int, hi: int, draw: real): (r: int)
    requires 0.0 <= draw < 1.0
    ensures lo <= hi ==> lo <= r <= hi
    ensures lo == hi ==> r == lo
  {
    var span := hi - lo + 1;
    if span > 0 then
      FloorOfFractionOfSpan(draw, span);
      (draw * span as real).Floor + lo
    else
      (draw * span as real).Floor + lo
  }

  /** A draw in `[0, 1)` scaled by a positive span floors into `[0, span)`. */
  lemma FloorOfFractionOfSpan(draw: real, span: int)
    requires 0.0 <= draw < 1.0 && span > 0
    ensures 0 <= (draw * span as real).Floor < span
  {
    var n := span as real;
    var x := draw * n;
    assert 0.0 <= x;
    assert x < n by {
      var d := 1.0 - draw;
      assert d > 0.0 && n > 0.0;
      assert d * n > 0.0;
      assert n - x == d * n;
    }
  }

  /** Every integer of a non-empty range, both ends included, is produced by some draw. */
  lemma RandomBetweenReachesEveryValue(lo: int, hi: int, v: int)
    requires lo <= v <= hi
    ensures exists draw :: 0.0 <= draw < 1.0 && RandomBetween(lo, hi, draw) == v
  {
    var span := hi - lo + 1;
    var draw := (v - lo) as real / span as real;
    assert draw * span as real == (v - lo) as real;
    assert RandomBetween(lo, hi, draw) == v;
  }

  // ---------------------------------------------------------------------------
  // formatBytes
  // ---------------------------------------------------------------------------

  /** `Math.pow(k, i)` with `k = 1024`: the size of unit `i` (B, KB, MB, GB, and TB at `i = 4`). */
  function Pow1024(i: nat): (p: nat)
    ensures p >= 1 && (i > 0 ==> p % 1024 == 0)
    ensures i < 5 ==> p == [1, 1024, 1048576, 1073741824, 1099511627776][i]
  {
    if i == 0 then 1 else 1024 * Pow1024(i - 1)
  }

  const Units: seq<string> := ["B", "KB", "MB", "GB"]

  /** `Math.floor(Math.log(bytes) / Math.log(1024))`: the largest `i` with `1024^i <= bytes`. */
  function UnitIndex(bytes: nat): (i: nat)
    requires bytes >= 1
    ensures Pow1024(i) <= bytes < Pow1024(i + 1)
  {
    if bytes < 1024 then 0 else 1 + UnitIndex(bytes / 1024)
  }

  /** `Math.round(100 * bytes / p)`, rounding halves up. */
  function RoundedHundredths(bytes: nat, p: nat): nat
    requires p >= 1
  {
    (200 * bytes + p) / (2 * p)
  }

  /** A count of hundredths as JavaScript prints `h / 100`: no trailing zeros, no point for whole numbers. */
  function HundredthsToString(h: nat): string {
    var whole := Text.NatToString(h / 100);
    var frac := h % 100;
    if frac == 0 then whole
    else if frac % 10 == 0 then whole + "." + [Text.DigitChar(frac / 10)]
    else whole + "." + [Text.DigitChar(frac / 10), Text.DigitChar(frac % 10)]
  }

  /**
   * `formatBytes(bytes)` for counts below 1024^4 (the units stop at GB): the
   * count scaled to the largest unit not exceeding it, rounded to two
   * decimals.
   */
  function FormatBytes(bytes: nat): (r: string)
    requires bytes < Pow1024(4)
    ensures bytes == 0 ==> r == "0 B"
  {
    if bytes == 0 then "0 B"
    else
      var i := UnitIndex(bytes);
      assert i < 4 by {
        if i >= 4 {
          PowMonotone(4, i);
        }
      }
      HundredthsToString(RoundedHundredths(bytes, Pow1024(i))) + " " + Units[i]
  }

  lemma {:induction false} PowMonotone(i: nat, j: nat)
    requires i <= j
    ensures Pow1024(i) <= Pow1024(j)
  {
    if i < j {
      PowMonotone(i, j - 1);
    }
  }

  /** The unit index is the only `i` with `1024^i <= bytes < 1024^(i+1)`. */
  lemma UnitIndexUnique(bytes: nat, i: nat)
    requires bytes >= 1 && Pow1024(i) <= bytes < Pow1024(i + 1)
    ensures UnitIndex(bytes) == i
  {
    var j := UnitIndex(bytes);
    if j < i {
      PowMonotone(j + 1, i);
    } else if j > i {
      PowMonotone(i + 1, j);
    }
  }

  lemma MultipleInUnitRange(m: nat, p: nat)
    requires 1 <= m < 1024 && p >= 1
    ensures p <= m * p < 1024 * p
  {
    assert m * p == p + (m - 1) * p;
    assert 1024 * p == m * p + (1024 - m) * p;
    assert (1024 - m) * p >= p;
  }

  lemma DivExact(x: int, d: int, q: int, r: int)
    requires d > 0 && 0 <= r < d && x == d * q + r
    ensures x / d == q
  {
    var q', r' := x / d, x % d;
    assert d * (q' - q) == r - r';
    if q' > q {
      MulAtLeast(d, q' - q);
    } else if q' < q {
      MulAtLeast(d, q - q');
    }
  }

  lemma MulAtLeast(d: int, k: int)
    requires d > 0 && k >= 1
    ensures d * k >= d
  {
    assert d * k == d * (k - 1) + d;
  }

  /** `formatBytes(m * 1024^i) == m + " " + unit` for a whole `m` in `[1, 1024)` and `i <= 3`. */
  lemma FormatBytesOfExactMultiple(m: nat, i: nat)
    requires 1 <= m < 1024 && i <= 3
    ensures m * Pow1024(i) < Pow1024(4)
    ensures FormatBytes(m * Pow1024(i)) == Text.NatToString(m) + " " + Units[i]
  {
    var p := Pow1024(i);
    var bytes := m * p;
    assert p <= bytes < Pow1024(i + 1) by {
      MultipleInUnitRange(m, p);
    }
    assert bytes < Pow1024(4) by {
      PowMonotone(i + 1, 4);
    }
    assert UnitIndex(bytes) == i by {
      UnitIndexUnique(bytes, i);
    }
    assert RoundedHundredths(bytes, p) == 100 * m by {
      var x := 200 * bytes + p;
      assert x == (2 * p) * (100 * m) + p;
      DivExact(x, 2 * p, 100 * m, p);
    }
    assert HundredthsToString(100 * m) == Text.NatToString(m) by {
      assert (100 * m) / 100 == m && (100 * m) % 100 == 0;
    }
  }

  lemma DivBounds(x: int, d: int, lo: int, hi: int)
    requires d > 0 && d * lo <= x < d * (hi + 1)
    ensures lo <= x / d <= hi
  {
    var q, r := x / d, x % d;
    assert x == d * q + r;
    if q < lo {
      MulAtLeast(d, lo - q);
    } else if q > hi {
      MulAtLeast(d, q - hi);
    }
  }

  /**
   * The number shown is between 1 and 1024 in its unit: rounding to two
   * decimals can reach 1024 itself, just below a unit boundary.
   */
  lemma FormatBytesValueBounds(bytes: nat)
    requires 1 <= bytes
    ensures var p := Pow1024(UnitIndex(bytes)); 100 <= RoundedHundredths(bytes, p) <= 102400
  {
    var p := Pow1024(UnitIndex(bytes));
    var x := 200 * bytes + p;
    assert 2 * p * 100 <= x < 2 * p * (102400 + 1) by {
      assert Pow1024(UnitIndex(bytes) + 1) == 1024 * p;
    }
    DivBounds(x, 2 * p, 100, 102400);
  }

  /** One byte short of a megabyte is shown as 1024 kilobytes rather than as 1 MB. */
  lemma FormatBytesJustBelowMegabyte()
    ensures FormatBytes(1024 * 1024 - 1) == "1024 KB"
  {
    assert Pow1024(1) == 1024;
    assert Pow1024(2) == 1024 * 1024;
    UnitIndexUnique(1024 * 1024 - 1, 1);
    assert RoundedHundredths(1024 * 1024 - 1, 1024) == 102400;
    assert Text.NatToString(1024) == "1024";
  }

  /** The byte-sized examples of the formatBytes tests. */
  lemma FormatBytesSmallExamples()
    ensures FormatBytes(0) == "0 B"
    ensures FormatBytes(512) == "512 B"
  {
    FormatBytesOfExactMultiple(512, 0);
    assert Text.NatToString(512) == "512";
  }

  /** The one-unit examples of the formatBytes tests. */
  lemma FormatBytesUnitExamples()
    ensures FormatBytes(1024) == "1 KB"
    ensures FormatBytes(1024 * 1024) == "1 MB"
    ensures FormatBytes(1024 * 1024 * 1024) == "1 GB"
  {
    assert Pow1024(1) == 1024;
    assert Pow1024(2) == 1024 * 1024;
    assert Pow1024(3) == 1024 * 1024 * 1024;
    FormatBytesOfExactMultiple(1, 1);
    FormatBytesOfExactMultiple(1, 2);
    FormatBytesOfExactMultiple(1, 3);
  }

  // ---------------------------------------------------------------------------
  // getTimeAgo
  // ---------------------------------------------------------------------------

  /** A relative label, or the fallback `past.toLocaleDateString()`, whose text depends on the locale. */
  datatype TimeAgo = Relative(text: string) | LocaleDate

  /** `getTimeAgo`, given the whole seconds elapsed since the date. */
  function GetTimeAgo(secondsAgo: int): (r: TimeAgo)
    ensures secondsAgo < 60 <==> r == Relative("just now")
    ensures secondsAgo >= 7 * 24 * 3600 <==> r == LocaleDate
  {
    if secondsAgo < 60 then Relative("just now")
    else
      var minutesAgo := secondsAgo / 60;
      if minutesAgo < 60 then Relative(Text.NatToString(minutesAgo) + "m ago")
      else
        var hoursAgo := minutesAgo / 60;
        if hoursAgo < 24 then Relative(Text.NatToString(hoursAgo) + "h ago")
        else
          var daysAgo := hoursAgo / 24;
          if daysAgo < 7 then Relative(Text.NatToString(daysAgo) + "d ago")
          else LocaleDate
  }

  lemma HoursFromSeconds(s: nat)
    ensures s / 60 / 60 == s / 3600
  {
  }

  lemma DaysFromSeconds(s: nat)
    ensures s / 60 / 60 / 24 == s / 86400
  {
    HoursFromSeconds(s);
  }

  /**
   * The ladder of `getTimeAgo`: each band reports the elapsed time, rounded
   * down, in its own unit.
   */
  lemma TimeAgoLadder(s: int)
    ensures 60 <= s < 3600 ==> GetTimeAgo(s) == Relative(Text.NatToString(s / 60) + "m ago")
    ensures 3600 <= s < 86400 ==> GetTimeAgo(s) == Relative(Text.NatToString(s / 3600) + "h ago")
    ensures 86400 <= s < 604800 ==> GetTimeAgo(s) == Relative(Text.NatToString(s / 86400) + "d ago")
  {
    if s >= 60 {
      HoursFromSeconds(s);
      DaysFromSeconds(s);
    }
  }

  /** The examples of the getTimeAgo tests. */
  lemma TimeAgoExamples()
    ensures GetTimeAgo(0) == Relative("just now") && GetTimeAgo(30) == Relative("just now")
    ensures GetTimeAgo(5 * 60) == Relative("5m ago")
    ensures GetTimeAgo(2 * 3600) == Relative("2h ago")
    ensures GetTimeAgo(3 * 86400) == Relative("3d ago")
    ensures GetTimeAgo(10 * 86400) == LocaleDate
  {
  }
}
