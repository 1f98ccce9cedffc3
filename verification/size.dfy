/** The size column: how many times a byte count is divided by 1024, the
    rounding to two decimals, and the unit word chosen from that count.
    Arithmetic is on exact reals in place of 32-bit floats. */
module Size {
  import opened Files

  function Pow1024(k: nat): (p: nat)
    ensures p >= 1
  {
    if k == 0 then 1 else 1024 * Pow1024(k - 1)
  }

  lemma {:induction false} Pow1024Monotonic(j: nat, k: nat)
    requires j <= k
    ensures Pow1024(j) <= Pow1024(k)
  {
    if j < k {
      Pow1024Monotonic(j, k - 1);
    }
  }

  /** `size` is in the band of unit `c`: below 1024^(c+1), and at least
      1024^c unless `c` is the byte unit. */
  predicate InBand(size: nat, c: nat)
  {
    (c == 0 || Pow1024(c) <= size) && size < Pow1024(c + 1)
  }

  /** How many times the size loop divides by 1024 before the value drops
      below 1024. */
  function UnitCount(size: nat): (c: nat)
    ensures InBand(size, c)
  {
    if size < 1024 then 0
    else
      var q := size / 1024;
      var c := UnitCount(q);
      assert 1024 * q <= size < 1024 * (q + 1);
      assert 1024 * (q + 1) <= 1024 * Pow1024(c + 1);
      assert c == 0 ==> 1024 <= size;
      assert c > 0 ==> 1024 * Pow1024(c) <= 1024 * q;
      1 + c
  }

  /** A size lies in exactly one band. */
  lemma UnitCountUnique(size: nat, c: nat)
    requires InBand(size, c)
    ensures c == UnitCount(size)
  {
    var u := UnitCount(size);
    if c < u {
      Pow1024Monotonic(c + 1, u);
    } else if u < c {
      Pow1024Monotonic(u + 1, c);
    }
  }

  /** Every power of 1024 not above the size is at most the unit count. */
  lemma {:induction false} UnitCountAtLeast(size: nat, c: nat)
    requires Pow1024(c) <= size
    ensures c <= UnitCount(size)
  {
    if UnitCount(size) < c {
      Pow1024Monotonic(UnitCount(size) + 1, c);
    }
  }

  /** `x` divided by 1024, `k` times over: the value the loop holds after
      `k` turns. */
  function Shrink(x: real, k: nat): (r: real)
    ensures 0.0 <= x ==> 0.0 <= r <= x
  {
    if k == 0 then x else Shrink(x, k - 1) / 1024.0
  }

  /** Comparing a k-fold quotient with 1024^j is comparing the original
      value with 1024^(j+k). */
  lemma {:induction false} ShrinkVsPow(x: real, k: nat, j: nat)
    ensures Shrink(x, k) >= Pow1024(j) as real <==> x >= Pow1024(j + k) as real
  {
    if k > 0 {
      ShrinkVsPow(x, k - 1, j + 1);
      assert Pow1024(j + 1) as real == 1024.0 * (Pow1024(j) as real);
      assert j + 1 + (k - 1) == j + k;
    }
  }

  /** Dividing never makes a non-negative value larger, and one division or
      more makes a positive value smaller. */
  lemma {:induction false} ShrinkBelow(x: real, k: nat)
    requires 0.0 <= x
    ensures 0.0 <= Shrink(x, k) <= x
    ensures 0.0 < x && 0 < k ==> Shrink(x, k) < x
  {
    if k > 0 {
      ShrinkBelow(x, k - 1);
    }
  }

  /** `x` multiplied by 1024, `k` times over: what a quantity in the unit
      1024^k amounts to in bytes. */
  function Grow(x: real, k: nat): real
  {
    if k == 0 then x else Grow(x, k - 1) * 1024.0
  }

  lemma {:induction false} GrowOfQuotient(y: real, k: nat)
    ensures Grow(y / 1024.0, k) * 1024.0 == Grow(y, k)
  {
    if k > 0 {
      GrowOfQuotient(y, k - 1);
    }
  }

  /** Multiplying back by 1024 k times undoes k divisions. */
  lemma {:induction false} GrowShrink(x: real, k: nat)
    ensures Grow(Shrink(x, k), k) == x
  {
    if k > 0 {
      GrowShrink(x, k - 1);
      GrowOfQuotient(Shrink(x, k - 1), k - 1);
    }
  }

  /** Dividing 1024^j by 1024 k times leaves 1024^(j-k). */
  lemma {:induction false} ShrinkPow(j: nat, k: nat)
    requires k <= j
    ensures Shrink(Pow1024(j) as real, k) == Pow1024(j - k) as real
  {
    if k > 0 {
      ShrinkPow(j, k - 1);
      assert Pow1024(j - k + 1) as real == 1024.0 * (Pow1024(j - k) as real);
    }
  }

  /** The size divided by 1024 as many times as the loop does. */
  function Scaled(size: nat): (x: real)
    ensures 0.0 <= x < 1024.0
    ensures x <= size as real
  {
    var c := UnitCount(size);
    ShrinkVsPow(size as real, c, 1);
    assert Pow1024(1) == 1024 && 1 + c == c + 1;
    ShrinkBelow(size as real, c);
    Shrink(size as real, c)
  }

  /** The division loop of show_size: `count` is the number of divisions and
      `newSize` what is left of the size after them. */
  method CountUnits(size: U64) returns (count: nat, newSize: real)
    ensures count == UnitCount(size)
    ensures newSize == Scaled(size)
    ensures newSize < 1024.0
  {
    count := 0;
    newSize := size as real;
    while newSize >= 1024.0
      invariant newSize == Shrink(size as real, count)
      invariant count == 0 || Pow1024(count) <= size
      decreases size - Pow1024(count)
    {
      ShrinkVsPow(size as real, count, 1);
      assert Pow1024(1) == 1024 && 1 + count == count + 1;
      newSize := newSize / 1024.0;
      count := count + 1;
    }
    ShrinkVsPow(size as real, count, 1);
    assert Pow1024(1) == 1024 && 1 + count == count + 1;
    UnitCountUnique(size, count);
  }

  /** `f32::round`: the nearest integer, halves away from zero. */
  function RoundHalfAway(y: real): (k: int)
    ensures y - 0.5 <= k as real <= y + 0.5
    ensures 0.0 <= y ==> 0 <= k && y - 0.5 < k as real
  {
    if y >= 0.0 then (y + 0.5).Floor else -((-y + 0.5).Floor)
  }

  /** `(x * 100.0).round() / 100.0`: `x` to two decimals. */
  function Round2(x: real): (r: real)
    ensures (r * 100.0).Floor as real == r * 100.0
    ensures x >= 0.0 ==> 0.0 <= r && x - 0.005 < r <= x + 0.005
  {
    var k := RoundHalfAway(x * 100.0);
    assert (k as real / 100.0) * 100.0 == k as real;
    k as real / 100.0
  }

  /** The unit words, indexed by division count. */
  const Units: seq<string> := [" bytes", " kb", " mb", " gb", " tb"]

  /** The `match count` of show_size: a count past the table falls back to
      bytes. */
  function UnitSuffix(count: nat): (s: string)
    ensures s in Units
    ensures count < |Units| ==> s == Units[count]
    ensures count >= |Units| ==> s == " bytes"
  {
    match count
    case 0 => " bytes"
    case 1 => " kb"
    case 2 => " mb"
    case 3 => " gb"
    case 4 => " tb"
    case _ => " bytes"
  }

  /** The size column of one entry. `formatNumber` stands for
      `f32::to_string`; kinds other than File show a placeholder. */
  method ShowSize(f: FileEntry, formatNumber: real -> string) returns (s: string)
    ensures f.fileType != File ==> s == "..."
    ensures f.fileType == File ==> s == formatNumber(Round2(Scaled(f.size))) + UnitSuffix(UnitCount(f.size))
  {
    match f.fileType {
      case File =>
        var count, newSize := CountUnits(f.size);
        newSize := Round2(newSize);
        s := formatNumber(newSize) + UnitSuffix(count);
      case _ =>
        s := "...";
    }
  }

  /** Sizes below 1 KiB are shown in bytes and unscaled; 1024 is 1 kb and
      1536 is 1.5 kb. */
  lemma SizeExamples()
    ensures UnitCount(0) == 0 && Round2(Scaled(0)) == 0.0
    ensures UnitCount(1024) == 1 && Round2(Scaled(1024)) == 1.0
    ensures UnitCount(1536) == 1 && Round2(Scaled(1536)) == 1.5
  {
    assert Scaled(0) == 0.0;
    UnitCountUnique(1024, 1);
    assert Scaled(1024) == 1024.0 / 1024.0 == 1.0;
    UnitCountUnique(1536, 1);
    assert Shrink(1536.0, 1) == Shrink(1536.0, 0) / 1024.0 == 1.5;
    assert Scaled(1536) == 1.5;
  }

  /** The power of 1024 bytes that a unit word stands for. */
  function UnitExponent(suffix: string): (e: nat)
    ensures e <= 4
  {
    if suffix == " kb" then 1
    else if suffix == " mb" then 2
    else if suffix == " gb" then 3
    else if suffix == " tb" then 4
    else 0
  }

  /** Unit word number c stands for 1024^c bytes. */
  lemma UnitExponentOfSuffix(c: nat)
    ensures c < |Units| ==> UnitExponent(UnitSuffix(c)) == c
    ensures |Units| <= c ==> UnitExponent(UnitSuffix(c)) == 0
  {
  }

  /** The number of bytes the printed quantity and unit stand for, before
      rounding. */
  function Denoted(size: nat): real
  {
    Grow(Scaled(size), UnitExponent(UnitSuffix(UnitCount(size))))
  }

  /** As written, the printed quantity and unit mean the actual size exactly
      when the size is below 1 PiB (1024^5 bytes); from there on the unit
      reads "bytes" while the number has been divided by 1024 five or more
      times. */
  lemma {:induction false} DenotedExactBelowPebibyte(size: U64)
    ensures Denoted(size) == size as real <==> size < Pow1024(5)
  {
    if size < Pow1024(5) {
      DenotedBelowPebibyte(size);
    } else {
      DenotedFromPebibyte(size);
    }
  }

  lemma DenotedBelowPebibyte(size: U64)
    requires size < Pow1024(5)
    ensures Denoted(size) == size as real
  {
    var c := UnitCount(size);
    if 5 <= c {
      Pow1024Monotonic(5, c);
    }
    UnitExponentOfSuffix(c);
    GrowShrink(size as real, c);
  }

  lemma DenotedFromPebibyte(size: U64)
    requires Pow1024(5) <= size
    ensures Denoted(size) < size as real
  {
    var c := UnitCount(size);
    UnitCountAtLeast(size, 5);
    Pow1024Monotonic(1, c);
    UnitExponentOfSuffix(c);
    ShrinkBelow(size as real, c);
  }

  /** A file of exactly 1 PiB is shown as "1 bytes". */
  lemma PebibyteShownAsOneByte()
    ensures UnitCount(Pow1024(5)) == 5
    ensures Round2(Scaled(Pow1024(5))) == 1.0
    ensures UnitSuffix(UnitCount(Pow1024(5))) == " bytes"
  {
    UnitCountUnique(Pow1024(5), 5);
    ShrinkPow(5, 5);
    assert Scaled(Pow1024(5)) == 1.0;
  }

  /** Division count with the cap at terabytes. */
  function CappedCount(size: nat): (c: nat)
    ensures c <= 4
  {
    if UnitCount(size) < 4 then UnitCount(size) else 4
  }

  /** The division loop with the evident intent: stop dividing once the
      largest unit, tb, is reached. */
  method CountUnitsCapped(size: U64) returns (count: nat, newSize: real)
    ensures count == CappedCount(size)
    ensures newSize == Shrink(size as real, count)
    ensures count < 4 ==> newSize < 1024.0
  {
    count := 0;
    newSize := size as real;
    while newSize >= 1024.0 && count < 4
      invariant count <= 4
      invariant newSize == Shrink(size as real, count)
      invariant count == 0 || Pow1024(count) <= size
    {
      ShrinkVsPow(size as real, count, 1);
      assert Pow1024(1) == 1024 && 1 + count == count + 1;
      newSize := newSize / 1024.0;
      count := count + 1;
    }
    if count < 4 {
      ShrinkVsPow(size as real, count, 1);
      assert Pow1024(1) == 1024 && 1 + count == count + 1;
      UnitCountUnique(size, count);
    } else {
      UnitCountAtLeast(size, 4);
    }
  }

  /** The number of bytes the corrected quantity and unit stand for. */
  function CappedDenoted(size: nat): real
  {
    var c := CappedCount(size);
    Grow(Shrink(size as real, c), UnitExponent(UnitSuffix(c)))
  }

  /** With the cap, the printed quantity and unit always mean the actual
      size. */
  lemma CappedDenotesSize(size: U64)
    ensures CappedDenoted(size) == size as real
  {
    var c := CappedCount(size);
    UnitExponentOfSuffix(c);
    GrowShrink(size as real, c);
  }
}
