/**
 * The unit selection of `formatFileSize`, shared by the upload widget and
 * the gallery: zero is the literal "0 Bytes"; otherwise the unit index is
 * the integer logarithm of the size to base 1024 and picks a name from a
 * four-entry table, with no clamp on the index.
 */
module FileSize {

  const Sizes: seq<string> := ["Bytes", "KB", "MB", "GB"]

  function Pow(b: nat, e: nat): nat
  {
    if e == 0 then 1 else b * Pow(b, e - 1)
  }

  lemma {:induction false} PowMonotone(b: nat, e: nat, f: nat)
    requires b >= 1 && e <= f
    ensures Pow(b, e) <= Pow(b, f)
    decreases f
  {
    if e < f {
      PowMonotone(b, e, f - 1);
      assert Pow(b, f) == b * Pow(b, f - 1) >= Pow(b, f - 1);
    }
  }

  /**
   * `Math.floor(Math.log(bytes) / Math.log(1024))` in exact arithmetic:
   * the exponent of the largest power of 1024 not above `bytes`.
   */
  function UnitIndex(bytes: nat): (i: nat)
    requires bytes >= 1
    ensures Pow(1024, i) <= bytes < Pow(1024, i + 1)
  {
    if bytes < 1024 then 0
    else
      var i := 1 + UnitIndex(bytes / 1024);
      ScaleBounds(bytes, Pow(1024, i - 1));
      i
  }

  lemma ScaleBounds(bytes: nat, p: nat)
    requires p <= bytes / 1024 < 1024 * p
    ensures 1024 * p <= bytes < 1024 * (1024 * p)
  {
    assert bytes == 1024 * (bytes / 1024) + bytes % 1024;
  }

  /** The unit index is the only exponent whose power band holds `bytes`. */
  lemma UnitIndexUnique(bytes: nat, i: nat)
    requires bytes >= 1
    requires Pow(1024, i) <= bytes < Pow(1024, i + 1)
    ensures i == UnitIndex(bytes)
  {
    var k := UnitIndex(bytes);
    if i < k {
      PowMonotone(1024, i + 1, k);
    } else if k < i {
      PowMonotone(1024, k + 1, i);
    }
  }

  /** What `formatFileSize` shows: a fixed text, or a size as `bytes / divisor` and a unit. */
  datatype FormattedSize = Literal(text: string) | Scaled(divisor: nat, unit: string)

  /**
   * `formatFileSize` as written: `sizes[i]` past the end of the table is
   * JavaScript's `undefined`, which the concatenation spells out.
   */
  function FormatFileSize(bytes: nat): (r: FormattedSize)
    ensures r.Literal? <==> bytes == 0
    ensures r.Scaled? ==> r.divisor == Pow(1024, UnitIndex(bytes)) && r.divisor <= bytes < 1024 * r.divisor
    ensures r.Scaled? ==> (r.unit in Sizes <==> bytes < Pow(1024, 4))
  {
    if bytes == 0 then Literal("0 Bytes")
    else
      var i := UnitIndex(bytes);
      if i < |Sizes| then
        PowMonotone(1024, i + 1, 4);
        Scaled(Pow(1024, i), Sizes[i])
      else
        PowMonotone(1024, 4, i);
        Scaled(Pow(1024, i), "undefined")
  }

  /**
   * Below 1024^4 bytes the divisor is the largest power of 1024 not above
   * the size, so the exact quotient bytes / divisor lies in [1, 1024), and
   * the unit names that power. (The page rounds that quotient to two
   * decimals, which can reach 1024.)
   */
  lemma FormatFileSizeBelowTebibyte(bytes: nat)
    requires 1 <= bytes < Pow(1024, 4)
    ensures FormatFileSize(bytes).Scaled?
    ensures FormatFileSize(bytes).divisor == Pow(1024, UnitIndex(bytes))
    ensures FormatFileSize(bytes).divisor <= bytes < 1024 * FormatFileSize(bytes).divisor
    ensures UnitIndex(bytes) < 4 && FormatFileSize(bytes).unit == Sizes[UnitIndex(bytes)]
  {
    var i := UnitIndex(bytes);
    if i >= 4 {
      PowMonotone(1024, 4, i);
    }
  }

  lemma FormatFileSizeZero()
    ensures FormatFileSize(0) == Literal("0 Bytes")
  {
  }

  /** 1048576 bytes is shown as 1 MB. */
  lemma FormatFileSizeOneMebibyte()
    ensures FormatFileSize(1048576) == Scaled(1048576, "MB")
  {
    assert Pow(1024, 2) == 1048576 && Pow(1024, 3) == 1073741824;
    UnitIndexUnique(1048576, 2);
  }

  /** As written, 1024^4 bytes has the unit `undefined`. */
  lemma FormatFileSizeTebibyte()
    ensures FormatFileSize(Pow(1024, 4)).unit == "undefined"
  {
    assert Pow(1024, 4) == 1099511627776 && Pow(1024, 5) == 1125899906842624;
    UnitIndexUnique(Pow(1024, 4), 4);
  }

  /** The intended behaviour: the index clamped to the last unit of the table. */
  function FormatFileSizeClamped(bytes: nat): (r: FormattedSize)
    ensures r.Scaled? ==> r.unit in Sizes && r.divisor <= bytes
    ensures bytes < Pow(1024, 4) ==> r == FormatFileSize(bytes)
    ensures bytes >= Pow(1024, 3) ==> r == Scaled(Pow(1024, 3), "GB")
  {
    if bytes == 0 then Literal("0 Bytes")
    else
      var i := UnitIndex(bytes);
      if i < |Sizes| then Scaled(Pow(1024, i), Sizes[i])
      else
        PowMonotone(1024, 3, i);
        PowMonotone(1024, 4, i);
        Scaled(Pow(1024, 3), "GB")
  }
}
