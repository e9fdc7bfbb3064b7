/** Choosing the unit in which a byte count is shown to people
    (pkg/util/bytes.go). Units are decimal. */
module Bytes {
  import Decimal

  const KB: int := 1000
  const MB: int := KB * 1000
  const GB: int := MB * 1000

  datatype Unit = ByteUnit | KiloByte | MegaByte | GigaByte

  /** The number of bytes in one `u`. */
  function Size(u: Unit): int {
    match u
    case ByteUnit => 1
    case KiloByte => KB
    case MegaByte => MB
    case GigaByte => GB
  }

  /** The label printed after the count. */
  function Label(u: Unit): string {
    match u
    case ByteUnit => "Bytes"
    case KiloByte => "KB"
    case MegaByte => "MB"
    case GigaByte => "GB"
  }

  /** What ToHumanReadableBytes prints: a whole count of a unit (`%d`), or the
      byte value shown as a fraction of a unit (`%.3f`, whose digits are not
      modelled). */
  datatype Rendering = Whole(count: int, unit: Unit) | Fraction(bytes: int, unit: Unit)

  /** ToHumanReadableBytes's switch: below 1000 bytes the raw count; strictly
      between the unit bounds KB or MB; every other value, which includes exactly
      1000 and exactly 10^6, falls to the GB branch. A unit is printed whole
      when the value is an exact multiple of it. */
  function ToHumanReadableBytes(v: int): (r: Rendering)
    ensures v < KB ==> r == Whole(v, ByteUnit)
    ensures KB < v < MB ==> r.unit == KiloByte
    ensures MB < v < GB ==> r.unit == MegaByte
    ensures v == KB || v == MB || v >= GB ==> r.unit == GigaByte
    ensures r.Whole? ==> r.count * Size(r.unit) == v
    ensures r.Fraction? ==> r.bytes == v && v % Size(r.unit) != 0
  {
    if v < KB then Whole(v, ByteUnit)
    else
      var u := if KB < v < MB then KiloByte else if MB < v < GB then MegaByte else GigaByte;
      if v % Size(u) == 0 then Whole(v / Size(u), u) else Fraction(v, u)
  }

  /** A count shown in unit `u` reads as at least one unit and, below the
      largest unit, fewer than a thousand of them. */
  predicate InScale(v: int, u: Unit) {
    && Size(u) <= v
    && (u != GigaByte ==> v < Size(u) * 1000)
  }

  /** The switch as written fails the scale exactly at the unit bounds: one
      kilobyte and one megabyte are shown as a small fraction of a gigabyte
      (`0.000 GB`, `0.001 GB`). */
  lemma BoundsShownAsGigabytes(v: int)
    requires KB <= v < GB
    ensures !InScale(v, ToHumanReadableBytes(v).unit) <==> v == KB || v == MB
    ensures v == KB || v == MB ==> ToHumanReadableBytes(v) == Fraction(v, GigaByte)
  {
    if v == KB || v == MB {
      assert v % GB == v;
    }
  }

  /** ToHumanReadableBytes with the lower bounds included, as the cases'
      ranges evidently intend: one kilobyte is `1 KB`. */
  function ToHumanReadableBytesIntended(v: int): (r: Rendering)
    ensures v < KB ==> r == Whole(v, ByteUnit)
    ensures v >= KB ==> InScale(v, r.unit)
    ensures r.Whole? ==> r.count * Size(r.unit) == v
    ensures r.Fraction? ==> r.bytes == v && v % Size(r.unit) != 0
    ensures v != KB && v != MB ==> r == ToHumanReadableBytes(v)
  {
    if v < KB then Whole(v, ByteUnit)
    else
      var u := if v < MB then KiloByte else if v < GB then MegaByte else GigaByte;
      if v % Size(u) == 0 then Whole(v / Size(u), u) else Fraction(v, u)
  }

  /** The whole-count text, `"<count> <label>"`; fractions are left to the
      floating-point formatter. */
  function Text(r: Rendering): (s: string)
    requires r.Whole?
  {
    Decimal.Itoa(r.count) + " " + Label(r.unit)
  }
}
