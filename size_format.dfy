/**
 * The size report printed after a successful conversion: the output size in
 * the largest binary unit (GB, MB, KB) it reaches, or in bytes below 1024.
 */
module SizeFormat {
  import opened Wrappers
  import opened Decimal

  const KiB: nat := 1024
  const MiB: nat := 1024 * 1024
  const GiB: nat := 1024 * 1024 * 1024

  datatype Unit = Bytes | KB | MB | GB

  /** How many bytes one of the unit stands for. */
  function UnitSize(u: Unit): nat {
    match u
    case Bytes => 1
    case KB => KiB
    case MB => MiB
    case GB => GiB
  }

  /** The name printed after the number. */
  function UnitName(u: Unit): string {
    match u
    case Bytes => "B"
    case KB => "KB"
    case MB => "MB"
    case GB => "GB"
  }

  /** `video_encoder.py`, lines 169-176: the first threshold the size reaches, from the largest down. */
  function UnitFor(size: int): (u: Unit)
    ensures u != Bytes ==> UnitSize(u) <= size
    ensures forall v :: UnitSize(u) < UnitSize(v) ==> size < UnitSize(v)
  {
    if size >= GiB then GB
    else if size >= MiB then MB
    else if size >= KiB then KB
    else Bytes
  }

  /**
   * The size text: the size divided by the unit, through `show1` (Python's
   * `:.1f`), then the unit name; below 1024 the exact byte count as `str`
   * prints it, then ` B`.
   */
  function SizeText(size: int, show1: real -> string): (text: string)
    ensures var unit := " " + UnitName(UnitFor(size)); |unit| <= |text| && text[|text| - |unit|..] == unit
  {
    match UnitFor(size)
    case GB => show1(size as real / GiB as real) + " GB"
    case MB => show1(size as real / MiB as real) + " MB"
    case KB => show1(size as real / KiB as real) + " KB"
    case Bytes => Show(size) + " B"
  }

  /** Each unit is chosen on exactly its own range of sizes. */
  lemma UnitRanges(size: int)
    ensures UnitFor(size) == GB <==> GiB <= size
    ensures UnitFor(size) == MB <==> MiB <= size < GiB
    ensures UnitFor(size) == KB <==> KiB <= size < MiB
    ensures UnitFor(size) == Bytes <==> size < KiB
  {
    var u := UnitFor(size);
    assert UnitSize(GB) == GiB && UnitSize(MB) == MiB && UnitSize(KB) == KiB;
    assert u == Bytes || u == KB || u == MB || u == GB;
  }

  /**
   * From 1024 bytes on, the text is the size divided by its unit, formatted,
   * then the unit's name; that number lies in [1, 1024) before KB or MB and
   * is at least 1 before GB.
   */
  lemma ScaledValue(size: int, show1: real -> string)
    requires UnitFor(size) != Bytes
    ensures SizeText(size, show1)
      == show1(size as real / UnitSize(UnitFor(size)) as real) + " " + UnitName(UnitFor(size))
    ensures 1.0 <= size as real / UnitSize(UnitFor(size)) as real
    ensures UnitFor(size) != GB ==> size as real / UnitSize(UnitFor(size)) as real < 1024.0
  {
    UnitRanges(size);
    var d := UnitSize(UnitFor(size));
    assert d as real <= size as real;
    if UnitFor(size) != GB {
      assert size < 1024 * d;
      assert size as real < 1024.0 * d as real;
    }
  }

  /** A size below 1024 bytes is printed as its exact count, which reads back as the size. */
  lemma BytesText(size: int, show1: real -> string)
    requires 0 <= size < KiB
    ensures SizeText(size, show1) == Show(size) + " B"
    ensures Parse(SizeText(size, show1)[..|SizeText(size, show1)| - 2]) == Some(size)
  {
    var text := SizeText(size, show1);
    assert text[..|text| - 2] == Show(size);
    ShowParse(size);
  }

  lemma ExampleSizes(show1: real -> string)
    ensures SizeText(500, show1) == "500 B"
    ensures SizeText(2048, show1) == show1(2.0) + " KB"
    ensures SizeText(5 * 1024 * 1024, show1) == show1(5.0) + " MB"
    ensures SizeText(3 * 1024 * 1024 * 1024, show1) == show1(3.0) + " GB"
  {
  }
}
