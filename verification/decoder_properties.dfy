/**
 * What the decoder's report means, stated against the buffer: entry order,
 * the Mark fields as bit fields of scan row 0, and the count, sum and mean of
 * every other subcomponent in terms of its sample grid.
 */
module DecoderProperties {
  import opened Wrappers
  import opened BitFields
  import opened IconBuffer
  import opened SampleStats
  import opened DataProcessor

  /**
   * In a decoded non-image buffer, subcomponent `j` of component `i` has its
   * entry at position `Offset(b.comps, i) + j`, carrying both names.
   */
  lemma EntriesInVisitOrder(b: Buffer, es: seq<Entry>, i: nat, j: nat)
    requires WellShaped(b) && b.formatName != ImageFormatName
    requires Decode(b) == Success(es)
    requires i < |b.comps| && j < |b.comps[i].subs|
    ensures Offset(b.comps, i) + j < |es|
    ensures !es[Offset(b.comps, i) + j].Notice?
    ensures es[Offset(b.comps, i) + j].comp == b.comps[i].name
    ensures es[Offset(b.comps, i) + j].sub == b.comps[i].subs[j].name
  {
    DecodeIsDecodeUnits(b);
    UnitEntriesInOrder(b.scans, b.comps, es, i, j);
  }

  /** The visiting-order statement for the decode of the components' subcomponents. */
  lemma UnitEntriesInOrder(scans: nat, cs: seq<Component>, es: seq<Entry>, i: nat, j: nat)
    requires AllShaped(scans, Units(cs)) && DecodeUnits(scans, Units(cs)) == Success(es)
    requires i < |cs| && j < |cs[i].subs|
    ensures Offset(cs, i) + j < |es|
    ensures !es[Offset(cs, i) + j].Notice?
    ensures es[Offset(cs, i) + j].comp == cs[i].name
    ensures es[Offset(cs, i) + j].sub == cs[i].subs[j].name
  {
    var p := Offset(cs, i) + j;
    UnitsOrder(cs, i, j);
    var u := Units(cs)[p];
    assert u == Unit(cs[i].name, cs[i].subs[j]);
    EntryAt(scans, Units(cs), es, p);
    assert es[p].comp == u.comp && es[p].sub == u.sub.name;
  }

  /** Entry `p` of a successful decode is the entry of unit `p`, with its names. */
  lemma EntryAt(scans: nat, us: seq<Unit>, es: seq<Entry>, p: nat)
    requires AllShaped(scans, us) && DecodeUnits(scans, us) == Success(es) && p < |us|
    ensures p < |es|
    ensures !es[p].Notice? && es[p].comp == us[p].comp && es[p].sub == us[p].sub.name
  {
    DecodeUnitsEntries(scans, us);
  }

  /** Word `k` of scan row 0 of a readable Mark subcomponent. */
  function MarkWord(scans: nat, u: Unit, k: nat): int
    requires Shaped(scans, u.sub) && MarkReadable(scans, u.sub) && k < 2
  {
    u.sub.rows[0][k]
  }

  /**
   * The Mark entry: the counter is word 0 of scan row 0 read as a signed
   * 32-bit value, the overtrigger count is bits 16..23 of word 1 and the enable
   * flag is bit 30 of word 1.
   */
  lemma MarkEntryFields(scans: nat, u: Unit)
    requires Shaped(scans, u.sub) && u.sub.name == MarkName && MarkReadable(scans, u.sub)
    ensures DecodeUnit(scans, u).Success?
    ensures DecodeUnit(scans, u).value.MarkLine?
    ensures DecodeUnit(scans, u).value.counter == AsInt32(MarkWord(scans, u, 0))
    ensures Word32(DecodeUnit(scans, u).value.counter) == Word32(MarkWord(scans, u, 0))
    ensures DecodeUnit(scans, u).value.overtrig == Bits16To23(Word32(MarkWord(scans, u, 1)))
    ensures DecodeUnit(scans, u).value.enable == Bit30(Word32(MarkWord(scans, u, 1)))
    ensures 0 <= DecodeUnit(scans, u).value.overtrig <= 255
    ensures 0 <= DecodeUnit(scans, u).value.enable <= 1
  {
    var w1 := MarkWord(scans, u, 1);
    MarkFieldsArePatternBits(AsInt32(w1));
  }

  /**
   * The Mark entry depends only on words 0 and 1 of scan row 0: not on the
   * declared value type, the other rows, the other words or the number of scans.
   */
  lemma MarkReadsOnlyRowZero(scans1: nat, u1: Unit, scans2: nat, u2: Unit)
    requires Shaped(scans1, u1.sub) && Shaped(scans2, u2.sub)
    requires u1.sub.name == MarkName && u2.sub.name == MarkName && u1.comp == u2.comp
    requires MarkReadable(scans1, u1.sub) && MarkReadable(scans2, u2.sub)
    requires u1.sub.rows[0][..2] == u2.sub.rows[0][..2]
    ensures DecodeUnit(scans1, u1) == DecodeUnit(scans2, u2)
  {
    assert u1.sub.rows[0][0] == u1.sub.rows[0][..2][0];
    assert u1.sub.rows[0][1] == u1.sub.rows[0][..2][1];
  }

  /** The row-major samples of a subcomponent's grid. */
  function Samples(scans: nat, s: SubComponent): seq<int>
    requires Shaped(scans, s)
  {
    Flat(s.rows, scans, s.width)
  }

  /**
   * A BYTE, WORD, DWORD or INT subcomponent: the count is the number of nonzero
   * samples of the `scans x width` grid (at most all of them), and the sum is the
   * exact sum of the grid, negative INT samples included.
   */
  lemma ScalarEntry(scans: nat, u: Unit)
    requires Shaped(scans, u.sub) && u.sub.name != MarkName && IsScalar(Classify(u.sub.valueType))
    ensures DecodeUnit(scans, u).Success? && DecodeUnit(scans, u).value.MeanLine?
    ensures DecodeUnit(scans, u).value.tally.count == Nonzero(Samples(scans, u.sub))
    ensures DecodeUnit(scans, u).value.tally.sum == Sum(Samples(scans, u.sub))
    ensures DecodeUnit(scans, u).value.tally.count <= scans * u.sub.width
  {
    var s := Samples(scans, u.sub);
    ScalarTallyMeaning(s);
    CountBound(Scalar, s);
  }

  /**
   * An RGB2 subcomponent: every nonzero word counts three samples, so the count
   * is a multiple of three and at most three per word; the sum is the colour sum
   * of the three upper bytes of all words, at most 255 per counted sample.
   */
  lemma ColourEntry(scans: nat, u: Unit)
    requires Shaped(scans, u.sub) && u.sub.name != MarkName && Classify(u.sub.valueType).Rgb2?
    ensures DecodeUnit(scans, u).Success? && DecodeUnit(scans, u).value.MeanLine?
    ensures DecodeUnit(scans, u).value.tally.count == 3 * Nonzero(Samples(scans, u.sub))
    ensures DecodeUnit(scans, u).value.tally.count % 3 == 0
    ensures DecodeUnit(scans, u).value.tally.count <= 3 * (scans * u.sub.width)
    ensures DecodeUnit(scans, u).value.tally.sum == ColourTotal(Samples(scans, u.sub))
    ensures 0 <= DecodeUnit(scans, u).value.tally.sum <= 255 * DecodeUnit(scans, u).value.tally.count
  {
    var s := Samples(scans, u.sub);
    ColourCountMeaning(s);
    ColourSumMeaning(s);
    CountBound(Colour, s);
    ColourSumBounds(s);
  }

  /**
   * A non-Mark subcomponent whose value type is not FLOAT gets a mean line; its
   * mean is undefined exactly when the value type is unrecognised or every
   * sample of its grid is the missing-data sentinel (in particular when there
   * are no scans or the width is zero).
   */
  lemma NoDataEntry(scans: nat, u: Unit)
    requires Shaped(scans, u.sub) && u.sub.name != MarkName && !Classify(u.sub.valueType).Float?
    ensures DecodeUnit(scans, u).Success? && DecodeUnit(scans, u).value.MeanLine?
    ensures Mean(DecodeUnit(scans, u).value.tally).None? <==>
      Classify(u.sub.valueType).Other? || GridAllZero(u.sub.rows, scans, u.sub.width)
    ensures scans == 0 || u.sub.width == 0 ==> Mean(DecodeUnit(scans, u).value.tally).None?
  {
    var vt := Classify(u.sub.valueType);
    if vt.Rgb2? {
      GridCountZeroIffAllZero(Colour, u.sub.rows, scans, u.sub.width);
    } else if !vt.Other? {
      GridCountZeroIffAllZero(Scalar, u.sub.rows, scans, u.sub.width);
    }
  }

  /**
   * When every counted sample of a BYTE, WORD, DWORD or INT grid lies in
   * `[lo, hi]` and at least one sample is counted, the mean lies in `[lo, hi]`:
   * between the smallest and the largest counted value.
   */
  lemma ScalarMeanBetween(scans: nat, u: Unit, lo: int, hi: int)
    requires Shaped(scans, u.sub) && u.sub.name != MarkName && IsScalar(Classify(u.sub.valueType))
    requires forall i, j :: 0 <= i < scans && 0 <= j < u.sub.width && u.sub.rows[i][j] != 0 ==>
      lo <= u.sub.rows[i][j] <= hi
    requires !GridAllZero(u.sub.rows, scans, u.sub.width)
    ensures DecodeUnit(scans, u).Success? && DecodeUnit(scans, u).value.MeanLine?
    ensures Mean(DecodeUnit(scans, u).value.tally).Some?
    ensures lo as real <= Mean(DecodeUnit(scans, u).value.tally).value <= hi as real
  {
    var t := DecodeUnit(scans, u).value.tally;
    GridCountZeroIffAllZero(Scalar, u.sub.rows, scans, u.sub.width);
    GridScalarBounds(u.sub.rows, scans, u.sub.width, lo, hi);
    MeanBetween(t, lo, hi);
  }

  /**
   * When every colour byte of every counted word of an RGB2 grid lies in
   * `[lo, hi]` and at least one word is counted, the mean lies in `[lo, hi]`:
   * between the smallest and the largest counted colour byte.
   */
  lemma ColourMeanBetween(scans: nat, u: Unit, lo: int, hi: int)
    requires Shaped(scans, u.sub) && u.sub.name != MarkName && Classify(u.sub.valueType).Rgb2?
    requires forall i, j :: 0 <= i < scans && 0 <= j < u.sub.width && u.sub.rows[i][j] != 0 ==>
      ColourBytesWithin(u.sub.rows[i][j], lo, hi)
    requires !GridAllZero(u.sub.rows, scans, u.sub.width)
    ensures DecodeUnit(scans, u).Success? && DecodeUnit(scans, u).value.MeanLine?
    ensures Mean(DecodeUnit(scans, u).value.tally).Some?
    ensures lo as real <= Mean(DecodeUnit(scans, u).value.tally).value <= hi as real
  {
    var t := DecodeUnit(scans, u).value.tally;
    GridCountZeroIffAllZero(Colour, u.sub.rows, scans, u.sub.width);
    GridColourBounds(u.sub.rows, scans, u.sub.width, lo, hi);
    MeanBetween(t, lo, hi);
  }

  /** The mean of an RGB2 subcomponent with a nonzero word lies in `[0, 255]`. */
  lemma ColourMeanIsByte(scans: nat, u: Unit)
    requires Shaped(scans, u.sub) && u.sub.name != MarkName && Classify(u.sub.valueType).Rgb2?
    requires !GridAllZero(u.sub.rows, scans, u.sub.width)
    ensures DecodeUnit(scans, u).Success? && DecodeUnit(scans, u).value.MeanLine?
    ensures Mean(DecodeUnit(scans, u).value.tally).Some?
    ensures 0.0 <= Mean(DecodeUnit(scans, u).value.tally).value <= 255.0
  {
    var t := DecodeUnit(scans, u).value.tally;
    GridCountZeroIffAllZero(Colour, u.sub.rows, scans, u.sub.width);
    ColourSumBounds(Samples(scans, u.sub));
    MeanBetween(t, 0, 255);
  }

  /** The smallest and largest nonzero value of each scalar value type. */
  function TypeBounds(vt: ValueType): (bounds: (int, int))
    requires IsScalar(vt)
    ensures forall v :: InRange(vt, v) && v != 0 ==> bounds.0 <= v <= bounds.1
    ensures InRange(vt, bounds.0) && bounds.0 != 0 && InRange(vt, bounds.1) && bounds.1 != 0
  {
    match vt
    case Byte => (1, 0xFF)
    case Word => (1, 0xFFFF)
    case DWord => (1, 0xFFFF_FFFF)
    case Int => (-0x8000_0000, 0x7FFF_FFFF)
  }

  /**
   * For samples in the range of their declared type, the mean of a BYTE, WORD or
   * DWORD subcomponent is at least 1 and at most the type's largest value, and
   * that of an INT subcomponent lies in the 32-bit signed range.
   */
  lemma InRangeMean(scans: nat, u: Unit)
    requires Shaped(scans, u.sub) && u.sub.name != MarkName && IsScalar(Classify(u.sub.valueType))
    requires SamplesInRange(u.sub)
    requires !GridAllZero(u.sub.rows, scans, u.sub.width)
    ensures Mean(DecodeUnit(scans, u).value.tally).Some?
    ensures TypeBounds(Classify(u.sub.valueType)).0 as real <= Mean(DecodeUnit(scans, u).value.tally).value
    ensures Mean(DecodeUnit(scans, u).value.tally).value <= TypeBounds(Classify(u.sub.valueType)).1 as real
  {
    var vt := Classify(u.sub.valueType);
    var (lo, hi) := TypeBounds(vt);
    forall i, j | 0 <= i < scans && 0 <= j < u.sub.width && u.sub.rows[i][j] != 0
      ensures lo <= u.sub.rows[i][j] <= hi
    {
      assert InRange(vt, u.sub.rows[i][j]);
    }
    ScalarMeanBetween(scans, u, lo, hi);
  }
}
