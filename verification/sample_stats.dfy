/**
 * The zero-skipping sum and count the decoder accumulates over a subcomponent's
 * `numberOfScans x Width` sample grid, and the mean it derives from them.
 * A sample of exactly zero means "missing data" and is not counted.
 */
module SampleStats {
  import opened Wrappers
  import opened BitFields

  /** How a nonzero sample is counted: as one value, or as an RGB2 word of three colour bytes. */
  datatype SampleKind = Scalar | Colour

  /** The running sum and count of the samples retained so far. */
  datatype Tally = Tally(sum: int, count: nat)


  /** What one sample adds to the tally: nothing if it is the missing-data sentinel. */
  function Contribution(k: SampleKind, v: int): (t: Tally)
    ensures v == 0 <==> t.count == 0
    ensures k.Scalar? && v != 0 ==> t.sum == v && t.count == 1
    ensures k.Colour? && v != 0 ==> t.sum == ColourSum(v) && t.count == 3
  {
    if v == 0 then Tally(0, 0)
    else match k
      case Scalar => Tally(v, 1)
      case Colour => Tally(ColourSum(v), 3)
  }

  function Add(a: Tally, b: Tally): Tally
  {
    Tally(a.sum + b.sum, a.count + b.count)
  }

  /** The tally of a sequence of samples, taken in order. */
  function SeqTally(k: SampleKind, s: seq<int>): Tally
  {
    if |s| == 0 then Tally(0, 0)
    else Add(SeqTally(k, s[..|s| - 1]), Contribution(k, s[|s| - 1]))
  }

  /** The grid's rows have at least `n` rows of at least `w` samples. */
  predicate IsGrid(rows: seq<seq<int>>, n: nat, w: nat)
  {
    n <= |rows| && forall i :: 0 <= i < n ==> |rows[i]| >= w
  }

  /** The first `n` rows of the grid, cut to `w` columns, in row-major order. */
  function Flat(rows: seq<seq<int>>, n: nat, w: nat): (s: seq<int>)
    requires IsGrid(rows, n, w)
    ensures |s| == n * w
  {
    if n == 0 then [] else Flat(rows, n - 1, w) + rows[n - 1][..w]
  }

  /** Sample `(i, j)` of the grid sits at position `i * w + j` of the row-major sequence. */
  lemma {:induction false} FlatIndex(rows: seq<seq<int>>, n: nat, w: nat, i: nat, j: nat)
    requires IsGrid(rows, n, w) && i < n && j < w
    ensures i * w + j < n * w
    ensures Flat(rows, n, w)[i * w + j] == rows[i][j]
  {
    if i < n - 1 {
      FlatIndex(rows, n - 1, w, i, j);
      assert (n - 1) * w == n * w - w;
    } else {
      assert i * w == (n - 1) * w;
    }
  }

  /** Appending one sample adds its contribution to the tally. */
  lemma TallySnoc(k: SampleKind, s: seq<int>, v: int)
    ensures SeqTally(k, s + [v]) == Add(SeqTally(k, s), Contribution(k, v))
  {
    assert (s + [v])[..|s|] == s;
  }

  /** Extending a slice of `r` by one element appends that element. */
  lemma AppendSliceStep(p: seq<int>, r: seq<int>, col: nat)
    requires col < |r|
    ensures (p + r[..col]) + [r[col]] == p + r[..col + 1]
  {
    assert r[..col + 1] == r[..col] + [r[col]];
  }

  /** The tally of the decoder's sample grid: every sample of the first `n` scans, `w` per scan. */
  function GridTally(k: SampleKind, rows: seq<seq<int>>, n: nat, w: nat): Tally
    requires IsGrid(rows, n, w)
  {
    SeqTally(k, Flat(rows, n, w))
  }

  /** The plain sum of a sequence. */
  function Sum(s: seq<int>): int
  {
    if |s| == 0 then 0 else Sum(s[..|s| - 1]) + s[|s| - 1]
  }

  /** The total colour sum of a sequence of RGB2 words. */
  function ColourTotal(s: seq<int>): int
  {
    if |s| == 0 then 0 else ColourTotal(s[..|s| - 1]) + ColourSum(s[|s| - 1])
  }

  /** The number of nonzero samples of a sequence. */
  function Nonzero(s: seq<int>): nat
  {
    |s| - multiset(s)[0]
  }

  lemma NonzeroSnoc(s: seq<int>, v: int)
    ensures Nonzero(s + [v]) == Nonzero(s) + (if v == 0 then 0 else 1)
  {
    assert multiset(s + [v]) == multiset(s) + multiset{v};
  }

  lemma NonzeroLast(s: seq<int>)
    requires |s| > 0
    ensures Nonzero(s) == Nonzero(s[..|s| - 1]) + (if s[|s| - 1] == 0 then 0 else 1)
  {
    assert s == s[..|s| - 1] + [s[|s| - 1]];
    NonzeroSnoc(s[..|s| - 1], s[|s| - 1]);
  }

  /**
   * For BYTE, WORD, DWORD and INT samples: the count is the number of nonzero
   * samples, and the sum is the exact sum of all samples (the skipped zeros add nothing).
   */
  lemma {:induction false} ScalarTallyMeaning(s: seq<int>)
    ensures SeqTally(Scalar, s).count == Nonzero(s)
    ensures SeqTally(Scalar, s).sum == Sum(s)
  {
    if |s| > 0 {
      var init := s[..|s| - 1];
      ScalarTallyMeaning(init);
      assert s == init + [s[|s| - 1]];
      NonzeroSnoc(init, s[|s| - 1]);
    }
  }

  /** For RGB2 words: each nonzero word counts three samples. */
  lemma {:induction false} ColourCountMeaning(s: seq<int>)
    ensures SeqTally(Colour, s).count == 3 * Nonzero(s)
  {
    if |s| > 0 {
      var init, v := s[..|s| - 1], s[|s| - 1];
      ColourCountMeaning(init);
      NonzeroLast(s);
      var t, c := SeqTally(Colour, init), Contribution(Colour, v);
      assert SeqTally(Colour, s) == Add(t, c);
      assert c.count == if v == 0 then 0 else 3;
    }
  }

  /** For RGB2 words: the sum is the colour sum of all words (a zero word has colour sum zero). */
  lemma {:induction false} ColourSumMeaning(s: seq<int>)
    ensures SeqTally(Colour, s).sum == ColourTotal(s)
  {
    if |s| > 0 {
      var init, v := s[..|s| - 1], s[|s| - 1];
      ColourSumMeaning(init);
      var t, c := SeqTally(Colour, init), Contribution(Colour, v);
      assert SeqTally(Colour, s) == Add(t, c);
      assert ColourTotal(s) == ColourTotal(init) + ColourSum(v);
      if v == 0 {
        assert ColourSum(0) == 0;
      }
      assert c.sum == ColourSum(v);
    }
  }

  /** Nothing is counted exactly when every sample is the missing-data sentinel. */
  lemma {:induction false} CountZeroIffAllZero(k: SampleKind, s: seq<int>)
    ensures SeqTally(k, s).count == 0 <==> forall i :: 0 <= i < |s| ==> s[i] == 0
  {
    if |s| > 0 {
      var init, v := s[..|s| - 1], s[|s| - 1];
      CountZeroIffAllZero(k, init);
      assert SeqTally(k, s).count == SeqTally(k, init).count + Contribution(k, v).count;
      if forall i :: 0 <= i < |s| ==> s[i] == 0 {
        forall i | 0 <= i < |init|
          ensures init[i] == 0
        {
          assert init[i] == s[i];
        }
      } else if v == 0 {
        var i :| 0 <= i < |s| && s[i] != 0;
        assert init[i] != 0;
      }
    }
  }

  /** The count never exceeds the number of samples read (three per RGB2 word). */
  lemma {:induction false} CountBound(k: SampleKind, s: seq<int>)
    ensures k.Scalar? ==> SeqTally(k, s).count <= |s|
    ensures k.Colour? ==> SeqTally(k, s).count <= 3 * |s| && SeqTally(k, s).count % 3 == 0
  {
    if |s| > 0 {
      CountBound(k, s[..|s| - 1]);
    }
  }

  /**
   * If every counted scalar sample lies in `[lo, hi]`, the sum lies between
   * `count * lo` and `count * hi`; negative samples are counted like any other.
   */
  lemma {:induction false} ScalarSumBounds(s: seq<int>, lo: int, hi: int)
    requires forall i :: 0 <= i < |s| && s[i] != 0 ==> lo <= s[i] <= hi
    ensures SeqTally(Scalar, s).count * lo <= SeqTally(Scalar, s).sum <= SeqTally(Scalar, s).count * hi
  {
    if |s| > 0 {
      var init, v := s[..|s| - 1], s[|s| - 1];
      forall i | 0 <= i < |init| && init[i] != 0
        ensures lo <= init[i] <= hi
      {
        assert init[i] == s[i];
      }
      ScalarSumBounds(init, lo, hi);
      var t := SeqTally(Scalar, init);
      assert SeqTally(Scalar, s) == Add(t, Contribution(Scalar, v));
      if v != 0 {
        BoundStep(t.count, t.sum, v, lo, hi);
      }
    }
  }

  /** Adding one sample in `[lo, hi]` keeps the sum between `count * lo` and `count * hi`. */
  lemma {:induction false} BoundStep(c: nat, sum: int, v: int, lo: int, hi: int)
    requires c * lo <= sum <= c * hi
    requires lo <= v <= hi
    ensures (c + 1) * lo <= sum + v <= (c + 1) * hi
  {
    MulSucc(c, lo);
    MulSucc(c, hi);
  }

  lemma {:induction false} MulSucc(c: int, x: int)
    ensures (c + 1) * x == c * x + x
  {
  }

  /** Each counted colour byte lies in `[0, 255]`, so the sum lies in `[0, 255 * count]`. */
  lemma {:induction false} ColourSumBounds(s: seq<int>)
    ensures 0 <= SeqTally(Colour, s).sum <= 255 * SeqTally(Colour, s).count
  {
    if |s| > 0 {
      ColourSumBounds(s[..|s| - 1]);
    }
  }

  /**
   * If every colour byte of every counted RGB2 word lies in `[lo, hi]`, the sum
   * lies between `count * lo` and `count * hi`.
   */
  lemma {:induction false} ColourSumBetween(s: seq<int>, lo: int, hi: int)
    requires forall i :: 0 <= i < |s| && s[i] != 0 ==> ColourBytesWithin(s[i], lo, hi)
    ensures SeqTally(Colour, s).count * lo <= SeqTally(Colour, s).sum <= SeqTally(Colour, s).count * hi
  {
    if |s| > 0 {
      var init, v := s[..|s| - 1], s[|s| - 1];
      forall i | 0 <= i < |init| && init[i] != 0
        ensures ColourBytesWithin(init[i], lo, hi)
      {
        assert init[i] == s[i];
      }
      ColourSumBetween(init, lo, hi);
      var t := SeqTally(Colour, init);
      assert SeqTally(Colour, s) == Add(t, Contribution(Colour, v));
      if v != 0 {
        ColourBoundStep(t, v, lo, hi);
      }
    }
  }

  /** Adding one counted RGB2 word whose colour bytes lie in `[lo, hi]` keeps the tally's sum within bounds. */
  lemma {:induction false} ColourBoundStep(t: Tally, v: int, lo: int, hi: int)
    requires t.count * lo <= t.sum <= t.count * hi
    requires v != 0 && ColourBytesWithin(v, lo, hi)
    ensures Add(t, Contribution(Colour, v)).count * lo <= Add(t, Contribution(Colour, v)).sum
    ensures Add(t, Contribution(Colour, v)).sum <= Add(t, Contribution(Colour, v)).count * hi
  {
    var b, g, r := Blue(v), Green(v), Red(v);
    assert Add(t, Contribution(Colour, v)) == Tally(t.sum + b + g + r, t.count + 3);
    BoundStep(t.count, t.sum, b, lo, hi);
    BoundStep(t.count + 1, t.sum + b, g, lo, hi);
    BoundStep(t.count + 2, t.sum + b + g, r, lo, hi);
  }

  /** The three colour bytes of an RGB2 word all lie in `[lo, hi]`. */
  predicate ColourBytesWithin(v: int, lo: int, hi: int)
  {
    lo <= Blue(v) <= hi && lo <= Green(v) <= hi && lo <= Red(v) <= hi
  }

  /**
   * An RGB2 word that is nonzero only in its low byte adds nothing to the sum,
   * yet counts as three values.
   */
  lemma LowByteIgnored(pad: int)
    requires 0 <= pad < Two8
    ensures Contribution(Colour, pad) == Tally(0, if pad == 0 then 0 else 3)
  {
  }

  /** The mean of the retained samples; undefined (`None`, NaN in floating point) when none were retained. */
  function Mean(t: Tally): (m: Option<real>)
    ensures m.None? <==> t.count == 0
    ensures m.Some? ==> m.value * t.count as real == t.sum as real
  {
    if t.count == 0 then None else Some(t.sum as real / t.count as real)
  }

  /** A mean of samples that all lie in `[lo, hi]` lies in `[lo, hi]`. */
  lemma MeanBetween(t: Tally, lo: int, hi: int)
    requires t.count * lo <= t.sum <= t.count * hi
    requires t.count > 0
    ensures Mean(t).Some?
    ensures lo as real <= Mean(t).value <= hi as real
  {
    var c := t.count as real;
    assert (t.count * lo) as real == c * lo as real;
    assert (t.count * hi) as real == c * hi as real;
    assert Mean(t).value * c == t.sum as real;
  }

  /** Every sample of the first `n` rows, `w` per row, is zero. */
  predicate GridAllZero(rows: seq<seq<int>>, n: nat, w: nat)
    requires IsGrid(rows, n, w)
  {
    forall i, j :: 0 <= i < n && 0 <= j < w ==> rows[i][j] == 0
  }

  /** `v` is one of the samples of the first `n` rows, `w` per row. */
  ghost predicate InGrid(rows: seq<seq<int>>, n: nat, w: nat, v: int)
    requires IsGrid(rows, n, w)
  {
    exists i, j :: 0 <= i < n && 0 <= j < w && v == rows[i][j]
  }

  /** Every element of the row-major sequence is a sample of the grid. */
  lemma {:induction false} FlatMembers(rows: seq<seq<int>>, n: nat, w: nat)
    requires IsGrid(rows, n, w)
    ensures forall p :: 0 <= p < |Flat(rows, n, w)| ==> InGrid(rows, n, w, Flat(rows, n, w)[p])
  {
    if n > 0 {
      FlatMembers(rows, n - 1, w);
      var init := Flat(rows, n - 1, w);
      forall p | 0 <= p < |Flat(rows, n, w)|
        ensures InGrid(rows, n, w, Flat(rows, n, w)[p])
      {
        if p < |init| {
          assert Flat(rows, n, w)[p] == init[p];
          assert InGrid(rows, n - 1, w, init[p]);
          var i, j :| 0 <= i < n - 1 && 0 <= j < w && init[p] == rows[i][j];
        } else {
          assert n * w == (n - 1) * w + w;
          assert Flat(rows, n, w)[p] == rows[n - 1][p - |init|];
        }
      }
    }
  }

  /** The grid's tally counts nothing exactly when every sample of the grid is zero. */
  lemma GridCountZeroIffAllZero(k: SampleKind, rows: seq<seq<int>>, n: nat, w: nat)
    requires IsGrid(rows, n, w)
    ensures GridTally(k, rows, n, w).count == 0 <==> GridAllZero(rows, n, w)
  {
    var s := Flat(rows, n, w);
    CountZeroIffAllZero(k, s);
    if GridTally(k, rows, n, w).count == 0 {
      forall i, j | 0 <= i < n && 0 <= j < w
        ensures rows[i][j] == 0
      {
        FlatIndex(rows, n, w, i, j);
      }
    }
    if GridAllZero(rows, n, w) {
      FlatMembers(rows, n, w);
      forall p | 0 <= p < |s|
        ensures s[p] == 0
      {
        assert InGrid(rows, n, w, s[p]);
      }
    }
  }

  /** If every counted grid sample lies in `[lo, hi]`, the grid's sum lies between `count * lo` and `count * hi`. */
  lemma GridScalarBounds(rows: seq<seq<int>>, n: nat, w: nat, lo: int, hi: int)
    requires IsGrid(rows, n, w)
    requires forall i, j :: 0 <= i < n && 0 <= j < w && rows[i][j] != 0 ==> lo <= rows[i][j] <= hi
    ensures GridTally(Scalar, rows, n, w).count * lo <= GridTally(Scalar, rows, n, w).sum
    ensures GridTally(Scalar, rows, n, w).sum <= GridTally(Scalar, rows, n, w).count * hi
  {
    var s := Flat(rows, n, w);
    FlatMembers(rows, n, w);
    ScalarSumBounds(s, lo, hi);
  }

  /** If every colour byte of every counted grid word lies in `[lo, hi]`, the grid's sum lies between `count * lo` and `count * hi`. */
  lemma GridColourBounds(rows: seq<seq<int>>, n: nat, w: nat, lo: int, hi: int)
    requires IsGrid(rows, n, w)
    requires forall i, j :: 0 <= i < n && 0 <= j < w && rows[i][j] != 0 ==> ColourBytesWithin(rows[i][j], lo, hi)
    ensures GridTally(Colour, rows, n, w).count * lo <= GridTally(Colour, rows, n, w).sum
    ensures GridTally(Colour, rows, n, w).sum <= GridTally(Colour, rows, n, w).count * hi
  {
    var s := Flat(rows, n, w);
    FlatMembers(rows, n, w);
    ColourSumBetween(s, lo, hi);
  }

  /**
   * The decoder's nested loop over scans and columns: every sample of the first
   * `scans` rows, `width` per row, is visited once in row-major order.
   */
  method Accumulate(k: SampleKind, rows: seq<seq<int>>, scans: nat, width: nat) returns (t: Tally)
    requires IsGrid(rows, scans, width)
    ensures t == GridTally(k, rows, scans, width)
  {
    var sum: int := 0;
    var count: nat := 0;
    var scan := 0;
    while scan < scans
      invariant 0 <= scan <= scans
      invariant Tally(sum, count) == SeqTally(k, Flat(rows, scan, width))
    {
      var col := 0;
      assert Flat(rows, scan, width) + rows[scan][..0] == Flat(rows, scan, width);
      while col < width
        invariant 0 <= col <= width
        invariant Tally(sum, count) == SeqTally(k, Flat(rows, scan, width) + rows[scan][..col])
      {
        var v := rows[scan][col];
        ghost var prefix, before := Flat(rows, scan, width) + rows[scan][..col], Tally(sum, count);
        if v != 0 {
          match k
          case Scalar =>
            sum := sum + v;
            count := count + 1;
          case Colour =>
            sum := sum + (Blue(v) + Green(v) + Red(v));
            count := count + 3;
        }
        assert Tally(sum, count) == Add(before, Contribution(k, v));
        TallySnoc(k, prefix, v);
        AppendSliceStep(Flat(rows, scan, width), rows[scan], col);
        col := col + 1;
      }
      assert Flat(rows, scan + 1, width) == Flat(rows, scan, width) + rows[scan][..width];
      scan := scan + 1;
    }
    t := Tally(sum, count);
  }
}
