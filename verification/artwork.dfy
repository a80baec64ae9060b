/**
 * The artwork converter's scan over the oversampled raster, in place on arrays.
 *
 * `ka1[x, y]` is the thresholded raster: x runs over 10 oversampled columns per 5 um stripe,
 * y over 0.5 um cells. One column per stripe (x = 10 * iq) is scanned by the automaton of
 * StripeAutomaton; the cleaned rows go to `kd[iq, y]` as 0 or 255 and the closed runs to the
 * boundary list as nanometre rectangles. Columns outside the first 2*DrcWidth of each stripe
 * are then cleared in `ka1`, and a preview raster is built from `kd` with the same mask.
 */
module Artwork {
  import opened StripeAutomaton

  // Every stripe is 10 oversampled columns wide.

  /** The value the scan writes for a cleaned cell. */
  function Level(feature: bool): int {
    if feature then 255 else 0
  }

  /** Column x of the raster, read along the scan axis. */
  ghost function Column(a: array2<bool>, x: nat): (col: seq<bool>)
    requires x < a.Length0
    reads a
    ensures |col| == a.Length1
    ensures forall y :: 0 <= y < a.Length1 ==> col[y] == a[x, y]
  {
    seq(a.Length1, y requires 0 <= y < a.Length1 reads a => a[x, y])
  }

  /** The raster as a sequence of columns. */
  ghost function Grid(a: array2<bool>): (g: seq<seq<bool>>)
    reads a
    ensures |g| == a.Length0 && forall x :: 0 <= x < |g| ==> g[x] == Column(a, x)
  {
    seq(a.Length0, x requires 0 <= x < a.Length0 reads a => Column(a, x))
  }

  /** The scanned column of every stripe: column 10 * iq for stripe iq. */
  ghost function StripesOf(g: seq<seq<bool>>): (stripes: seq<seq<bool>>)
    ensures |stripes| == |g| / 10
    ensures forall iq :: 0 <= iq < |stripes| ==> stripes[iq] == g[10 * iq]
  {
    seq(|g| / 10, iq requires 0 <= iq < |g| / 10 => g[10 * iq])
  }

  /** The scanned column of every stripe of raster a. */
  ghost function Stripes(a: array2<bool>): seq<seq<bool>>
    reads a
  {
    StripesOf(Grid(a))
  }

  /**
   * Scans stripe iq: the inner loop over y for column 10 * iq. Writes the cleaned row into
   * kd[iq, ..] and returns the rectangles it appends, one per feature run that closes.
   */
  method ScanStripe(ka1: array2<bool>, kd: array2<int>, iq: nat) returns (rects: seq<Rect>)
    requires 10 * iq < ka1.Length0 && 0 < ka1.Length1
    requires iq < kd.Length0 && kd.Length1 == ka1.Length1
    modifies kd
    ensures rects == StripeRects(iq, Column(ka1, 10 * iq))
    ensures forall r, y :: 0 <= r < kd.Length0 && 0 <= y < kd.Length1 ==>
      kd[r, y] == if r == iq then Level(Cleaned(Column(ka1, 10 * iq))[y]) else old(kd[r, y])
  {
    ghost var col := Column(ka1, 10 * iq);
    var gapCounter: nat := InitialBias;
    var gapPol := ka1[iq * 10, 0];
    var y0: nat := 0;  // read only after a feature has opened in this stripe
    rects := [];
    for j := 0 to ka1.Length1
      invariant State(gapPol, gapCounter, y0) == StateAfter(col, j)
      invariant rects == RectsOf(iq, SegmentsUpTo(col, j))
      invariant forall r, y :: 0 <= r < kd.Length0 && 0 <= y < kd.Length1 ==>
        kd[r, y] == if r == iq && y < j then Level(StateAfter(col, y + 1).feature) else old(kd[r, y])
    {
      ghost var before := State(gapPol, gapCounter, y0);
      var pixel := ka1[iq * 10, j];
      if pixel {
        if gapPol {
          kd[iq, j] := 255;
          gapCounter := gapCounter + 1;
        } else if gapCounter >= DrcGap * 2 {
          kd[iq, j] := 255;
          gapCounter := 0;
          gapPol := true;
          y0 := j;
        } else {
          kd[iq, j] := 0;
          gapCounter := gapCounter + 1;
        }
      } else {
        if gapPol {
          if gapCounter >= DrcWidth * 2 {
            kd[iq, j] := 0;
            gapCounter := 0;
            gapPol := false;
            var y1 := j;
            rects := rects + [Rect(iq * 5 * 1000, (iq * 5 + DrcWidth) * 1000, y0 * 500, y1 * 500)];
          } else {
            kd[iq, j] := 255;
            gapCounter := gapCounter + 1;
          }
        } else {
          kd[iq, j] := 0;
          gapCounter := gapCounter + 1;
        }
      }
      assert Closes(before, pixel) ==>
        SegmentsUpTo(col, j + 1) == SegmentsUpTo(col, j) + [Segment(before.start, j)];
      assert !Closes(before, pixel) ==> SegmentsUpTo(col, j + 1) == SegmentsUpTo(col, j);
    }
  }

  /**
   * The main loop over the oversampled columns i: stripes start at i % 10 == 0, and after each
   * column, columns with i % 10 >= 2*DrcWidth are cleared in ka1. kd is allocated as zeros of
   * shape (stripes, rows) before the loop.
   */
  method ConvertStripes(ka1: array2<bool>) returns (kd: array2<int>, boundary: seq<Rect>)
    requires ka1.Length0 % 10 == 0
    requires ka1.Length0 > 0 ==> ka1.Length1 > 0
    modifies ka1
    ensures fresh(kd) && kd.Length0 == ka1.Length0 / 10 && kd.Length1 == ka1.Length1
    ensures boundary == Boundary(old(Stripes(ka1)))
    ensures forall iq, y :: 0 <= iq < kd.Length0 && 0 <= y < kd.Length1 ==>
      kd[iq, y] == Level(Cleaned(old(Stripes(ka1))[iq])[y])
    ensures forall x, y :: 0 <= x < ka1.Length0 && 0 <= y < ka1.Length1 ==>
      ka1[x, y] == (x % 10 < DrcWidth * 2 && old(ka1[x, y]))
  {
    ghost var g := Grid(ka1);
    ghost var stripes := StripesOf(g);
    kd := new int[ka1.Length0 / 10, ka1.Length1]((_, _) => 0);
    boundary := ScanColumns(ka1, kd, g, stripes);
    StripesStartedNext(ka1.Length0);
  }

  /** The loop over the oversampled columns, stated on the raster snapshot g. */
  method ScanColumns(ka1: array2<bool>, kd: array2<int>,
                     ghost g: seq<seq<bool>>, ghost stripes: seq<seq<bool>>)
    returns (boundary: seq<Rect>)
    requires ka1.Length0 % 10 == 0 && (ka1.Length0 > 0 ==> ka1.Length1 > 0)
    requires kd.Length0 == ka1.Length0 / 10 && kd.Length1 == ka1.Length1
    requires stripes == StripesOf(g)
    requires RowsScanned(kd, stripes, 0) && ColumnsCleared(ka1, g, 0)
    modifies ka1, kd
    ensures RowsScanned(kd, stripes, |stripes|) && ColumnsCleared(ka1, g, ka1.Length0)
    ensures boundary == Boundary(stripes)
  {
    boundary := [];
    var i := 0;
    while i < ka1.Length0
      invariant i <= ka1.Length0
      invariant RowsScanned(kd, stripes, StripesStarted(i)) && ColumnsCleared(ka1, g, i)
      invariant boundary == BoundaryUpTo(stripes, StripesStarted(i))
    {
      var rects := ScanColumn(ka1, kd, i, g, stripes);
      boundary := boundary + rects;
      i := i + 1;
    }
    StripesStartedNext(ka1.Length0);
  }

  /** The first m rows of kd hold the cleaned rows of the first m stripes; the rest are 0. */
  ghost predicate RowsScanned(kd: array2<int>, stripes: seq<seq<bool>>, m: nat)
    reads kd
  {
    m <= |stripes| && (forall iq :: 0 <= iq < m ==> |stripes[iq]| == kd.Length1) &&
    forall iq, y :: 0 <= iq < kd.Length0 && 0 <= y < kd.Length1 ==>
      kd[iq, y] == if iq < m then Level(Cleaned(stripes[iq])[y]) else 0
  }

  /** Columns 0 .. i-1 of ka1 are cleared outside the first 2*DrcWidth columns of their
      stripe; every other cell still holds the raster g. */
  ghost predicate ColumnsCleared(ka1: array2<bool>, g: seq<seq<bool>>, i: nat)
    reads ka1
  {
    |g| == ka1.Length0 && (forall x :: 0 <= x < |g| ==> |g[x]| == ka1.Length1) &&
    forall x, y :: 0 <= x < ka1.Length0 && 0 <= y < ka1.Length1 ==>
      ka1[x, y] == (g[x][y] && (i <= x || x % 10 < DrcWidth * 2))
  }

  /** One pass of the loop over i: scan stripe i / 10 if column i starts it, then clear
      column i if it lies outside the first 2*DrcWidth columns of its stripe. */
  method ScanColumn(ka1: array2<bool>, kd: array2<int>, i: nat,
                    ghost g: seq<seq<bool>>, ghost stripes: seq<seq<bool>>)
    returns (rects: seq<Rect>)
    requires ka1.Length0 % 10 == 0 && i < ka1.Length0 && 0 < ka1.Length1
    requires kd.Length0 == ka1.Length0 / 10 && kd.Length1 == ka1.Length1
    requires stripes == StripesOf(g)
    requires RowsScanned(kd, stripes, StripesStarted(i)) && ColumnsCleared(ka1, g, i)
    modifies ka1, kd
    ensures RowsScanned(kd, stripes, StripesStarted(i + 1)) && ColumnsCleared(ka1, g, i + 1)
    ensures BoundaryUpTo(stripes, StripesStarted(i + 1)) == BoundaryUpTo(stripes, StripesStarted(i)) + rects
  {
    StripesStartedNext(i);
    rects := [];
    if i % 10 == 0 {
      assert 10 * (i / 10) == i;
      assert stripes[i / 10] == g[i];
      assert forall y :: 0 <= y < ka1.Length1 ==> Column(ka1, i)[y] == g[i][y];
      assert Column(ka1, i) == stripes[i / 10];
      rects := ScanStripe(ka1, kd, i / 10);
    }
    if i % 10 >= DrcWidth * 2 {
      ClearColumn(ka1, i);
    }
  }

  /** `ka1[x] = 0`: clears column x of the raster. */
  method ClearColumn(ka1: array2<bool>, x: nat)
    requires x < ka1.Length0
    modifies ka1
    ensures forall c, y :: 0 <= c < ka1.Length0 && 0 <= y < ka1.Length1 ==>
      ka1[c, y] == (c != x && old(ka1[c, y]))
  {
    forall y | 0 <= y < ka1.Length1 {
      ka1[x, y] := false;
    }
  }

  /** The number of stripes whose scan has started once columns 0 .. i-1 are done. */
  function StripesStarted(i: nat): nat {
    (i + 9) / 10
  }

  lemma StripesStartedNext(i: nat)
    ensures i % 10 == 0 ==> StripesStarted(i) == i / 10 && StripesStarted(i + 1) == i / 10 + 1
    ensures i % 10 != 0 ==> StripesStarted(i + 1) == StripesStarted(i)
    ensures StripesStarted(i) * 10 >= i
    ensures i % 10 == 0 ==> StripesStarted(i) == i / 10
  {
  }

  /**
   * The preview raster: kd resized to one column per oversampled column (nearest neighbour,
   * so every stripe row is repeated 10 times), with columns i % 10 >= 2*DrcWidth cleared.
   */
  method Preview(kd: array2<int>) returns (kdPil: array2<int>)
    ensures fresh(kdPil)
    ensures kdPil.Length0 == 10 * kd.Length0 && kdPil.Length1 == kd.Length1
    ensures forall i, y :: 0 <= i < kdPil.Length0 && 0 <= y < kdPil.Length1 ==>
      kdPil[i, y] == if i % 10 < DrcWidth * 2 then kd[i / 10, y] else 0
  {
    kdPil := new int[10 * kd.Length0, kd.Length1](
      (i, y) requires 0 <= i < 10 * kd.Length0 && 0 <= y < kd.Length1 reads kd =>
        kd[i / 10, y]);
    for i := 0 to kdPil.Length0
      invariant forall x, y :: 0 <= x < kdPil.Length0 && 0 <= y < kdPil.Length1 ==>
        kdPil[x, y] == if x < i && x % 10 >= DrcWidth * 2 then 0 else kd[x / 10, y]
    {
      if i % 10 >= DrcWidth * 2 {
        forall y | 0 <= y < kdPil.Length1 {
          kdPil[i, y] := 0;
        }
      }
    }
  }
}
