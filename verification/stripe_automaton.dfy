/**
 * The per-stripe design-rule automaton of the artwork converter, as pure functions.
 *
 * A stripe is one column of the oversampled raster, read along the scan axis; every cell is
 * 0.5 um. The automaton has two states, feature and gap, and a run counter that every change
 * of state resets to 0. It heals a feature that would close when it is at most DrcWidth um
 * wide, and suppresses a feature that would open at most DrcGap um after the previous one, so
 * accepted features and gaps are at least 2*DrcWidth+1 and 2*DrcGap+1 cells. The stripe's
 * first run is the exception: the counter starts at InitialBias, so a feature starting at
 * cell 0 can close after 2 cells, and a stripe starting with a gap can open its first
 * feature after a single background cell; the gap rule bounds only the gaps between
 * segments. Its per-cell polarity is the cleaned row, and every feature
 * run that closes is an accepted segment [y0, y1) of cells.
 */
module StripeAutomaton {

  /** Minimum feature width, in micrometres (two cells per micrometre). */
  const DrcWidth: nat := 3
  /** Minimum gap between features, in micrometres. */
  const DrcGap: nat := 2
  /** The run counter's value at the start of every stripe. */
  const InitialBias: nat := 4

  /** A run closes only once the counter reaches this many cells. */
  const MinFeatureCount: nat := DrcWidth * 2
  /** A feature opens only once the gap counter reaches this many cells. */
  const MinGapCount: nat := DrcGap * 2

  /** gap_pol, gap_counter and y0 of the scan. */
  datatype State = State(feature: bool, counter: nat, start: nat)

  /** An accepted feature run: cells y0 .. y1-1 of one stripe. */
  datatype Segment = Segment(y0: nat, y1: nat)

  /** A rectangle in nanometres, (x0, x1, y0, y1) as appended to the boundary list. */
  datatype Rect = Rect(x0: int, x1: int, y0: int, y1: int)

  /**
   * The state at the start of a stripe: polarity of its first cell, counter at the bias, and
   * start 0 (only read once a feature is open). The source reads cell 0 unconditionally, so it
   * never scans an empty stripe; the `|col| > 0` guard only keeps this function total.
   */
  function Init(col: seq<bool>): State {
    State(|col| > 0 && col[0], InitialBias, 0)
  }

  /** The source handles cell j observing `pixel` in state s. */
  function Step(s: State, j: nat, pixel: bool): State {
    if pixel then
      if s.feature then s.(counter := s.counter + 1)
      else if s.counter >= MinGapCount then State(true, 0, j)
      else s.(counter := s.counter + 1)
    else
      if !s.feature then s.(counter := s.counter + 1)
      else if s.counter >= MinFeatureCount then s.(feature := false, counter := 0)
      else s.(counter := s.counter + 1)
  }

  /** The step closes the open feature, which appends a rectangle. */
  predicate Closes(s: State, pixel: bool) {
    s.feature && !pixel && s.counter >= MinFeatureCount
  }

  /** The step keeps a feature open over a background cell. */
  predicate Heals(s: State, pixel: bool) {
    s.feature && !pixel && s.counter < MinFeatureCount
  }

  /** The step keeps a gap open over a foreground cell. */
  predicate Suppresses(s: State, pixel: bool) {
    !s.feature && pixel && s.counter < MinGapCount
  }

  /** The state after the first n cells of the stripe have been scanned. */
  function StateAfter(col: seq<bool>, n: nat): State
    requires n <= |col|
    decreases n
  {
    if n == 0 then Init(col) else Step(StateAfter(col, n - 1), n - 1, col[n - 1])
  }

  /** The cleaned row: cell j is foreground exactly when the state after cell j is feature. */
  function Cleaned(col: seq<bool>): (t: seq<bool>)
    ensures |t| == |col|
  {
    seq(|col|, j requires 0 <= j < |col| => StateAfter(col, j + 1).feature)
  }

  /** The segments closed while scanning the first n cells, in the order they close. */
  function SegmentsUpTo(col: seq<bool>, n: nat): seq<Segment>
    requires n <= |col|
    decreases n
  {
    if n == 0 then []
    else
      var s := StateAfter(col, n - 1);
      SegmentsUpTo(col, n - 1) + if Closes(s, col[n - 1]) then [Segment(s.start, n - 1)] else []
  }

  function Segments(col: seq<bool>): seq<Segment> {
    SegmentsUpTo(col, |col|)
  }

  /** Stripe iq is 5 um wide and starts at iq * 5000 nm; a rectangle is DrcWidth um wide. */
  function ToRect(iq: nat, g: Segment): Rect {
    Rect(iq * 5 * 1000, (iq * 5 + DrcWidth) * 1000, g.y0 * 500, g.y1 * 500)
  }

  function RectsOf(iq: nat, segs: seq<Segment>): (rs: seq<Rect>)
    ensures |rs| == |segs|
  {
    seq(|segs|, k requires 0 <= k < |segs| => ToRect(iq, segs[k]))
  }

  /** The rectangles of stripe iq. */
  function StripeRects(iq: nat, col: seq<bool>): seq<Rect> {
    RectsOf(iq, Segments(col))
  }

  /** The boundary list after the first m stripes have been scanned. */
  function BoundaryUpTo(stripes: seq<seq<bool>>, m: nat): seq<Rect>
    requires m <= |stripes|
  {
    if m == 0 then [] else BoundaryUpTo(stripes, m - 1) + StripeRects(m - 1, stripes[m - 1])
  }

  function Boundary(stripes: seq<seq<bool>>): seq<Rect> {
    BoundaryUpTo(stripes, |stripes|)
  }

  // ---------------------------------------------------------------------------------------
  // Design rules met by the accepted segments

  /** A segment meets the width rule: mid-stripe runs span at least 2*DrcWidth+1 cells, and
      the stripe's initial run closes no earlier than the bias allows. */
  predicate WideEnough(g: Segment) {
    g.y0 < g.y1 &&
    (g.y0 > 0 ==> g.y1 - g.y0 >= MinFeatureCount + 1) &&
    (g.y0 == 0 ==> g.y1 >= MinFeatureCount - InitialBias)
  }

  /** Segments that all meet the width rule, end before cell n, and follow each other with a
      gap of at least 2*DrcGap+1 cells. */
  ghost predicate RuleCompliant(segs: seq<Segment>, n: nat) {
    (forall k :: 0 <= k < |segs| ==> WideEnough(segs[k]) && segs[k].y1 < n) &&
    (forall k :: 0 < k < |segs| ==> segs[k].y0 >= segs[k - 1].y1 + MinGapCount + 1)
  }

  /** What the counter and the open run's start say about the segments closed before cell n. */
  predicate Tracks(s: State, segs: seq<Segment>, n: nat) {
    if s.feature then
      (segs == [] && s.start == 0 && s.counter == InitialBias + n) ||
      (0 < s.start < n && s.counter + 1 + s.start == n &&
       (segs != [] ==> s.start >= segs[|segs| - 1].y1 + MinGapCount + 1))
    else
      (segs == [] && s.counter == InitialBias + n) ||
      (segs != [] && s.counter + 1 + segs[|segs| - 1].y1 == n)
  }

  /** The segments after scanning cell j in state s. */
  function Emit(s: State, j: nat, pixel: bool, segs: seq<Segment>): seq<Segment> {
    segs + if Closes(s, pixel) then [Segment(s.start, j)] else []
  }

  ghost predicate Consistent(col: seq<bool>, n: nat)
    requires n <= |col|
  {
    RuleCompliant(SegmentsUpTo(col, n), n) && Tracks(StateAfter(col, n), SegmentsUpTo(col, n), n)
  }

  lemma CompliantLater(segs: seq<Segment>, n: nat)
    requires RuleCompliant(segs, n)
    ensures RuleCompliant(segs, n + 1)
  {
  }

  lemma CompliantAppend(segs: seq<Segment>, n: nat, g: Segment)
    requires RuleCompliant(segs, n) && WideEnough(g) && g.y1 == n
    requires segs != [] ==> g.y0 >= segs[|segs| - 1].y1 + MinGapCount + 1
    ensures RuleCompliant(segs + [g], n + 1)
  {
    var r := segs + [g];
    forall k | 0 < k < |r| ensures r[k].y0 >= r[k - 1].y1 + MinGapCount + 1 {
      if k < |segs| {
        assert r[k] == segs[k] && r[k - 1] == segs[k - 1];
      }
    }
  }

  /** A step that closes a feature emits a segment that keeps the rules. */
  lemma TracksClose(s: State, segs: seq<Segment>, n: nat, p: bool)
    requires Tracks(s, segs, n) && RuleCompliant(segs, n) && Closes(s, p)
    ensures Tracks(Step(s, n, p), Emit(s, n, p, segs), n + 1)
    ensures RuleCompliant(Emit(s, n, p, segs), n + 1)
  {
    var g := Segment(s.start, n);
    assert Emit(s, n, p, segs) == segs + [g];
    assert WideEnough(g);
    CompliantAppend(segs, n, g);
  }

  /** Any other step keeps the segments and the counter's meaning. */
  lemma TracksOther(s: State, segs: seq<Segment>, n: nat, p: bool)
    requires Tracks(s, segs, n) && RuleCompliant(segs, n) && !Closes(s, p)
    requires n == 0 ==> p == s.feature && s.start == 0
    ensures Tracks(Step(s, n, p), Emit(s, n, p, segs), n + 1)
    ensures RuleCompliant(Emit(s, n, p, segs), n + 1)
  {
    assert Emit(s, n, p, segs) == segs;
    CompliantLater(segs, n);
  }

  /** One scan step keeps Consistent. */
  lemma ConsistentStep(col: seq<bool>, n: nat)
    requires 0 < n <= |col| && Consistent(col, n - 1)
    ensures Consistent(col, n)
  {
    var m := n - 1;
    var s := StateAfter(col, m);
    var segs := SegmentsUpTo(col, m);
    var p := col[m];
    assert StateAfter(col, n) == Step(s, m, p) && SegmentsUpTo(col, n) == Emit(s, m, p, segs);
    assert m == 0 ==> p == s.feature && s.start == 0 by {
      if m == 0 {
        assert s == Init(col);
      }
    }
    TracksStep(s, segs, m, p);
  }

  /** Any step keeps the counter's meaning and the rules of the segments. */
  lemma TracksStep(s: State, segs: seq<Segment>, n: nat, p: bool)
    requires Tracks(s, segs, n) && RuleCompliant(segs, n)
    requires n == 0 ==> p == s.feature && s.start == 0
    ensures Tracks(Step(s, n, p), Emit(s, n, p, segs), n + 1)
    ensures RuleCompliant(Emit(s, n, p, segs), n + 1)
  {
    if Closes(s, p) {
      TracksClose(s, segs, n, p);
    } else {
      TracksOther(s, segs, n, p);
    }
  }

  lemma {:induction false} ConsistentAfter(col: seq<bool>, n: nat)
    requires n <= |col|
    ensures Consistent(col, n)
  {
    if n > 0 {
      ConsistentAfter(col, n - 1);
      ConsistentStep(col, n);
    }
  }

  /** Every accepted segment of a stripe meets the width rule, ends before the last cell, and
      consecutive segments are separated by more than the gap rule. */
  lemma SegmentsRuleCompliant(col: seq<bool>)
    ensures var segs := Segments(col);
      (forall k :: 0 <= k < |segs| ==>
         segs[k].y0 < segs[k].y1 < |col| &&
         (segs[k].y0 > 0 ==> segs[k].y1 - segs[k].y0 >= DrcWidth * 2 + 1) &&
         (segs[k].y0 == 0 ==> segs[k].y1 >= 2)) &&
      (forall k :: 0 < k < |segs| ==> segs[k].y0 - segs[k - 1].y1 >= DrcGap * 2 + 1)
  {
    ConsistentAfter(col, |col|);
  }

  lemma {:induction false} CompliantOrdered(segs: seq<Segment>, n: nat, a: nat, b: nat)
    requires RuleCompliant(segs, n) && a < b < |segs|
    ensures segs[a].y1 < segs[b].y0
    decreases b - a
  {
    if a + 1 < b {
      CompliantOrdered(segs, n, a, b - 1);
    }
  }

  /** The segments of a stripe are pairwise disjoint and in increasing order. */
  lemma SegmentsOrdered(col: seq<bool>)
    ensures var segs := Segments(col);
      forall a, b :: 0 <= a < b < |segs| ==> segs[a].y0 < segs[a].y1 < segs[b].y0 < segs[b].y1
  {
    ConsistentAfter(col, |col|);
    var segs := Segments(col);
    forall a, b | 0 <= a < b < |segs| ensures segs[a].y0 < segs[a].y1 < segs[b].y0 < segs[b].y1 {
      CompliantOrdered(segs, |col|, a, b);
    }
  }

  // ---------------------------------------------------------------------------------------
  // The accepted segments are the closed foreground runs of the cleaned row

  /** Cells y0 .. y1-1 of t are a maximal foreground run followed by a background cell. */
  ghost predicate ClosedRun(t: seq<bool>, y0: int, y1: int) {
    0 <= y0 < y1 < |t| && (forall k :: y0 <= k < y1 ==> t[k]) && !t[y1] && (y0 == 0 || !t[y0 - 1])
  }

  /** While a feature is open, the cleaned row is foreground from its start and background
      just before it. */
  lemma {:induction false} OpenRunInCleaned(col: seq<bool>, n: nat)
    requires 0 < n <= |col| && StateAfter(col, n).feature
    ensures var s := StateAfter(col, n); var t := Cleaned(col);
      s.start < n && (forall k :: s.start <= k < n ==> t[k]) && (s.start == 0 || !t[s.start - 1])
  {
    var t := Cleaned(col);
    var s := StateAfter(col, n);
    assert t[n - 1] == s.feature;
    if n > 1 {
      var p := StateAfter(col, n - 1);
      if p.feature {
        OpenRunInCleaned(col, n - 1);
        assert s.start == p.start;
      } else {
        assert s.start == n - 1 && t[n - 2] == p.feature;
      }
    } else {
      assert s.start == 0;
    }
  }

  /** Two maximal runs that end at the same cell start at the same cell. */
  lemma RunStartUnique(t: seq<bool>, a: nat, b: nat, m: nat)
    requires a < m <= |t| && b < m
    requires forall k :: a <= k < m ==> t[k]
    requires forall k :: b <= k < m ==> t[k]
    requires a == 0 || !t[a - 1]
    requires b == 0 || !t[b - 1]
    ensures a == b
  {
  }

  lemma {:induction false} SegmentsAreClosedRunsUpTo(col: seq<bool>, n: nat)
    requires n <= |col|
    ensures forall y0: nat, y1: nat ::
      Segment(y0, y1) in SegmentsUpTo(col, n) <==> ClosedRun(Cleaned(col), y0, y1) && y1 < n
  {
    var t := Cleaned(col);
    if n > 0 {
      SegmentsAreClosedRunsUpTo(col, n - 1);
      var m := n - 1;
      var s := StateAfter(col, m);
      assert t[m] == StateAfter(col, n).feature;
      assert m == 0 ==> !Closes(s, col[m]);
      if Closes(s, col[m]) {
        OpenRunInCleaned(col, m);
        forall y0: nat | ClosedRun(t, y0, m) ensures y0 == s.start {
          RunStartUnique(t, y0, s.start, m);
        }
        assert SegmentsUpTo(col, n) == SegmentsUpTo(col, m) + [Segment(s.start, m)];
      } else {
        assert m > 0 ==> t[m - 1] == StateAfter(col, m).feature;
        assert forall y0: nat :: !ClosedRun(t, y0, m);
        assert SegmentsUpTo(col, n) == SegmentsUpTo(col, m);
      }
    }
  }

  /** The segments of a stripe are exactly the maximal foreground runs of its cleaned row that
      end before its last cell; a feature still open at the last cell is not accepted. */
  lemma SegmentsAreClosedRuns(col: seq<bool>)
    ensures forall y0: nat, y1: nat :: Segment(y0, y1) in Segments(col) <==> ClosedRun(Cleaned(col), y0, y1)
  {
    SegmentsAreClosedRunsUpTo(col, |col|);
  }

  // ---------------------------------------------------------------------------------------
  // Healing, suppression and idempotence

  /** A cell of the cleaned row differs from the observed cell exactly when the step heals or
      suppresses; a heal or a suppression keeps the state's polarity and counts the cell. */
  lemma Overrides(col: seq<bool>, j: nat)
    requires j < |col|
    ensures var s := StateAfter(col, j); var p := col[j];
      (Cleaned(col)[j] != p <==> Heals(s, p) || Suppresses(s, p)) &&
      (Heals(s, p) ==> Cleaned(col)[j] && StateAfter(col, j + 1) == s.(counter := s.counter + 1)) &&
      (Suppresses(s, p) ==> !Cleaned(col)[j] && StateAfter(col, j + 1) == s.(counter := s.counter + 1))
  {
  }

  /** Feeding a step its own rendered cell makes the same step. */
  lemma StepOnRendered(s: State, j: nat, pixel: bool)
    ensures Step(s, j, Step(s, j, pixel).feature) == Step(s, j, pixel)
  {
  }

  lemma {:induction false} SameStatesOnCleaned(col: seq<bool>, n: nat)
    requires n <= |col|
    ensures StateAfter(Cleaned(col), n) == StateAfter(col, n)
    ensures SegmentsUpTo(Cleaned(col), n) == SegmentsUpTo(col, n)
  {
    var t := Cleaned(col);
    if n == 0 {
      if |col| > 0 {
        assert StateAfter(col, 0) == Init(col) && StateAfter(col, 1) == Step(Init(col), 0, col[0]);
        assert t[0] == col[0];
      }
    } else {
      SameStatesOnCleaned(col, n - 1);
      var s := StateAfter(col, n - 1);
      StepOnRendered(s, n - 1, col[n - 1]);
      assert t[n - 1] == Step(s, n - 1, col[n - 1]).feature;
      assert Closes(s, t[n - 1]) == Closes(s, col[n - 1]);
    }
  }

  /** Scanning the cleaned row again changes nothing: it is its own cleaned row and yields the
      same segments. */
  lemma CleanIdempotent(col: seq<bool>)
    ensures Cleaned(Cleaned(col)) == Cleaned(col)
    ensures Segments(Cleaned(col)) == Segments(col)
  {
    var t := Cleaned(col);
    forall j | 0 <= j < |col| ensures Cleaned(t)[j] == t[j] {
      SameStatesOnCleaned(col, j + 1);
    }
    SameStatesOnCleaned(col, |col|);
  }

  // ---------------------------------------------------------------------------------------
  // Rectangles

  /** A rectangle of one of the first m stripes, as the emitter shapes it. */
  predicate Shaped(r: Rect, m: nat) {
    r.x0 % 5000 == 0 && 0 <= r.x0 < 5000 * m && r.x1 - r.x0 == DrcWidth * 1000 && 0 <= r.y0 < r.y1
  }

  /** r comes before q: an earlier stripe, or the same stripe and lower, without overlap. */
  predicate Precedes(r: Rect, q: Rect) {
    r.x0 < q.x0 || (r.x0 == q.x0 && r.y1 < q.y0)
  }

  /** The rectangles of stripe iq are shaped, at x0 = 5000 * iq, and in increasing y order. */
  lemma StripeRectsShaped(iq: nat, col: seq<bool>)
    ensures var rs := StripeRects(iq, col);
      (forall k :: 0 <= k < |rs| ==> Shaped(rs[k], iq + 1) && rs[k].x0 == 5000 * iq) &&
      (forall a, c :: 0 <= a < c < |rs| ==> Precedes(rs[a], rs[c]))
  {
    var segs := Segments(col);
    var rs := StripeRects(iq, col);
    SegmentsRuleCompliant(col);
    SegmentsOrdered(col);
    assert (5000 * iq) % 5000 == 0;
    forall k | 0 <= k < |rs| ensures Shaped(rs[k], iq + 1) && rs[k].x0 == 5000 * iq {
      assert rs[k] == ToRect(iq, segs[k]) && segs[k].y0 < segs[k].y1;
    }
    forall a, c | 0 <= a < c < |rs| ensures Precedes(rs[a], rs[c]) {
      assert rs[a] == ToRect(iq, segs[a]) && rs[c] == ToRect(iq, segs[c]);
    }
  }

  /** Appending the next stripe's rectangles keeps the list shaped and ordered. */
  lemma AppendStripe(prev: seq<Rect>, rs: seq<Rect>, m: nat)
    requires 0 < m
    requires forall k :: 0 <= k < |prev| ==> Shaped(prev[k], m - 1)
    requires forall a, c :: 0 <= a < c < |prev| ==> Precedes(prev[a], prev[c])
    requires forall k :: 0 <= k < |rs| ==> Shaped(rs[k], m) && rs[k].x0 == 5000 * (m - 1)
    requires forall a, c :: 0 <= a < c < |rs| ==> Precedes(rs[a], rs[c])
    ensures forall k :: 0 <= k < |prev + rs| ==> Shaped((prev + rs)[k], m)
    ensures forall a, c :: 0 <= a < c < |prev + rs| ==> Precedes((prev + rs)[a], (prev + rs)[c])
  {
    var b := prev + rs;
    forall k | 0 <= k < |b| ensures Shaped(b[k], m) {
      if k < |prev| {
        assert b[k] == prev[k];
      } else {
        assert b[k] == rs[k - |prev|];
      }
    }
    forall a, c | 0 <= a < c < |b| ensures Precedes(b[a], b[c]) {
      if c < |prev| {
        assert b[a] == prev[a] && b[c] == prev[c];
      } else if a < |prev| {
        assert b[a] == prev[a] && b[c] == rs[c - |prev|];
      } else {
        assert b[a] == rs[a - |prev|] && b[c] == rs[c - |prev|];
      }
    }
  }

  lemma {:induction false} BoundaryShapeUpTo(stripes: seq<seq<bool>>, m: nat)
    requires m <= |stripes|
    ensures forall k :: 0 <= k < |BoundaryUpTo(stripes, m)| ==> Shaped(BoundaryUpTo(stripes, m)[k], m)
    ensures forall a, c :: 0 <= a < c < |BoundaryUpTo(stripes, m)| ==>
      Precedes(BoundaryUpTo(stripes, m)[a], BoundaryUpTo(stripes, m)[c])
  {
    if m > 0 {
      BoundaryShapeUpTo(stripes, m - 1);
      StripeRectsShaped(m - 1, stripes[m - 1]);
      AppendStripe(BoundaryUpTo(stripes, m - 1), StripeRects(m - 1, stripes[m - 1]), m);
    }
  }

  /** Every rectangle starts on a 5 um stripe boundary, is exactly DrcWidth um wide and has
      positive height; the list is ordered by stripe and, within a stripe, by y, without
      overlap. */
  lemma BoundaryShape(stripes: seq<seq<bool>>)
    ensures var b := Boundary(stripes);
      (forall k :: 0 <= k < |b| ==>
         b[k].x0 % 5000 == 0 && b[k].x1 - b[k].x0 == DrcWidth * 1000 && 0 <= b[k].y0 < b[k].y1) &&
      (forall a, c :: 0 <= a < c < |b| ==>
         b[a].x0 < b[c].x0 || (b[a].x0 == b[c].x0 && b[a].y1 < b[c].y0))
  {
    BoundaryShapeUpTo(stripes, |stripes|);
    var b := Boundary(stripes);
    assert forall k :: 0 <= k < |b| ==> Shaped(b[k], |stripes|);
    assert forall a, c :: 0 <= a < c < |b| ==> Precedes(b[a], b[c]);
  }
}
