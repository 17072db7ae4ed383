/**
 * The speech-bubble masker (`speechBubbler`): a cap sweep and a tail sweep that make
 * pixels of the image transparent in place.
 *
 * The per-step integers that the program computes with `Math.sin` / `Math.cos` are inputs
 * (`Samples`); everything done with them afterwards (the `max`/`abs` clamps, the span, the
 * carried previous row, the once-decided direction flag, the nested clearing loops) is
 * modelled as written.
 */
module Bubble {
  import opened Results
  import opened Pixels

  /** `iter = 270 - 90`; the cap loop runs `floor(iter / 2)` steps. */
  const CapIterations: int := 270 - 90
  const CapSteps: int := CapIterations / 2
  /** The tail loop runs over the degrees [start, end). */
  const TailStart: int := 110
  const TailEnd: int := 160
  const TailSteps: int := TailEnd - TailStart

  /**
   * The floating-point values of each step, already floored:
   *  - capLeft[i]    = floor(width/2 + sin(270 - i) * width/2), before `max(0, _)`
   *  - capDepth[i]   = floor(cos(270 - i) * occupyHeight), before `abs` and `- 1`
   *  - tailColumn[j] = floor(width/2 + sin(110 + j) * width/2)
   *  - tailDepth[j]  = floor(|cos(v_j)| * occupyHeight), before `- 1` and `max(0, _)`
   */
  datatype Samples = Samples(capLeft: seq<int>, capDepth: seq<int>, tailColumn: seq<int>, tailDepth: seq<int>)

  /** One sample per step of each sweep. */
  predicate Shaped(s: Samples) {
    |s.capLeft| == CapSteps && |s.capDepth| == CapSteps &&
    |s.tailColumn| == TailSteps && |s.tailDepth| == TailSteps
  }

  function Max(a: int, b: int): int { if a < b then b else a }

  function Abs(x: int): int { if x < 0 then -x else x }

  /** `Math.ceil(width * 0.1)`: the tail's width in columns. */
  function Thickness(width: int): (t: int)
    requires width >= 1
    ensures 1 <= t <= width
    ensures 10 * (t - 1) < width <= 10 * t
  {
    (width + 9) / 10
  }

  /**
   * The bounds the trigonometric samples obey for a height x width image whose
   * occupyHeight is below height + 1. They suffice to keep every pixel written inside the
   * image: the first cap step writes its own row, later cap steps only the rows above theirs.
   */
  predicate SamplesFit(s: Samples, height: int, width: int) {
    Shaped(s) && height >= 1 && width >= 1 &&
    (forall i :: 0 <= i < CapSteps ==> s.capLeft[i] <= width / 2) &&
    Abs(s.capDepth[0]) <= height &&
    (forall i :: 0 < i < CapSteps ==> Abs(s.capDepth[i]) <= height + 1) &&
    s.tailColumn[0] < width &&
    (forall j :: 0 <= j < TailSteps ==> Thickness(width) - 1 <= s.tailColumn[j] <= s.tailColumn[0]) &&
    (forall j :: 0 <= j < TailSteps ==> s.tailDepth[j] <= height)
  }

  // ---------------------------------------------------------------- the cap sweep

  /** `left = max(0, floor(...))`: first column of step i's span. */
  function CapLeft(s: Samples, i: int): (left: int)
    requires 0 <= i < |s.capLeft|
    ensures 0 <= left && s.capLeft[i] <= left
  {
    Max(0, s.capLeft[i])
  }

  /** `right = width - left`: one past the last column of step i's span. */
  function CapRight(width: int, s: Samples, i: int): int
    requires 0 <= i < |s.capLeft|
  {
    width - CapLeft(s, i)
  }

  /** `row = max(0, abs(floor(...)) - 1)`: the boundary row of step i. */
  function CapRow(s: Samples, i: int): (row: int)
    requires 0 <= i < |s.capDepth|
    ensures 0 <= row
  {
    Max(0, Abs(s.capDepth[i]) - 1)
  }

  /** The rows cleared by step i: its own row on the first step, [prevRow, row) after it. */
  predicate CapStepRows(s: Samples, i: int, r: int)
    requires 0 <= i < |s.capDepth|
  {
    if i == 0 then r == CapRow(s, 0) else CapRow(s, i - 1) <= r < CapRow(s, i)
  }

  /** Cell (r, c) is cleared by step i of the cap sweep. */
  predicate InCapStep(width: int, s: Samples, i: int, r: int, c: int)
    requires Shaped(s)
  {
    0 <= i < CapSteps && CapLeft(s, i) <= c < CapRight(width, s, i) && CapStepRows(s, i, r)
  }

  /** Cell (r, c) is cleared by one of the first n steps of the cap sweep. */
  predicate CapCleared(width: int, s: Samples, n: int, r: int, c: int)
    requires Shaped(s)
  {
    exists i :: 0 <= i < n && InCapStep(width, s, i, r, c)
  }

  lemma CapClearedNext(width: int, s: Samples, n: int)
    requires Shaped(s) && 0 <= n
    ensures forall r, c :: CapCleared(width, s, n + 1, r, c) <==>
      CapCleared(width, s, n, r, c) || InCapStep(width, s, n, r, c)
  {
  }

  /**
   * Each step's span is [left, width - left) with 0 <= left <= width/2, so it stays in the
   * image; the first row is inside the image and every later boundary row is at most height.
   */
  lemma CapStepBounds(s: Samples, height: int, width: int, i: int)
    requires SamplesFit(s, height, width) && 0 <= i < CapSteps
    ensures 0 <= CapLeft(s, i) <= CapRight(width, s, i) <= width
    ensures CapLeft(s, i) + CapRight(width, s, i) == width
    ensures 0 <= CapRow(s, i) <= height
    ensures i == 0 ==> CapRow(s, 0) < height
  {
  }

  /** Every cell the cap clears lies inside the image. */
  lemma CapCellsInImage(s: Samples, height: int, width: int, r: int, c: int)
    requires SamplesFit(s, height, width)
    requires CapCleared(width, s, CapSteps, r, c)
    ensures 0 <= r < height && 0 <= c < width
  {
  }

  /** The cap is symmetric about the vertical centre line: column c and column width-1-c agree. */
  lemma CapMirror(width: int, s: Samples, r: int, c: int)
    requires Shaped(s)
    ensures CapCleared(width, s, CapSteps, r, c) <==> CapCleared(width, s, CapSteps, r, width - 1 - c)
  {
    if CapCleared(width, s, CapSteps, r, c) {
      var i :| 0 <= i < CapSteps && InCapStep(width, s, i, r, c);
      assert InCapStep(width, s, i, r, width - 1 - c);
    }
    if CapCleared(width, s, CapSteps, r, width - 1 - c) {
      var i :| 0 <= i < CapSteps && InCapStep(width, s, i, r, width - 1 - c);
      assert InCapStep(width, s, i, r, c);
    }
  }

  /** A step whose row does not move below the previous one clears nothing. */
  lemma CapStepEmptyUnlessDescending(width: int, s: Samples, i: int, r: int, c: int)
    requires Shaped(s) && 0 < i < CapSteps && CapRow(s, i) <= CapRow(s, i - 1)
    ensures !InCapStep(width, s, i, r, c)
  {
  }

  /** When the first sample sits on the top edge with left 0, the whole top row is cleared. */
  lemma CapClearsTopRow(width: int, s: Samples, c: int)
    requires Shaped(s) && s.capLeft[0] <= 0 && -1 <= s.capDepth[0] <= 1
    requires 0 <= c < width
    ensures CapCleared(width, s, CapSteps, 0, c)
  {
    assert InCapStep(width, s, 0, 0, c);
  }

  /**
   * The samples of a real cap: the span only narrows (left never decreases) and the
   * boundary row only descends as the angle advances.
   */
  predicate CapMonotone(s: Samples)
    requires Shaped(s)
  {
    forall i, j :: 0 <= i <= j < CapSteps ==> CapLeft(s, i) <= CapLeft(s, j) && CapRow(s, i) <= CapRow(s, j)
  }

  /** A row between the first boundary row and a later one lies in the gap of some step. */
  lemma {:induction false} GapStep(s: Samples, x: int, hi: int) returns (j: int)
    requires Shaped(s) && CapMonotone(s)
    requires 1 <= hi < CapSteps && CapRow(s, 0) <= x < CapRow(s, hi)
    ensures 1 <= j <= hi && CapRow(s, j - 1) <= x < CapRow(s, j)
  {
    if CapRow(s, hi - 1) <= x {
      j := hi;
    } else {
      j := GapStep(s, x, hi - 1);
    }
  }

  /**
   * Gap filling works: under a monotone sweep, a cleared cell below the first boundary row
   * has a cleared cell directly above it.
   */
  lemma CapGapFree(width: int, s: Samples, r: int, c: int)
    requires Shaped(s) && CapMonotone(s)
    requires CapCleared(width, s, CapSteps, r, c) && r > CapRow(s, 0)
    ensures CapCleared(width, s, CapSteps, r - 1, c)
  {
    var i :| 0 <= i < CapSteps && InCapStep(width, s, i, r, c);
    assert i > 0;
    if CapRow(s, i - 1) <= r - 1 {
      assert InCapStep(width, s, i, r - 1, c);
    } else {
      var j := GapStep(s, r - 1, i - 1);
      assert CapLeft(s, j) <= CapLeft(s, i);
      assert InCapStep(width, s, j, r - 1, c);
    }
  }

  /**
   * Each column of a monotone cap is one unbroken run of cleared cells hanging from the
   * first boundary row (row 0 for a real image).
   */
  lemma {:induction false} CapColumnFromTop(width: int, s: Samples, r: int, c: int, r': int)
    requires Shaped(s) && CapMonotone(s)
    requires CapCleared(width, s, CapSteps, r, c)
    requires CapRow(s, 0) <= r' <= r
    ensures CapCleared(width, s, CapSteps, r', c)
    decreases r - r'
  {
    if r' < r {
      CapGapFree(width, s, r, c);
      CapColumnFromTop(width, s, r - 1, c, r');
    }
  }

  /** The cap sweep (the first block of `speechBubbler`). */
  method CapSweep(img: array2<Pixel>, s: Samples)
    requires SamplesFit(s, img.Length0, img.Length1)
    modifies img
    ensures forall r, c :: 0 <= r < img.Length0 && 0 <= c < img.Length1 ==>
      img[r, c] == if CapCleared(img.Length1, s, CapSteps, r, c) then Transparent else old(img[r, c])
  {
    var width := img.Length1;
    var prevRow: Option<int> := None;
    for i := 0 to CapSteps
      invariant prevRow == if i == 0 then None else Some(CapRow(s, i - 1))
      invariant forall r, c :: 0 <= r < img.Length0 && 0 <= c < width ==>
        img[r, c] == if CapCleared(width, s, i, r, c) then Transparent else old(img[r, c])
    {
      var left := Max(0, s.capLeft[i]);
      var right := width - left;
      var row := Max(0, Abs(s.capDepth[i]) - 1);
      CapStepBounds(s, img.Length0, width, i);
      var column := left;
      while column < right
        invariant left <= column <= right
        invariant forall r, c :: 0 <= r < img.Length0 && 0 <= c < width ==>
          img[r, c] == if CapCleared(width, s, i, r, c) || (InCapStep(width, s, i, r, c) && c < column)
                       then Transparent else old(img[r, c])
      {
        match prevRow {
          case None =>
            ClearPixel(img, row, column);
          case Some(p) =>
            ClearRows(img, column, p, row);
        }
        column := column + 1;
      }
      CapClearedNext(width, s, i);
      prevRow := Some(row);
    }
  }

  // ---------------------------------------------------------------- the tail sweep

  /** `row = max(0, floor(...) - 1)`: the row of tail step j. */
  function TailRow(s: Samples, j: int): (row: int)
    requires 0 <= j < |s.tailDepth|
    ensures 0 <= row
  {
    Max(0, s.tailDepth[j] - 1)
  }

  /** `k * (goNegative ? -1 : 1)` */
  function Padding(k: int, goNegative: bool): int {
    k * (if goNegative then -1 else 1)
  }

  /** Column c is one of the first `count` padded columns of a stroke at `column`. */
  predicate InStroke(column: int, count: int, goNegative: bool, c: int) {
    if goNegative then column - count < c <= column else column <= c < column + count
  }

  /**
   * `goNegative`, decided once from the first step's column: the stroke widens leftward
   * exactly when widening rightward from that column would reach the right edge.
   */
  function GoNegative(width: int, s: Samples): (goNegative: bool)
    requires width >= 1 && |s.tailColumn| > 0
    ensures goNegative <==> exists c :: InStroke(s.tailColumn[0], Thickness(width), false, c) && width <= c
  {
    var last := s.tailColumn[0] + Thickness(width) - 1;
    assert InStroke(s.tailColumn[0], Thickness(width), false, last);
    s.tailColumn[0] + Thickness(width) > width
  }

  /** The stroke is exactly the columns column + Padding(k) for k < count. */
  lemma StrokeIsPaddedColumns(column: int, count: int, goNegative: bool, c: int)
    ensures InStroke(column, count, goNegative, c) <==>
      exists k :: 0 <= k < count && c == column + Padding(k, goNegative)
  {
    if InStroke(column, count, goNegative, c) {
      var k := if goNegative then column - c else c - column;
      assert c == column + Padding(k, goNegative);
    }
  }

  /** The rows cleared by tail step j: its own row on the first step, [row, prevRow) after it. */
  predicate TailStepRows(s: Samples, j: int, r: int)
    requires 0 <= j < |s.tailDepth|
  {
    if j == 0 then r == TailRow(s, 0) else TailRow(s, j) <= r < TailRow(s, j - 1)
  }

  /** Cell (r, c) is cleared by step j of the tail sweep. */
  predicate InTailStep(width: int, s: Samples, j: int, r: int, c: int)
    requires Shaped(s) && width >= 1
  {
    0 <= j < TailSteps && InStroke(s.tailColumn[j], Thickness(width), GoNegative(width, s), c) &&
    TailStepRows(s, j, r)
  }

  /** Cell (r, c) is cleared by one of the first n steps of the tail sweep. */
  predicate TailCleared(width: int, s: Samples, n: int, r: int, c: int)
    requires Shaped(s) && width >= 1
  {
    exists j :: 0 <= j < n && InTailStep(width, s, j, r, c)
  }

  lemma TailClearedNext(width: int, s: Samples, n: int)
    requires Shaped(s) && width >= 1 && 0 <= n
    ensures forall r, c :: TailCleared(width, s, n + 1, r, c) <==>
      TailCleared(width, s, n, r, c) || InTailStep(width, s, n, r, c)
  {
  }

  /** With goNegative false, the first column widened by any padding stays left of the edge. */
  lemma RightwardStrokeFits(s: Samples, height: int, width: int, k: int)
    requires SamplesFit(s, height, width) && !GoNegative(width, s)
    requires 0 <= k < Thickness(width)
    ensures s.tailColumn[0] + k < width
  {
  }

  /**
   * The direction fixed at the first step keeps every later stroke inside the image, because
   * later columns never pass the first one and never come closer to 0 than thickness - 1.
   */
  lemma TailStrokeInImage(s: Samples, height: int, width: int, j: int, c: int)
    requires SamplesFit(s, height, width) && 0 <= j < TailSteps
    requires InStroke(s.tailColumn[j], Thickness(width), GoNegative(width, s), c)
    ensures 0 <= c < width
  {
  }

  /** Every cell the tail clears lies inside the image. */
  lemma TailCellsInImage(s: Samples, height: int, width: int, r: int, c: int)
    requires SamplesFit(s, height, width)
    requires TailCleared(width, s, TailSteps, r, c)
    ensures 0 <= r < height && 0 <= c < width
  {
  }

  /**
   * The bound on the first tail sample cannot be loosened: a first sample above height puts
   * the first tail step's own cell at a row at or past height, outside the image.
   */
  lemma TailFirstRowOutside(s: Samples, height: int, width: int)
    requires Shaped(s) && width >= 1 && s.tailDepth[0] > height
    ensures InTailStep(width, s, 0, TailRow(s, 0), s.tailColumn[0]) && height <= TailRow(s, 0)
  {
  }

  /** A tail step whose row is not above the previous one clears nothing. */
  lemma TailStepEmptyUnlessAscending(width: int, s: Samples, j: int, r: int, c: int)
    requires Shaped(s) && width >= 1 && 0 < j < TailSteps && TailRow(s, j) >= TailRow(s, j - 1)
    ensures !InTailStep(width, s, j, r, c)
  {
  }

  /** The tail sweep (the second block of `speechBubbler`). */
  method TailSweep(img: array2<Pixel>, s: Samples)
    requires SamplesFit(s, img.Length0, img.Length1)
    modifies img
    ensures forall r, c :: 0 <= r < img.Length0 && 0 <= c < img.Length1 ==>
      img[r, c] == if TailCleared(img.Length1, s, TailSteps, r, c) then Transparent else old(img[r, c])
  {
    var width := img.Length1;
    var thickness := Thickness(width);
    var goNegative: Option<bool> := None;
    var prevRow: Option<int> := None;
    for i := TailStart to TailEnd
      invariant goNegative == if i == TailStart then None else Some(GoNegative(width, s))
      invariant prevRow == if i == TailStart then None else Some(TailRow(s, i - TailStart - 1))
      invariant forall r, c :: 0 <= r < img.Length0 && 0 <= c < width ==>
        img[r, c] == if TailCleared(width, s, i - TailStart, r, c) then Transparent else old(img[r, c])
    {
      var j := i - TailStart;
      var column := s.tailColumn[j];
      var row := Max(0, s.tailDepth[j] - 1);
      if goNegative == None {
        goNegative := Some(column + thickness > width);
      }
      assert s.tailDepth[j] <= img.Length0;
      assert j > 0 ==> s.tailDepth[j - 1] <= img.Length0;
      var k := 0;
      while k < thickness
        invariant 0 <= k <= thickness
        invariant forall r, c :: 0 <= r < img.Length0 && 0 <= c < width ==>
          img[r, c] == if TailCleared(width, s, j, r, c) ||
                          (TailStepRows(s, j, r) && InStroke(column, k, goNegative.value, c))
                       then Transparent else old(img[r, c])
      {
        var padding := k * (if goNegative.value then -1 else 1);
        TailStrokeInImage(s, img.Length0, width, j, column + padding);
        match prevRow {
          case None =>
            ClearPixel(img, row, column + padding);
          case Some(p) =>
            ClearRows(img, column + padding, row, p);
        }
        k := k + 1;
      }
      TailClearedNext(width, s, j);
      prevRow := Some(row);
    }
  }

  /**
   * `occupyHeight = imgHeight * percentage`: never taller than the image for a percentage
   * of at most 1, and never positive for a percentage of at most 0.
   */
  function OccupyHeight(height: int, percentage: real): (occupyHeight: real)
    ensures 0 <= height && percentage <= 1.0 ==> occupyHeight <= height as real
    ensures 0 <= height && percentage <= 0.0 ==> occupyHeight <= 0.0
  {
    (height as real) * percentage
  }

  /**
   * What flooring gives for the row samples of an image with this occupyHeight:
   * |floor(cos * occupyHeight)| < occupyHeight + 1 and floor(|cos| * occupyHeight) <= occupyHeight.
   */
  predicate SamplesWithin(s: Samples, occupyHeight: real)
    requires Shaped(s)
  {
    (forall i :: 0 <= i < CapSteps ==> (Abs(s.capDepth[i]) as real) < occupyHeight + 1.0) &&
    (forall j :: 0 <= j < TailSteps ==> (s.tailDepth[j] as real) <= occupyHeight)
  }

  /** The cap stays within the top occupyHeight rows. */
  lemma CapWithinOccupyHeight(width: int, s: Samples, occupyHeight: real, r: int, c: int)
    requires Shaped(s) && occupyHeight >= 1.0 && SamplesWithin(s, occupyHeight)
    requires CapCleared(width, s, CapSteps, r, c)
    ensures 0 <= r && (r as real) < occupyHeight
  {
  }

  /** The tail stays within the top occupyHeight rows. */
  lemma TailWithinOccupyHeight(width: int, s: Samples, occupyHeight: real, r: int, c: int)
    requires Shaped(s) && width >= 1 && occupyHeight >= 1.0 && SamplesWithin(s, occupyHeight)
    requires TailCleared(width, s, TailSteps, r, c)
    ensures 0 <= r && (r as real) < occupyHeight
  {
  }

  // ---------------------------------------------------------------- the whole masker

  /** Cell (r, c) is cleared by one of the two sweeps. */
  predicate InBubble(width: int, s: Samples, r: int, c: int)
    requires Shaped(s) && width >= 1
  {
    CapCleared(width, s, CapSteps, r, c) || TailCleared(width, s, TailSteps, r, c)
  }

  function CapHit(width: int, s: Samples): (int, int) -> bool
    requires Shaped(s)
  {
    (r: int, c: int) => CapCleared(width, s, CapSteps, r, c)
  }

  function TailHit(width: int, s: Samples): (int, int) -> bool
    requires Shaped(s) && width >= 1
  {
    (r: int, c: int) => TailCleared(width, s, TailSteps, r, c)
  }

  /** The image after the cap sweep and then the tail sweep. */
  function Bubbled(g: Grid, width: int, s: Samples): Grid
    requires Shaped(s) && width >= 1
  {
    ClearWhere(ClearWhere(g, CapHit(width, s)), TailHit(width, s))
  }

  /** A masked image differs from the original exactly in the bubble, which is transparent. */
  lemma BubbledCells(g: Grid, width: int, s: Samples, r: int, c: int)
    requires Shaped(s) && width >= 1
    requires 0 <= r < |g| && 0 <= c < |g[r]|
    ensures |Bubbled(g, width, s)| == |g| && |Bubbled(g, width, s)[r]| == |g[r]|
    ensures Bubbled(g, width, s)[r][c] == if InBubble(width, s, r, c) then Transparent else g[r][c]
  {
  }

  /** The two sweeps give the same image in either order. */
  lemma BubbleOrderIndependent(g: Grid, width: int, s: Samples)
    requires Shaped(s) && width >= 1
    ensures Bubbled(g, width, s) == ClearWhere(ClearWhere(g, TailHit(width, s)), CapHit(width, s))
  {
    ClearWhereUnion(g, CapHit(width, s), TailHit(width, s));
  }

  /** Nothing at or below row occupyHeight is ever cleared. */
  lemma BubbleWithinOccupyHeight(width: int, s: Samples, occupyHeight: real, r: int, c: int)
    requires Shaped(s) && width >= 1 && occupyHeight >= 1.0 && SamplesWithin(s, occupyHeight)
    requires InBubble(width, s, r, c)
    ensures 0 <= r && (r as real) < occupyHeight
  {
  }

  /** Masking an already masked image changes nothing. */
  lemma BubbleIdempotent(g: Grid, width: int, s: Samples)
    requires Shaped(s) && width >= 1
    ensures Bubbled(Bubbled(g, width, s), width, s) == Bubbled(g, width, s)
  {
    var cap, tail := CapHit(width, s), TailHit(width, s);
    var once := Bubbled(g, width, s);
    ClearWhereUnion(g, cap, tail);
    ClearWhereUnion(once, cap, tail);
    ClearWhereIdempotent(g, (r, c) => cap(r, c) || tail(r, c));
  }

  /**
   * `speechBubbler(percentage)`: rejects an occupyHeight below 1 before touching the image,
   * otherwise runs the cap sweep and then the tail sweep.
   */
  method SpeechBubbler(img: array2<Pixel>, percentage: real, s: Samples) returns (err: Option<Error>)
    requires SamplesFit(s, img.Length0, img.Length1)
    modifies img
    ensures err.Some? <==> OccupyHeight(img.Length0, percentage) < 1.0
    ensures percentage <= 0.0 ==> err == Some(ImageTooSmall)
    ensures err.Some? ==> err.value == ImageTooSmall && unchanged(img)
    ensures err.None? ==> forall r, c :: 0 <= r < img.Length0 && 0 <= c < img.Length1 ==>
      img[r, c] == if InBubble(img.Length1, s, r, c) then Transparent else old(img[r, c])
    ensures err.None? ==> Snapshot(img) == Bubbled(old(Snapshot(img)), img.Length1, s)
  {
    var occupyHeight := OccupyHeight(img.Length0, percentage);
    if occupyHeight < 1.0 {
      return Some(ImageTooSmall);
    }
    ghost var before := Snapshot(img);
    CapSweep(img, s);
    TailSweep(img, s);
    err := None;
    ghost var after := Bubbled(before, img.Length1, s);
    forall r | 0 <= r < img.Length0
      ensures Snapshot(img)[r] == after[r]
    {
      forall c | 0 <= c < img.Length1
        ensures Snapshot(img)[r][c] == after[r][c]
      {
        BubbledCells(before, img.Length1, s, r, c);
      }
    }
  }
}
