/**
 * The chi (azimuthal angle) logic of the `rsoxs` DataArray accessor: moving an
 * angle by whole turns toward the dataset's chi range, turning a wedge centre
 * and half-width into a boolean selector over the chi coordinate, resolving the
 * two anisotropic-ratio wedge centres, and the pairwise wedge-overlap check.
 *
 * Angles are reals in degrees. The accessor's state is fixed when it is built,
 * so every operation here is a function of a `ChiAxis` value.
 */
module ChiWedges {
  import opened Wrappers

  /** `a` and `b` name the same direction: they differ by a whole number of turns. */
  ghost predicate SameAngle(a: real, b: real) {
    ((a - b) / 360.0).Floor as real == (a - b) / 360.0
  }

  /** Python's float `x % 360`: floored, so the result takes the sign of 360. */
  function Mod360(x: real): (r: real)
    ensures 0.0 <= r < 360.0
    ensures SameAngle(r, x)
  {
    var turns := (x / 360.0).Floor;
    SameAngleByTurns(x - 360.0 * turns as real, x, -turns);
    x - 360.0 * turns as real
  }

  /** Angles a whole number `k` of turns apart name the same direction. */
  lemma SameAngleByTurns(a: real, b: real, k: int)
    requires a - b == 360.0 * k as real
    ensures SameAngle(a, b)
  {
    assert (a - b) / 360.0 == k as real;
  }

  /** The whole number of turns between two angles naming the same direction. */
  lemma TurnsBetween(a: real, b: real) returns (k: int)
    requires SameAngle(a, b)
    ensures a - b == 360.0 * k as real
  {
    k := ((a - b) / 360.0).Floor;
  }

  /** Taking an angle modulo 360 gives `x - 360 k` for the one `k` that puts it in [0, 360). */
  lemma Mod360Shift(x: real, k: int)
    requires 0.0 <= x - 360.0 * k as real < 360.0
    ensures Mod360(x) == x - 360.0 * k as real
  {
    assert k as real <= x / 360.0 < k as real + 1.0;
    assert (x / 360.0).Floor == k;
  }

  /** Angles naming the same direction have the same residue. */
  lemma Mod360Congruent(x: real, y: real)
    requires SameAngle(x, y)
    ensures Mod360(x) == Mod360(y)
  {
    var k := TurnsBetween(x, y);
    var f := (y / 360.0).Floor;
    Mod360Shift(x, k + f);
  }

  /** The residue of the opposite difference is the complement to a full turn. */
  lemma Mod360Negate(x: real)
    ensures Mod360(-x) == if Mod360(x) == 0.0 then 0.0 else 360.0 - Mod360(x)
  {
    var f := (x / 360.0).Floor;
    if Mod360(x) == 0.0 {
      Mod360Shift(-x, -f);
    } else {
      Mod360Shift(-x, -f - 1);
    }
  }

  // ---------------------------------------------------------------------------
  // The accessor
  // ---------------------------------------------------------------------------

  /** What the accessor keeps of a reduced DataArray: its chi coordinate and that coordinate's extremes. */
  datatype ChiAxis = ChiAxis(chi: seq<real>, chiMin: real, chiMax: real)

  /** The accessor after construction: data with a chi coordinate is 'reduced', data without one is 'raw'. */
  datatype Accessor = Raw | Reduced(axis: ChiAxis)

  /** `np.min` of an empty chi coordinate raises, and the constructor does not catch it. */
  datatype InitError = EmptyChiCoordinate

  /** `chiMin` and `chiMax` are the least and the greatest value of the chi coordinate. */
  ghost predicate WellFormed(a: ChiAxis) {
    && |a.chi| > 0
    && a.chiMin in a.chi
    && a.chiMax in a.chi
    && forall i | 0 <= i < |a.chi| :: a.chiMin <= a.chi[i] <= a.chiMax
  }

  function MinOf(s: seq<real>): (m: real)
    requires |s| > 0
    ensures m in s
    ensures forall i | 0 <= i < |s| :: m <= s[i]
  {
    if |s| == 1 then s[0]
    else
      var rest := MinOf(s[1..]);
      assert forall i | 1 <= i < |s| :: s[i] == s[1..][i - 1];
      if s[0] <= rest then s[0] else rest
  }

  function MaxOf(s: seq<real>): (m: real)
    requires |s| > 0
    ensures m in s
    ensures forall i | 0 <= i < |s| :: s[i] <= m
  {
    if |s| == 1 then s[0]
    else
      var rest := MaxOf(s[1..]);
      assert forall i | 1 <= i < |s| :: s[i] == s[1..][i - 1];
      if s[0] >= rest then s[0] else rest
  }

  /** The accessor's constructor, given the chi coordinate when the DataArray has one. */
  function Init(chi: Option<seq<real>>): (r: Result<Accessor, InitError>)
    ensures chi.None? ==> r == Success(Raw)
    ensures chi.Some? && chi.value == [] ==> r == Failure(EmptyChiCoordinate)
    ensures chi.Some? && chi.value != [] ==>
      r.Success? && r.value.Reduced? && r.value.axis.chi == chi.value && WellFormed(r.value.axis)
  {
    match chi
    case None => Success(Raw)
    case Some(values) =>
      if values == [] then Failure(EmptyChiCoordinate)
      else Success(Reduced(ChiAxis(values, MinOf(values), MaxOf(values))))
  }

  // ---------------------------------------------------------------------------
  // _reRange_chi
  // ---------------------------------------------------------------------------

  /** Moves `chi` by whole turns toward [chiMin, chiMax]; an angle already in the range is kept. */
  function ReRangeChi(a: ChiAxis, chi: real): (r: real)
    ensures a.chiMin <= chi <= a.chiMax ==> r == chi
    ensures chi < a.chiMin ==> a.chiMin < r <= a.chiMin + 360.0
    ensures a.chiMin <= chi && chi > a.chiMax ==> a.chiMax - 360.0 <= r < a.chiMax
    ensures SameAngle(r, chi)
  {
    if chi < a.chiMin then
      var nshift := ((a.chiMin - chi) / 360.0).Floor + 1;
      SameAngleByTurns(chi + 360.0 * nshift as real, chi, nshift);
      chi + 360.0 * nshift as real
    else if chi > a.chiMax then
      var nshift := ((chi - a.chiMax) / 360.0).Floor + 1;
      SameAngleByTurns(chi - 360.0 * nshift as real, chi, -nshift);
      chi - 360.0 * nshift as real
    else
      SameAngleByTurns(chi, chi, 0);
      chi
  }

  /** When the range spans at least a full turn, the moved angle always lands inside it. */
  lemma ReRangeLandsInWideRange(a: ChiAxis, chi: real)
    requires a.chiMax - a.chiMin >= 360.0
    ensures a.chiMin <= ReRangeChi(a, chi) <= a.chiMax
  {
  }

  /**
   * An angle a whole number of turns below `chiMin` is moved to `chiMin + 360`, one turn past
   * the congruent angle `chiMin` itself; symmetrically above `chiMax`.
   */
  lemma ReRangeAtWholeTurn(a: ChiAxis, chi: real)
    requires a.chiMin <= a.chiMax
    ensures chi < a.chiMin && SameAngle(a.chiMin, chi) ==> ReRangeChi(a, chi) == a.chiMin + 360.0
    ensures chi > a.chiMax && SameAngle(chi, a.chiMax) ==> ReRangeChi(a, chi) == a.chiMax - 360.0
  {
    if chi < a.chiMin && SameAngle(a.chiMin, chi) {
      var k := TurnsBetween(a.chiMin, chi);
      assert ((a.chiMin - chi) / 360.0).Floor == k;
    }
    if chi > a.chiMax && SameAngle(chi, a.chiMax) {
      var k := TurnsBetween(chi, a.chiMax);
      assert ((chi - a.chiMax) / 360.0).Floor == k;
    }
  }

  // ---------------------------------------------------------------------------
  // slice_chi
  // ---------------------------------------------------------------------------

  /**
   * The slice ends `chi - width` and `chi + width` after the whole-turn shift that
   * `slice_chi` applies when both lie below the range (its case 3) or both above it (case 5).
   */
  function SliceEnds(a: ChiAxis, chi: real, width: real): (ends: (real, real))
    ensures ends.1 - ends.0 == 2.0 * width
    ensures ends.0 - (chi - width) == ends.1 - (chi + width)
    ensures SameAngle(ends.0, chi - width) && SameAngle(ends.1, chi + width)
    ensures chi - width < a.chiMin && chi + width < a.chiMin ==>
      a.chiMin < ends.1 <= a.chiMin + 360.0 && ends.1 == ReRangeChi(a, chi + width)
    ensures !(chi - width < a.chiMin && chi + width < a.chiMin) && chi - width > a.chiMax && chi + width > a.chiMax ==>
      a.chiMax - 360.0 <= ends.0 < a.chiMax &&
      (a.chiMin <= a.chiMax ==> ends.0 == ReRangeChi(a, chi - width))
    ensures !(chi - width < a.chiMin && chi + width < a.chiMin) && !(chi - width > a.chiMax && chi + width > a.chiMax) ==>
      ends == (chi - width, chi + width)
  {
    var begin, end := chi - width, chi + width;
    if begin < a.chiMin && end < a.chiMin then
      var nshift := ((a.chiMin - end) / 360.0).Floor + 1;
      SameAngleByTurns(begin + 360.0 * nshift as real, begin, nshift);
      SameAngleByTurns(end + 360.0 * nshift as real, end, nshift);
      (begin + 360.0 * nshift as real, end + 360.0 * nshift as real)
    else if begin > a.chiMax && end > a.chiMax then
      var nshift := ((begin - a.chiMax) / 360.0).Floor + 1;
      SameAngleByTurns(begin - 360.0 * nshift as real, begin, -nshift);
      SameAngleByTurns(end - 360.0 * nshift as real, end, -nshift);
      (begin - 360.0 * nshift as real, end - 360.0 * nshift as real)
    else
      SameAngleByTurns(begin, begin, 0);
      SameAngleByTurns(end, end, 0);
      (begin, end)
  }

  /** The four remaining cases of `slice_chi`, once the slice ends have been shifted. */
  datatype SliceCase = WholeRange | WrapUnder | WrapOver | Inside

  function Classify(a: ChiAxis, begin: real, end: real): SliceCase {
    if begin < a.chiMin && end > a.chiMax then WholeRange
    else if begin < a.chiMin && end < a.chiMax then WrapUnder
    else if end > a.chiMax && begin > a.chiMin then WrapOver
    else Inside
  }

  /** Whether the selector keeps chi value `c`, for shifted slice ends `begin` and `end`. */
  predicate InSlice(a: ChiAxis, begin: real, end: real, c: real) {
    match Classify(a, begin, end)
    case WholeRange => true
    case WrapUnder =>
      (c >= a.chiMin && c <= end) || (c <= a.chiMax && c >= a.chiMax - (a.chiMin - begin) + 1.0)
    case WrapOver =>
      (c <= a.chiMax && c >= begin) || (c >= a.chiMin && c <= a.chiMin + (end - a.chiMax) - 1.0)
    case Inside =>
      c >= begin && c <= end
  }

  /** The boolean selector over the chi coordinate, and whether the whole-range warning is issued. */
  datatype ChiSlice = ChiSlice(selector: seq<bool>, warned: bool)

  /** `slice_chi` without the final averaging: which chi coordinates the wedge `chi ± width` keeps. */
  function SliceChi(a: ChiAxis, chi: real, width: real): (s: ChiSlice)
    ensures |s.selector| == |a.chi|
    ensures s.warned <==> SliceEnds(a, chi, width).0 < a.chiMin && SliceEnds(a, chi, width).1 > a.chiMax
    ensures s.warned ==> forall i | 0 <= i < |a.chi| :: s.selector[i]
    ensures a.chiMin <= chi - width && chi + width <= a.chiMax ==>
      forall i | 0 <= i < |a.chi| :: s.selector[i] <==> chi - width <= a.chi[i] <= chi + width
  {
    var (begin, end) := SliceEnds(a, chi, width);
    ChiSlice(seq(|a.chi|, i requires 0 <= i < |a.chi| => InSlice(a, begin, end, a.chi[i])),
             Classify(a, begin, end) == WholeRange)
  }

  /** `c` is the direction of some angle of the arc from `begin` to `end` (an arc shorter than a turn). */
  ghost predicate OnArc(begin: real, end: real, c: real) {
    Mod360(c - begin) <= end - begin
  }

  /**
   * On a chi coordinate spanning exactly 359 degrees (from `chiMin` to `chiMin + 359`, whatever
   * values lie in between), a wedge no wider than that span selects exactly the chi values whose
   * direction lies within `width` of `chi`: the `+ 1` and `- 1` of the wrap-around cases make up
   * the missing degree between `chiMax` and `chiMin + 360`.
   */
  lemma SliceIsArcOnDegreeGrid(a: ChiAxis, chi: real, width: real, i: nat)
    requires WellFormed(a) && a.chiMax - a.chiMin == 359.0
    requires 0.0 <= width && 2.0 * width <= 359.0
    requires i < |a.chi|
    ensures SliceChi(a, chi, width).selector[i] <==> OnArc(chi - width, chi + width, a.chi[i])
  {
    var (begin, end) := SliceEnds(a, chi, width);
    var c := a.chi[i];
    assert a.chiMin <= c <= a.chiMax;
    var k := TurnsBetween(begin, chi - width);
    SameAngleByTurns(c - (chi - width), c - begin, k);
    Mod360Congruent(c - (chi - width), c - begin);
    assert OnArc(chi - width, chi + width, c) <==> OnArc(begin, end, c);
    // Wherever the shift left them, the ends stay within a degree of the range.
    assert a.chiMin - 1.0 <= end && begin <= a.chiMax + 1.0;
    InSliceOnDegreeGrid(a, begin, end, c);
    assert SliceChi(a, chi, width).selector[i] == InSlice(a, begin, end, c);
  }

  /** On the 359-degree grid, the shifted ends select the chi values on the arc between them. */
  lemma InSliceOnDegreeGrid(a: ChiAxis, begin: real, end: real, c: real)
    requires a.chiMax - a.chiMin == 359.0 && a.chiMin <= c <= a.chiMax
    requires 0.0 <= end - begin <= 359.0
    requires a.chiMin - 1.0 <= end && begin <= a.chiMax + 1.0
    ensures InSlice(a, begin, end, c) <==> OnArc(begin, end, c)
  {
    var d := c - begin;
    if d < 0.0 {
      Mod360Shift(d, -1);
      assert Mod360(d) == d + 360.0;
    } else if d < 360.0 {
      Mod360Shift(d, 0);
      assert Mod360(d) == d;
    } else {
      Mod360Shift(d, 1);
      assert Mod360(d) == d - 360.0;
    }
  }

  // ---------------------------------------------------------------------------
  // AR: wedge centres and their angular difference
  // ---------------------------------------------------------------------------

  /** The exceptions `AR` raises while choosing the wedge centres. */
  datatype ArError =
    | InferWithExplicitChi                          // ValueError
    | PolarizationCountUnsupported(count: nat)      // NotImplementedError: not 1 or 2 values
    | NoPolarizationDim                             // NotImplementedError: nothing to infer from

  /**
   * `chi_center1` and `chi_center2` as `AR` settles them: given explicitly, or inferred from the
   * polarization coordinate (`pol`, absent when polarization is not a dimension), or defaulted.
   */
  function ResolveCenters(a: ChiAxis, center1: Option<real>, center2: Option<real>,
                          inferFromPol: bool, pol: Option<seq<real>>): (r: Result<(real, real), ArError>)
    ensures r.Failure? <==>
      inferFromPol && (center1.Some? || pol.None? || (|pol.value| != 1 && |pol.value| != 2))
    ensures inferFromPol && center1.Some? ==> r == Failure(InferWithExplicitChi)
    ensures inferFromPol && center1.None? && pol.None? ==> r == Failure(NoPolarizationDim)
    ensures inferFromPol && center1.None? && pol.Some? && |pol.value| != 1 && |pol.value| != 2 ==>
      r == Failure(PolarizationCountUnsupported(|pol.value|))
    ensures r.Success? && !inferFromPol && center1.None? ==> r.value.0 == 0.0
    ensures r.Success? && !inferFromPol && center1.Some? ==>
      r.value.0 == ReRangeChi(a, center1.value) && SameAngle(r.value.0, center1.value)
    ensures r.Success? && inferFromPol ==>
      r.value.0 == ReRangeChi(a, pol.value[0]) && SameAngle(r.value.0, pol.value[0])
    ensures r.Success? && inferFromPol && |pol.value| == 2 ==> r.value.1 == pol.value[1]
    ensures r.Success? && center2.Some? && !(inferFromPol && |pol.value| == 2) ==> r.value.1 == center2.value
    ensures r.Success? && center2.None? && !(inferFromPol && |pol.value| == 2) ==>
      r.value.1 == ReRangeChi(a, r.value.0 - 90.0) && SameAngle(r.value.1, r.value.0 - 90.0)
  {
    if inferFromPol && center1.Some? then Failure(InferWithExplicitChi)
    else if inferFromPol && pol.None? then Failure(NoPolarizationDim)
    else if inferFromPol && |pol.value| != 1 && |pol.value| != 2 then
      Failure(PolarizationCountUnsupported(|pol.value|))
    else
      var given1 := if inferFromPol then Some(pol.value[0]) else center1;
      var given2 := if inferFromPol && |pol.value| == 2 then Some(pol.value[1]) else center2;
      var chi1 := if given1.None? then 0.0 else ReRangeChi(a, given1.value);
      var chi2 := if given2.None? then ReRangeChi(a, chi1 - 90.0) else given2.value;
      Success((chi1, chi2))
  }

  /** The absolute circular difference `min((c1 - c2) % 360, (c2 - c1) % 360)`. */
  function CircularDiff(c1: real, c2: real): (d: real)
    ensures 0.0 <= d <= 180.0
    ensures d == Mod360(c1 - c2) || d == Mod360(c2 - c1)
    ensures d <= Mod360(c1 - c2) && d <= Mod360(c2 - c1)
  {
    Mod360Negate(c1 - c2);
    assert c2 - c1 == -(c1 - c2);
    var x, y := Mod360(c1 - c2), Mod360(c2 - c1);
    if y < x then y else x
  }

  /** The difference does not depend on which centre comes first. */
  lemma CircularDiffSymmetric(c1: real, c2: real)
    ensures CircularDiff(c1, c2) == CircularDiff(c2, c1)
  {
  }

  /** Centres naming the same directions have the same circular difference. */
  lemma CircularDiffOfSameAngles(c1: real, c2: real, d1: real, d2: real)
    requires SameAngle(c1, d1) && SameAngle(c2, d2)
    ensures CircularDiff(c1, c2) == CircularDiff(d1, d2)
  {
    var k1 := TurnsBetween(c1, d1);
    var k2 := TurnsBetween(c2, d2);
    SameAngleByTurns(c1 - c2, d1 - d2, k1 - k2);
    SameAngleByTurns(c2 - c1, d2 - d1, k2 - k1);
    Mod360Congruent(c1 - c2, d1 - d2);
    Mod360Congruent(c2 - c1, d2 - d1);
  }

  /** `AR` warns exactly when the two wedge centres are not 90 ± 2 degrees apart. */
  predicate AngleWarning(c1: real, c2: real) {
    !(88.0 <= CircularDiff(c1, c2) <= 92.0)
  }

  /** A defaulted second centre is a quarter turn from the first, so `AR` never warns about it. */
  lemma DefaultSecondCenterIsPerpendicular(a: ChiAxis, center1: Option<real>, inferFromPol: bool, pol: Option<seq<real>>)
    requires ResolveCenters(a, center1, None, inferFromPol, pol).Success?
    requires !(inferFromPol && |pol.value| == 2)
    ensures var (chi1, chi2) := ResolveCenters(a, center1, None, inferFromPol, pol).value;
      CircularDiff(chi1, chi2) == 90.0 && !AngleWarning(chi1, chi2)
  {
    var (chi1, chi2) := ResolveCenters(a, center1, None, inferFromPol, pol).value;
    CircularDiffOfSameAngles(chi1, chi2, chi1, chi1 - 90.0);
    Mod360Shift(chi1 - (chi1 - 90.0), 0);
    Mod360Shift((chi1 - 90.0) - chi1, -1);
  }

  /** A reflected centre (`_reRange_chi(center + 180)`) points the opposite way. */
  lemma ReflectedCenterIsOpposite(a: ChiAxis, center: real)
    ensures CircularDiff(center, ReRangeChi(a, center + 180.0)) == 180.0
  {
    CircularDiffOfSameAngles(center, ReRangeChi(a, center + 180.0), center, center + 180.0);
    Mod360Shift(center - (center + 180.0), -1);
    Mod360Shift((center + 180.0) - center, 0);
  }

  // ---------------------------------------------------------------------------
  // _checkChiOverlap
  // ---------------------------------------------------------------------------

  /** No chi value occurs twice, as xarray's alignment of two chi coordinates requires. */
  ghost predicate Distinct(chi: seq<real>) {
    forall i, j | 0 <= i < j < |chi| :: chi[i] != chi[j]
  }

  /** How many entries of a selector are set. */
  function Count(selector: seq<bool>): nat {
    if selector == [] then 0 else (if selector[0] then 1 else 0) + Count(selector[1..])
  }

  /** The entries both selectors keep. */
  function Both(s1: seq<bool>, s2: seq<bool>): (s: seq<bool>)
    requires |s1| == |s2|
    ensures |s| == |s1| && forall i | 0 <= i < |s| :: s[i] <==> s1[i] && s2[i]
  {
    seq(|s1|, i requires 0 <= i < |s1| => s1[i] && s2[i])
  }

  /** The chi values a selector keeps, in coordinate order (`isel` with a boolean selector). */
  function WedgeChi(chi: seq<real>, selector: seq<bool>): (w: seq<real>)
    requires |selector| == |chi|
    ensures |w| == Count(selector) <= |chi|
    ensures forall x :: x in w <==> exists i | 0 <= i < |chi| :: selector[i] && chi[i] == x
  {
    if chi == [] then []
    else
      var rest := WedgeChi(chi[1..], selector[1..]);
      assert forall i | 1 <= i < |chi| :: chi[i] == chi[1..][i - 1] && selector[i] == selector[1..][i - 1];
      assert forall i | 0 <= i < |chi| - 1 :: chi[1..][i] == chi[i + 1] && selector[1..][i] == selector[i + 1];
      if selector[0] then [chi[0]] + rest else rest
  }

  /** The chi values of `w1` that `w2` also holds: what aligned equality of the two chi coordinates keeps. */
  function SharedChi(w1: seq<real>, w2: seq<real>): (s: seq<real>)
    ensures |s| <= |w1|
    ensures forall x :: x in s <==> x in w1 && x in w2
  {
    if w1 == [] then []
    else if w1[0] in w2 then [w1[0]] + SharedChi(w1[1..], w2)
    else SharedChi(w1[1..], w2)
  }

  /** Only which values of `w1` the second coordinate holds matters to the shared values. */
  lemma {:induction false} SharedChiByMembership(w1: seq<real>, w2: seq<real>, w2': seq<real>)
    requires forall x | x in w1 :: (x in w2 <==> x in w2')
    ensures SharedChi(w1, w2) == SharedChi(w1, w2')
  {
    if w1 != [] {
      var h := w1[0];
      assert h in w1;
      assert h in w2 <==> h in w2';
      assert forall x | x in w1[1..] :: x in w1;
      SharedChiByMembership(w1[1..], w2, w2');
    }
  }

  /** Without repeated values, the first chi value is kept exactly when the selector's first entry is set. */
  lemma HeadOfWedge(chi: seq<real>, s: seq<bool>)
    requires |s| == |chi| && chi != [] && Distinct(chi)
    ensures Distinct(chi[1..])
    ensures chi[0] in WedgeChi(chi, s) <==> s[0]
    ensures chi[0] !in WedgeChi(chi[1..], s[1..])
    ensures WedgeChi(chi, s) == (if s[0] then [chi[0]] else []) + WedgeChi(chi[1..], s[1..])
  {
    var rest := chi[1..];
    forall i, j | 0 <= i < j < |rest| ensures rest[i] != rest[j] {
      assert rest[i] == chi[i + 1] && rest[j] == chi[j + 1];
    }
    if chi[0] in WedgeChi(chi, s) {
      var i :| 0 <= i < |chi| && s[i] && chi[i] == chi[0];
      assert i == 0;
    }
  }

  /**
   * Over a chi coordinate without repeated values, the values two wedges share are exactly
   * the chi values at the indices both selectors keep, in coordinate order.
   */
  lemma {:induction false} SharedOfWedges(chi: seq<real>, s1: seq<bool>, s2: seq<bool>)
    requires |s1| == |chi| && |s2| == |chi|
    requires Distinct(chi)
    ensures SharedChi(WedgeChi(chi, s1), WedgeChi(chi, s2)) == WedgeChi(chi, Both(s1, s2))
  {
    if chi != [] {
      var w1 := WedgeChi(chi[1..], s1[1..]);
      var w2 := WedgeChi(chi, s2);
      var w2' := WedgeChi(chi[1..], s2[1..]);
      HeadOfWedge(chi, s1);
      HeadOfWedge(chi, s2);
      HeadOfWedge(chi, Both(s1, s2));
      SharedOfWedges(chi[1..], s1[1..], s2[1..]);
      assert Both(s1, s2)[1..] == Both(s1[1..], s2[1..]);
      assert forall x | x in w1 :: x != chi[0];
      SharedChiByMembership(w1, w2, w2');
      if s1[0] {
        assert WedgeChi(chi, s1) == [chi[0]] + w1;
      }
    }
  }

  /**
   * The overlap test `len(overlapping_values) > 1` over a chi coordinate without repeated values:
   * the two wedges share more than one value exactly when more than one index is kept by both.
   */
  lemma OverlapCountsCommonIndices(chi: seq<real>, s1: seq<bool>, s2: seq<bool>)
    requires |s1| == |chi| && |s2| == |chi|
    requires Distinct(chi)
    ensures |SharedChi(WedgeChi(chi, s1), WedgeChi(chi, s2))| == Count(Both(s1, s2))
    ensures |SharedChi(WedgeChi(chi, s1), WedgeChi(chi, s2))| > 1 <==> Count(Both(s1, s2)) > 1
  {
    SharedOfWedges(chi, s1, s2);
  }

  /** `p` comes strictly before `q` in the lexicographic order of index pairs. */
  predicate PairBefore(p: (nat, nat), q: (nat, nat)) {
    p.0 < q.0 || (p.0 == q.0 && p.1 < q.1)
  }

  /** Each pair strictly before the next: no pair appears twice. */
  predicate StrictlyOrdered(ps: seq<(nat, nat)>) {
    forall k, l | 0 <= k < l < |ps| :: PairBefore(ps[k], ps[l])
  }

  /** The pairs `(i, j)` with `i < j < n`, from row `i` on, in `itertools.combinations` order. */
  function CombinationsFrom(i: nat, n: nat): (ps: seq<(nat, nat)>)
    decreases n - i
  {
    if i >= n then []
    else seq(n - i - 1, k requires 0 <= k < n - i - 1 => (i, i + 1 + k)) + CombinationsFrom(i + 1, n)
  }

  /** `CombinationsFrom(i, n)` holds exactly the pairs `i <= p.0 < p.1 < n`, each once, in order. */
  lemma {:induction false} CombinationsFromExact(i: nat, n: nat)
    ensures forall p :: p in CombinationsFrom(i, n) <==> i <= p.0 < p.1 < n
    ensures StrictlyOrdered(CombinationsFrom(i, n))
    ensures forall p | p in CombinationsFrom(i, n) :: i <= p.0
    decreases n - i
  {
    if i < n {
      CombinationsFromExact(i + 1, n);
      var row: seq<(nat, nat)> := seq(n - i - 1, k requires 0 <= k < n - i - 1 => (i, i + 1 + k));
      var tail := CombinationsFrom(i + 1, n);
      assert CombinationsFrom(i, n) == row + tail;
      forall p: (nat, nat) | i <= p.0 < p.1 < n ensures p in row + tail {
        if p.0 == i {
          assert row[p.1 - i - 1] == p;
        } else {
          assert p in tail;
        }
      }
      RowThenTailOrdered(i, row, tail);
    }
  }

  /** Row `i` in increasing second index, followed by ordered pairs of later rows, is ordered. */
  lemma RowThenTailOrdered(i: nat, row: seq<(nat, nat)>, tail: seq<(nat, nat)>)
    requires forall k | 0 <= k < |row| :: row[k] == (i, i + 1 + k)
    requires StrictlyOrdered(tail)
    requires forall p | p in tail :: i + 1 <= p.0
    ensures StrictlyOrdered(row + tail)
  {
    var c := row + tail;
    forall k, l | 0 <= k < l < |c| ensures PairBefore(c[k], c[l]) {
      if l < |row| {
        assert c[k] == row[k] && c[l] == row[l];
      } else if k < |row| {
        assert c[k] == row[k] && c[l] == tail[l - |row|];
        assert tail[l - |row|] in tail;
      } else {
        assert c[k] == tail[k - |row|] && c[l] == tail[l - |row|];
      }
    }
  }

  /** Every unordered pair of `n` wedges, once each, in the order `_checkChiOverlap` visits them. */
  function Combinations(n: nat): (ps: seq<(nat, nat)>)
    ensures forall p :: p in ps <==> p.0 < p.1 < n
    ensures StrictlyOrdered(ps)
  {
    CombinationsFromExact(0, n);
    CombinationsFrom(0, n)
  }

  /** The pairs of `ps` whose wedges share more than one chi value, in the order of `ps`. */
  function OverlappingPairs(ws: seq<seq<real>>, ps: seq<(nat, nat)>): (r: seq<(nat, nat)>)
    requires forall p | p in ps :: p.0 < |ws| && p.1 < |ws|
    ensures forall p :: p in r <==> p in ps && |SharedChi(ws[p.0], ws[p.1])| > 1
  {
    if ps == [] then []
    else
      var rest := OverlappingPairs(ws, ps[1..]);
      if |SharedChi(ws[ps[0].0], ws[ps[0].1])| > 1 then [ps[0]] + rest else rest
  }

  /** Keeping some of an ordered list of pairs keeps them ordered. */
  lemma {:induction false} OverlappingPairsOrdered(ws: seq<seq<real>>, ps: seq<(nat, nat)>)
    requires forall p | p in ps :: p.0 < |ws| && p.1 < |ws|
    requires StrictlyOrdered(ps)
    ensures StrictlyOrdered(OverlappingPairs(ws, ps))
  {
    if ps != [] {
      var tail := ps[1..];
      assert forall k | 0 <= k < |tail| :: tail[k] == ps[k + 1];
      OverlappingPairsOrdered(ws, tail);
      var rest := OverlappingPairs(ws, tail);
      if |SharedChi(ws[ps[0].0], ws[ps[0].1])| > 1 {
        forall p | p in rest ensures PairBefore(ps[0], p) {
          var k :| 0 <= k < |tail| && tail[k] == p;
        }
        ConsOrdered(ps[0], rest);
      }
    }
  }

  /** A pair before every pair of an ordered list, put in front of it, keeps it ordered. */
  lemma ConsOrdered(x: (nat, nat), rest: seq<(nat, nat)>)
    requires StrictlyOrdered(rest)
    requires forall p | p in rest :: PairBefore(x, p)
    ensures StrictlyOrdered([x] + rest)
  {
    var c := [x] + rest;
    forall k, l | 0 <= k < l < |c| ensures PairBefore(c[k], c[l]) {
      assert c[l] == rest[l - 1] && rest[l - 1] in rest;
      if k > 0 {
        assert c[k] == rest[k - 1];
      }
    }
  }

  /**
   * The warnings `_checkChiOverlap` issues for a list of wedges: each unordered pair is examined
   * once, in `itertools.combinations` order, and warned about exactly when the two wedges share
   * more than one chi value. `tolerance` is accepted and, as in the source, not consulted.
   */
  function CheckChiOverlap(ws: seq<seq<real>>, tolerance: int): (r: seq<(nat, nat)>)
    ensures forall p :: p in r <==> p.0 < p.1 < |ws| && |SharedChi(ws[p.0], ws[p.1])| > 1
    ensures StrictlyOrdered(r)
  {
    OverlappingPairsOrdered(ws, Combinations(|ws|));
    OverlappingPairs(ws, Combinations(|ws|))
  }

  // ---------------------------------------------------------------------------
  // AR: the wedges it extracts and the warnings it issues before averaging
  // ---------------------------------------------------------------------------

  /** What `AR` settles before the intensity arithmetic: wedge centres, selectors and warnings. */
  datatype ArPlan = ArPlan(
    centers: seq<real>,
    wedges: seq<ChiSlice>,
    angleWarning: bool,
    overlapWarnings: seq<(nat, nat)>)

  /**
   * `AR`'s plan for the resolved centres `chi1` and `chi2`: the two centres, then with
   * `reflectWedges` their opposites, each `_reRange_chi(center + 180)`; one slice of half-width `width` per centre; the angle
   * warning; and a warning for exactly the pairs of wedges that share more than one chi value.
   */
  ghost predicate Planned(a: ChiAxis, chi1: real, chi2: real, width: real, reflectWedges: bool, plan: ArPlan) {
    && |plan.centers| == |plan.wedges| == (if reflectWedges then 4 else 2)
    && plan.centers[0] == chi1 && plan.centers[1] == chi2
    && (forall k | 0 <= k < |plan.wedges| :: plan.wedges[k] == SliceChi(a, plan.centers[k], width))
    && (reflectWedges ==>
          plan.centers[2] == ReRangeChi(a, chi1 + 180.0) && plan.centers[3] == ReRangeChi(a, chi2 + 180.0) &&
          CircularDiff(chi1, plan.centers[2]) == 180.0 && CircularDiff(chi2, plan.centers[3]) == 180.0)
    && (plan.angleWarning <==> AngleWarning(chi1, chi2))
    && (forall p :: p in plan.overlapWarnings <==> WedgesOverlap(a, plan.wedges, p.0, p.1))
  }

  /** What `AR` settles once both centres are known. */
  function PlanFor(a: ChiAxis, chi1: real, chi2: real, width: real, reflectWedges: bool): (plan: ArPlan)
    ensures Planned(a, chi1, chi2, width, reflectWedges, plan)
  {
    var centers := ArCenters(a, chi1, chi2, reflectWedges);
    var wedges := Wedges(a, centers, width);
    ArPlan(centers, wedges, AngleWarning(chi1, chi2), CheckChiOverlap(WedgeValues(a, wedges), 1))
  }

  /** `AR` up to the intensity arithmetic: the centres are resolved, or their error raised. */
  function PlanAR(a: ChiAxis, center1: Option<real>, center2: Option<real>, width: real,
                  reflectWedges: bool, inferFromPol: bool, pol: Option<seq<real>>): (r: Result<ArPlan, ArError>)
    ensures r.Failure? <==> ResolveCenters(a, center1, center2, inferFromPol, pol).Failure?
    ensures r.Failure? ==> r.error == ResolveCenters(a, center1, center2, inferFromPol, pol).error
    ensures r.Success? ==>
      var (chi1, chi2) := ResolveCenters(a, center1, center2, inferFromPol, pol).value;
      Planned(a, chi1, chi2, width, reflectWedges, r.value)
  {
    match ResolveCenters(a, center1, center2, inferFromPol, pol)
    case Failure(e) => Failure(e)
    case Success((chi1, chi2)) => Success(PlanFor(a, chi1, chi2, width, reflectWedges))
  }

  /** Wedges `i < j` both select more than one common chi value. */
  predicate WedgesOverlap(a: ChiAxis, wedges: seq<ChiSlice>, i: nat, j: nat)
    requires forall k | 0 <= k < |wedges| :: |wedges[k].selector| == |a.chi|
  {
    i < j < |wedges| && |SharedChi(WedgeChi(a.chi, wedges[i].selector), WedgeChi(a.chi, wedges[j].selector))| > 1
  }

  /** The wedge centres: the two resolved centres, followed by their reflections when asked for. */
  function ArCenters(a: ChiAxis, chi1: real, chi2: real, reflectWedges: bool): (cs: seq<real>)
    ensures |cs| == (if reflectWedges then 4 else 2) && cs[0] == chi1 && cs[1] == chi2
    ensures reflectWedges ==> cs[2] == ReRangeChi(a, chi1 + 180.0) && cs[3] == ReRangeChi(a, chi2 + 180.0)
    ensures reflectWedges ==> CircularDiff(cs[0], cs[2]) == 180.0 && CircularDiff(cs[1], cs[3]) == 180.0
  {
    if reflectWedges then
      ReflectedCenterIsOpposite(a, chi1);
      ReflectedCenterIsOpposite(a, chi2);
      [chi1, chi2, ReRangeChi(a, chi1 + 180.0), ReRangeChi(a, chi2 + 180.0)]
    else [chi1, chi2]
  }

  /** One slice of half-width `width` around each centre. */
  function Wedges(a: ChiAxis, centers: seq<real>, width: real): (ws: seq<ChiSlice>)
    ensures |ws| == |centers|
    ensures forall k | 0 <= k < |ws| :: ws[k] == SliceChi(a, centers[k], width) && |ws[k].selector| == |a.chi|
  {
    seq(|centers|, k requires 0 <= k < |centers| => SliceChi(a, centers[k], width))
  }

  /** The chi values each wedge selects. */
  function WedgeValues(a: ChiAxis, wedges: seq<ChiSlice>): (vs: seq<seq<real>>)
    requires forall k | 0 <= k < |wedges| :: |wedges[k].selector| == |a.chi|
    ensures |vs| == |wedges|
    ensures forall k | 0 <= k < |wedges| :: vs[k] == WedgeChi(a.chi, wedges[k].selector)
  {
    seq(|wedges|, k requires 0 <= k < |wedges| => WedgeChi(a.chi, wedges[k].selector))
  }
}
