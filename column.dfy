/** Per-column mixed-layer diagnostics of process_d2nf.py: the half-level
    boundaries, the overlap-weighted layer means, the surface extrapolation,
    the base temperature and gradient (`ml_avg_Tb_Tz_sfc`), and the scan for
    the first missing level (`topo`). */
module MixedLayer {
  import opened Floats
  import opened Grid

  /** Python's `a[k]` for `-n <= k < n`: a negative index counts from the end. */
  function PyIndex(n: nat, k: int): (r: nat)
    requires -(n as int) <= k < n
    ensures r < n && (k >= 0 ==> r == k)
  {
    if k < 0 then n + k else k
  }

  /** Strictly increasing level depths. */
  predicate Increasing(s: seq<real>)
  {
    forall k :: 0 <= k < |s| - 1 ==> s[k] < s[k + 1]
  }

  // ---------------------------------------------------------------- half levels

  /** Boundaries z_{k+1/2}: 0 at the surface, midpoints between level centres,
      and a bottom boundary half a cell below the deepest centre (one metre
      below it for a single level). */
  function HalfLevels(depth: seq<real>): (z: seq<real>)
    requires |depth| >= 1
    ensures |z| == |depth| + 1 && z[0] == 0.0
  {
    var n := |depth|;
    seq(n + 1, k requires 0 <= k <= n =>
      if k == 0 then 0.0
      else if k < n then 0.5 * (depth[k - 1] + depth[k])
      else if n >= 2 then depth[n - 1] + 0.5 * (depth[n - 1] - depth[n - 2])
      else depth[n - 1] + 1.0)
  }

  /** For increasing, non-negative level depths, cell k is the interval
      `[z[k], z[k+1])`, it contains the level centre, and the cells are stacked
      without gaps or overlaps. */
  lemma HalfLevelsBracket(depth: seq<real>)
    requires |depth| >= 1 && Increasing(depth) && depth[0] >= 0.0
    ensures forall k :: 0 <= k < |depth| ==>
              HalfLevels(depth)[k] <= depth[k] < HalfLevels(depth)[k + 1]
  {
    var z := HalfLevels(depth);
    var n := |depth|;
    forall k | 0 <= k < n
      ensures z[k] <= depth[k] < z[k + 1]
    {
      if k > 0 {
        assert depth[k - 1] < depth[k];
      }
      if k + 1 < n {
        assert depth[k] < depth[k + 1];
      } else if n >= 2 {
        assert depth[n - 2] < depth[n - 1];
      }
    }
  }

  /** Consequently the half levels increase strictly. */
  lemma HalfLevelsIncrease(depth: seq<real>, z: seq<real>)
    requires |depth| >= 1 && Increasing(depth) && depth[0] >= 0.0 && z == HalfLevels(depth)
    ensures forall k :: 0 <= k < |depth| ==> z[k] <= depth[k] < z[k + 1]
  {
    HalfLevelsBracket(depth);
  }

  /** The `zhalf` loop: fills a fresh array with the half levels. */
  method ComputeHalfLevels(depth: seq<real>) returns (zhalf: array<real>)
    requires |depth| >= 1
    ensures fresh(zhalf) && zhalf[..] == HalfLevels(depth)
  {
    var n := |depth|;
    zhalf := new real[n + 1];
    zhalf[0] := 0.0;
    for k := 0 to n - 1
      invariant forall m :: 0 <= m <= k ==> zhalf[m] == HalfLevels(depth)[m]
    {
      zhalf[k + 1] := 0.5 * (depth[k] + depth[k + 1]);
    }
    if n >= 2 {
      zhalf[n] := depth[n - 1] + 0.5 * (depth[n - 1] - depth[n - 2]);
    } else {
      zhalf[n] := depth[n - 1] + 1.0;
    }
  }

  // ------------------------------------------------------------ layer averages

  /** The weighted sum of the overlap loop, continued from level `k` with the
      running sum `acc`: the loop stops at `kbot` or at the first cell whose top
      is at or below `h`; a cell contributes `vals[k] * w` where its overlap
      `w = min(h, z[k+1]) - z[k]` with `[0, h]` is positive. A NaN, once
      added, stays. */
  function LayerSum(vals: seq<Val>, z: seq<real>, h: real, kbot: nat, k: nat, acc: Val): (r: Val)
    requires kbot <= |vals| && kbot < |z| && k <= kbot
    ensures acc.None? ==> r.None?
    decreases kbot - k
  {
    if k == kbot || h <= z[k] then acc
    else
      var w := Min(h, z[k + 1]) - z[k];
      LayerSum(vals, z, h, kbot, k + 1, if w > 0.0 then Add(acc, Mul(vals[k], Some(w))) else acc)
  }

  /** The layer mean `sum / h`, NaN unless `h > 0`. */
  function LayerMean(vals: seq<Val>, z: seq<real>, h: real, kbot: nat): (r: Val)
    requires kbot <= |vals| && kbot < |z|
    ensures r.Some? <==> h > 0.0 && LayerSum(vals, z, h, kbot, 0, Some(0.0)).Some?
    ensures r.Some? ==> r.value * h == LayerSum(vals, z, h, kbot, 0, Some(0.0)).value
  {
    if h > 0.0 then Div(LayerSum(vals, z, h, kbot, 0, Some(0.0)), Some(h)) else None
  }

  /** One step of the overlap loop keeps the running sum within the bounds. */
  lemma AccumulateBounds(lo: real, hi: real, acc: real, v: real, w: real, top: real)
    requires lo * top <= acc <= hi * top && lo <= v <= hi && w > 0.0
    ensures lo * (top + w) <= acc + v * w <= hi * (top + w)
  {
    assert lo * w <= v * w <= hi * w;
    assert lo * (top + w) == lo * top + lo * w;
    assert hi * (top + w) == hi * top + hi * w;
  }

  /** When the boundaries increase and every valid value lies in `[lo, hi]`,
      the weighted sum over `[z[k], h]` lies in `[lo, hi]` times the thickness
      covered: the weights are non-negative and add up to the thickness. */
  lemma {:induction false} LayerSumBounds(vals: seq<Val>, z: seq<real>, h: real, kbot: nat, k: nat,
                                          acc: Val, lo: real, hi: real)
    requires kbot <= |vals| && kbot < |z| && k <= kbot
    requires forall m :: k <= m < kbot ==> z[m] < z[m + 1]
    requires forall m :: k <= m < kbot ==> vals[m].Some? && lo <= vals[m].value <= hi
    requires z[k] <= h <= z[kbot]
    requires acc.Some? && lo * z[k] <= acc.value <= hi * z[k]
    ensures LayerSum(vals, z, h, kbot, k, acc).Some?
    ensures lo * h <= LayerSum(vals, z, h, kbot, k, acc).value <= hi * h
    decreases kbot - k
  {
    if k == kbot || h <= z[k] {
      assert h == z[k];
    } else {
      var w := Min(h, z[k + 1]) - z[k];
      assert w > 0.0;
      var v := vals[k].value;
      var next := Add(acc, Mul(vals[k], Some(w)));
      assert next.value == acc.value + v * w;
      AccumulateBounds(lo, hi, acc.value, v, w, z[k]);
      if z[k + 1] < h {
        assert z[k] + w == z[k + 1];
        LayerSumBounds(vals, z, h, kbot, k + 1, next, lo, hi);
      } else {
        assert z[k] + w == h;
        assert LayerSum(vals, z, h, kbot, k + 1, next) == next;
      }
    }
  }

  /** The mixed-layer mean of values bounded by `[lo, hi]` lies in `[lo, hi]`
      (for increasing level depths and a thickness within the valid column). */
  lemma LayerMeanWithinBounds(vals: seq<Val>, depth: seq<real>, h: real, kbot: nat, lo: real, hi: real)
    requires |vals| == |depth| && 1 <= kbot <= |depth| && Increasing(depth) && depth[0] >= 0.0
    requires 0.0 < h <= depth[kbot - 1]
    requires forall m :: 0 <= m < kbot ==> vals[m].Some? && lo <= vals[m].value <= hi
    ensures LayerMean(vals, HalfLevels(depth), h, kbot).Some?
    ensures lo <= LayerMean(vals, HalfLevels(depth), h, kbot).value <= hi
  {
    var z := HalfLevels(depth);
    HalfLevelsIncrease(depth, z);
    assert depth[kbot - 1] < z[kbot];
    MeanOverIncreasingCells(vals, z, h, kbot, lo, hi);
  }

  lemma MeanOverIncreasingCells(vals: seq<Val>, z: seq<real>, h: real, kbot: nat, lo: real, hi: real)
    requires kbot <= |vals| && kbot < |z| && z[0] == 0.0 && 0.0 < h <= z[kbot]
    requires forall m :: 0 <= m < kbot ==> z[m] < z[m + 1]
    requires forall m :: 0 <= m < kbot ==> vals[m].Some? && lo <= vals[m].value <= hi
    ensures LayerMean(vals, z, h, kbot).Some?
    ensures lo <= LayerMean(vals, z, h, kbot).value <= hi
  {
    LayerSumBounds(vals, z, h, kbot, 0, Some(0.0), lo, hi);
    MeanFromSum(vals, z, h, kbot, lo, hi);
  }

  lemma MeanFromSum(vals: seq<Val>, z: seq<real>, h: real, kbot: nat, lo: real, hi: real)
    requires kbot <= |vals| && kbot < |z| && h > 0.0
    requires LayerSum(vals, z, h, kbot, 0, Some(0.0)).Some?
    requires lo * h <= LayerSum(vals, z, h, kbot, 0, Some(0.0)).value <= hi * h
    ensures LayerMean(vals, z, h, kbot).Some?
    ensures lo <= LayerMean(vals, z, h, kbot).value <= hi
  {
    var sum := LayerSum(vals, z, h, kbot, 0, Some(0.0));
    var mean := LayerMean(vals, z, h, kbot);
    QuotientBounds(sum.value, h, mean.value, lo, hi);
  }

  /** Dividing a sum bounded by `[lo*h, hi*h]` by `h > 0` gives a value in `[lo, hi]`. */
  lemma QuotientBounds(s: real, h: real, r: real, lo: real, hi: real)
    requires h > 0.0 && r * h == s && lo * h <= s <= hi * h
    ensures lo <= r <= hi
  {
    assert (r - lo) * h == s - lo * h;
    assert (hi - r) * h == hi * h - s;
  }

  /** The overlap weights add up to the layer thickness: averaging the constant
      1 gives exactly `h`. */
  lemma WeightsSumToThickness(depth: seq<real>, h: real, kbot: nat)
    requires 1 <= kbot <= |depth| && Increasing(depth) && depth[0] >= 0.0
    requires 0.0 < h <= depth[kbot - 1]
    ensures LayerSum(seq(|depth|, _ => Some(1.0)), HalfLevels(depth), h, kbot, 0, Some(0.0)) == Some(h)
  {
    var ones: seq<Val> := seq(|depth|, _ => Some(1.0));
    LayerMeanWithinBounds(ones, depth, h, kbot, 1.0, 1.0);
    var z := HalfLevels(depth);
    var mean := LayerMean(ones, z, h, kbot);
    assert mean.value * h == LayerSum(ones, z, h, kbot, 0, Some(0.0)).value;
  }

  /** Levels 5, 15, 25, 35 m have half levels 0, 10, 20, 30, 40 m, so a 20 m
      layer weights them 10, 10, 0, 0 (the loop stops at the third cell). */
  lemma OverlapWeightsExample(a: real, b: real, c: real, d: real)
    ensures HalfLevels([5.0, 15.0, 25.0, 35.0]) == [0.0, 10.0, 20.0, 30.0, 40.0]
    ensures LayerSum([Some(a), Some(b), Some(c), Some(d)], [0.0, 10.0, 20.0, 30.0, 40.0], 20.0, 4, 0, Some(0.0))
            == Some(10.0 * a + 10.0 * b)
  {
    var z := HalfLevels([5.0, 15.0, 25.0, 35.0]);
    assert z[1] == 10.0 && z[2] == 20.0 && z[3] == 30.0 && z[4] == 40.0;
    var vals := [Some(a), Some(b), Some(c), Some(d)];
    var zs := [0.0, 10.0, 20.0, 30.0, 40.0];
    var acc1 := Add(Some(0.0), Mul(vals[0], Some(10.0)));
    var acc2 := Add(acc1, Mul(vals[1], Some(10.0)));
    assert LayerSum(vals, zs, 20.0, 4, 0, Some(0.0)) == LayerSum(vals, zs, 20.0, 4, 1, acc1);
    assert LayerSum(vals, zs, 20.0, 4, 1, acc1) == LayerSum(vals, zs, 20.0, 4, 2, acc2);
    assert LayerSum(vals, zs, 20.0, 4, 2, acc2) == acc2;
    assert acc2.value == 10.0 * a + 10.0 * b;
  }

  // -------------------------------------------------------- surface temperature

  /** Whether `T(0)` is extrapolated: at least two valid levels, both top values
      finite and the second level deeper than the first. */
  predicate Extrapolates(col: seq<Val>, depth: seq<real>, kbot: int)
    requires |col| == |depth| >= 1
  {
    kbot >= 2 && |depth| >= 2 && col[0].Some? && col[1].Some? && depth[1] > depth[0]
  }

  /** `T(0)`: extrapolated linearly to depth 0 along the line through the top
      two levels, otherwise the top value itself. */
  function SurfaceTemp(col: seq<Val>, depth: seq<real>, kbot: int): (t0: Val)
    requires |col| == |depth| >= 1 && kbot <= |depth|
    ensures Extrapolates(col, depth, kbot) ==>
              t0.Some? &&
              (col[0].value - t0.value) * (depth[1] - depth[0]) == (col[1].value - col[0].value) * depth[0]
    ensures !Extrapolates(col, depth, kbot) ==> t0 == col[0]
  {
    if Extrapolates(col, depth, kbot) then
      Some(LineAtSurface(col[0].value, col[1].value, depth[0], depth[1]))
    else col[0]
  }

  /** The value at depth 0 of the line through `(z0, t0)` and `(z1, t1)`. */
  function LineAtSurface(t0: real, t1: real, z0: real, z1: real): (r: real)
    requires z1 > z0
    ensures (t0 - r) * (z1 - z0) == (t1 - t0) * z0
  {
    var m := (t1 - t0) / (z1 - z0);
    assert m * (z1 - z0) == t1 - t0;
    assert (m * z0) * (z1 - z0) == (m * (z1 - z0)) * z0;
    t0 - m * z0
  }

  /** Levels at 1 m and 3 m holding 20 and 18 extrapolate to 21 at the surface. */
  lemma SurfaceTempExample()
    ensures SurfaceTemp([Some(20.0), Some(18.0)], [1.0, 3.0], 2) == Some(21.0)
  {
    assert Extrapolates([Some(20.0), Some(18.0)], [1.0, 3.0], 2);
    var t := SurfaceTemp([Some(20.0), Some(18.0)], [1.0, 3.0], 2);
    assert (20.0 - t.value) * 2.0 == -2.0;
    assert t.value == 21.0;
  }

  // ------------------------------------------------- base temperature and slope

  /** numpy `searchsorted(a, h, side='right')` for sorted `a`: the length of the
      leading run of entries at most `h`. */
  function SearchRight(a: seq<real>, h: real): (c: nat)
    ensures c <= |a|
    ensures forall k :: 0 <= k < c ==> a[k] <= h
    ensures c < |a| ==> a[c] > h
  {
    if |a| == 0 || a[0] > h then 0 else 1 + SearchRight(a[1..], h)
  }

  /** On sorted input every entry from the insertion point on exceeds `h`, so the
      insertion point counts exactly the entries at most `h`. */
  lemma SearchRightSorted(a: seq<real>, h: real)
    requires Increasing(a)
    ensures forall k :: SearchRight(a, h) <= k < |a| ==> a[k] > h
  {
    var c := SearchRight(a, h);
    forall k | c <= k < |a|
      ensures a[k] > h
    {
      var m := c;
      while m < k
        invariant c <= m <= k && a[m] > h
      {
        m := m + 1;
      }
    }
  }

  /** `pos`: the last level at most `h` among the valid ones, clamped into
      `[0, kbot - 2]`; with a single valid level the clamp leaves -1. */
  function ContainingLevel(depth: seq<real>, kbot: int, h: real): (pos: int)
    requires 1 <= kbot <= |depth|
    ensures kbot >= 2 ==> 0 <= pos <= kbot - 2
    ensures kbot == 1 ==> pos == -1
    ensures kbot >= 2 && depth[0] <= h ==> depth[pos] <= h
  {
    var p0 := SearchRight(depth[..kbot], h) - 1;
    var p1 := if p0 < 0 then 0 else p0;
    if p1 >= kbot - 1 then kbot - 2 else p1
  }

  /** For increasing depths and `h` between the first and the last valid level,
      the containing pair brackets `h`. */
  lemma ContainingLevelBrackets(depth: seq<real>, kbot: int, h: real)
    requires 2 <= kbot <= |depth| && Increasing(depth)
    requires depth[0] <= h <= depth[kbot - 1]
    ensures depth[ContainingLevel(depth, kbot, h)] <= h <= depth[ContainingLevel(depth, kbot, h) + 1]
  {
    var a := depth[..kbot];
    SearchRightSorted(a, h);
    var c := SearchRight(a, h);
    var pos := ContainingLevel(depth, kbot, h);
    assert c >= 1;
    if c < kbot {
      assert pos == c - 1 && a[c] > h;
    } else {
      assert pos == kbot - 2;
    }
  }

  /** Mixed-layer base values: `tb` is the temperature at depth `h` and `tz` the
      vertical gradient there. */
  datatype Base = Base(tb: Val, tz: Val)

  /** The two levels the base values come from: `pos` and `pos + 1`, with
      Python's wrap-around for `pos = -1`. */
  function Pair(depth: seq<real>, kbot: int, h: real): (p: (nat, nat))
    requires 1 <= kbot <= |depth|
    ensures p.0 < |depth| && p.1 < kbot
    ensures kbot >= 2 ==> p.1 == p.0 + 1
    ensures kbot == 1 ==> p == (|depth| - 1, 0)
  {
    var pos := ContainingLevel(depth, kbot, h);
    (PyIndex(|depth|, pos), pos + 1)
  }

  /** Whether the pair is usable: the lower level deeper and both values finite. */
  predicate Interpolates(col: seq<Val>, depth: seq<real>, kbot: int, h: real)
    requires |col| == |depth| && 1 <= kbot <= |depth|
  {
    var p := Pair(depth, kbot, h);
    depth[p.1] > depth[p.0] && col[p.0].Some? && col[p.1].Some?
  }

  /** `Tb` and `TzH`: on a usable pair, `tz` is the pair's slope and `tb` the
      point at depth `h` on the line through the pair; otherwise `tb` is the
      layer mean and `tz` is zero. */
  function BaseValues(col: seq<Val>, depth: seq<real>, kbot: int, h: real, tm: Val): (b: Base)
    requires |col| == |depth| && 1 <= kbot <= |depth|
    ensures Interpolates(col, depth, kbot, h) ==>
              var p := Pair(depth, kbot, h);
              b.tb.Some? && b.tz.Some? &&
              b.tz.value * (depth[p.1] - depth[p.0]) == col[p.1].value - col[p.0].value &&
              b.tb.value == col[p.0].value + b.tz.value * (h - depth[p.0])
    ensures !Interpolates(col, depth, kbot, h) ==> b == Base(tm, Some(0.0))
  {
    var p := Pair(depth, kbot, h);
    var zlo, zhi := depth[p.0], depth[p.1];
    if zhi > zlo && col[p.0].Some? && col[p.1].Some? then
      Interpolate(col[p.0].value, col[p.1].value, zlo, zhi, h)
    else
      Base(tm, Some(0.0))
  }

  /** The value at depth `h` and the slope of the line through `(zlo, tlo)`
      and `(zhi, thi)`. */
  function Interpolate(tlo: real, thi: real, zlo: real, zhi: real, h: real): (b: Base)
    requires zhi > zlo
    ensures b.tb.Some? && b.tz.Some?
    ensures b.tz.value * (zhi - zlo) == thi - tlo && b.tb.value == tlo + b.tz.value * (h - zlo)
  {
    var alpha := (h - zlo) / (zhi - zlo);
    var slope := (thi - tlo) / (zhi - zlo);
    assert alpha * (thi - tlo) == slope * (h - zlo);
    Base(Some(tlo + alpha * (thi - tlo)), Some(slope))
  }

  /** Within the pair's depth range, `tb` lies between the pair's two values. */
  lemma BaseBetweenPair(col: seq<Val>, depth: seq<real>, kbot: int, h: real, tm: Val)
    requires |col| == |depth| && 1 <= kbot <= |depth| && Interpolates(col, depth, kbot, h)
    requires depth[Pair(depth, kbot, h).0] <= h <= depth[Pair(depth, kbot, h).1]
    ensures var p := Pair(depth, kbot, h);
            var b := BaseValues(col, depth, kbot, h, tm).tb.value;
            Min(col[p.0].value, col[p.1].value) <= b <= Max(col[p.0].value, col[p.1].value)
  {
    var p := Pair(depth, kbot, h);
    var zlo, zhi := depth[p.0], depth[p.1];
    var tlo, thi := col[p.0].value, col[p.1].value;
    var alpha := (h - zlo) / (zhi - zlo);
    FractionOfUnit(h - zlo, zhi - zlo);
    var b := BaseValues(col, depth, kbot, h, tm).tb.value;
    assert b == tlo + alpha * (thi - tlo);
    PointOnSegment(tlo, thi, alpha);
  }

  /** `tlo + alpha * (thi - tlo)` for `alpha` in `[0, 1]` lies between the ends.
      Each step below proves a single inequality: the solver's nonlinear
      reasoning is kept to one product per lemma. */
  lemma PointOnSegment(tlo: real, thi: real, alpha: real)
    requires 0.0 <= alpha <= 1.0
    ensures Min(tlo, thi) <= tlo + alpha * (thi - tlo) <= Max(tlo, thi)
  {
    AboveMin(tlo, thi, alpha);
    BelowMax(tlo, thi, alpha);
  }

  lemma AboveMin(tlo: real, thi: real, alpha: real)
    requires 0.0 <= alpha <= 1.0
    ensures Min(tlo, thi) <= tlo + alpha * (thi - tlo)
  {
    if tlo <= thi {
      ScaleNonneg(alpha, thi - tlo);
    } else {
      ScaleAtLeast(alpha, thi - tlo);
    }
  }

  lemma BelowMax(tlo: real, thi: real, alpha: real)
    requires 0.0 <= alpha <= 1.0
    ensures tlo + alpha * (thi - tlo) <= Max(tlo, thi)
  {
    if tlo <= thi {
      ScaleAtMost(alpha, thi - tlo);
    } else {
      ScaleNonpos(alpha, thi - tlo);
    }
  }

  lemma ScaleNonneg(alpha: real, d: real)
    requires 0.0 <= alpha <= 1.0 && d >= 0.0
    ensures alpha * d >= 0.0
  {
  }

  lemma ScaleAtMost(alpha: real, d: real)
    requires 0.0 <= alpha <= 1.0 && d >= 0.0
    ensures alpha * d <= d
  {
    assert (1.0 - alpha) * d >= 0.0;
  }

  lemma ScaleNonpos(alpha: real, d: real)
    requires 0.0 <= alpha <= 1.0 && d <= 0.0
    ensures alpha * d <= 0.0
  {
  }

  lemma ScaleAtLeast(alpha: real, d: real)
    requires 0.0 <= alpha <= 1.0 && d <= 0.0
    ensures d <= alpha * d
  {
    assert (1.0 - alpha) * d <= 0.0;
  }

  lemma FractionOfUnit(part: real, whole: real)
    requires 0.0 <= part <= whole && whole > 0.0
    ensures 0.0 <= part / whole <= 1.0
  {
  }

  /** Levels at 10 m and 20 m holding 15 and 10, with `h = 15`, give
      `Tb = 12.5` and `TzH = -0.5`. */
  lemma BaseValuesExample(tm: Val)
    ensures BaseValues([Some(15.0), Some(10.0)], [10.0, 20.0], 2, 15.0, tm) == Base(Some(12.5), Some(-0.5))
  {
    var depth := [10.0, 20.0];
    assert depth[..2] == depth;
    assert SearchRight([20.0], 15.0) == 0;
    assert SearchRight(depth, 15.0) == 1;
    assert ContainingLevel(depth, 2, 15.0) == 0;
    assert Pair(depth, 2, 15.0) == (0, 1);
    var b := BaseValues([Some(15.0), Some(10.0)], depth, 2, 15.0, tm);
    assert b.tz.value * 10.0 == -5.0;
    assert b.tb.value == 15.0 + b.tz.value * 5.0;
    assert b.tb == Some(12.5) && b.tz == Some(-0.5);
  }

  /** A column with a single valid level gets `pos = -1`, whose pair
      `(depth[-1], depth[0])` never goes downward for increasing depths, so the
      fallback applies. */
  lemma SingleLevelFallsBack(col: seq<Val>, depth: seq<real>, h: real, tm: Val)
    requires |col| == |depth| >= 1 && Increasing(depth)
    ensures BaseValues(col, depth, 1, h, tm) == Base(tm, Some(0.0))
  {
    var n := |depth|;
    if n >= 2 {
      var m := 0;
      while m < n - 1
        invariant 0 <= m <= n - 1 && depth[0] <= depth[m]
      {
        m := m + 1;
      }
    }
  }

  // ---------------------------------------------------------- one column

  /** The six diagnostics of one column: layer means of T, U and V, base
      temperature, base gradient and surface temperature. */
  datatype Diag = Diag(tm: Val, um: Val, vm: Val, tb: Val, tz: Val, t0: Val)

  const Missing: Diag := Diag(None, None, None, None, None, None)

  /** Whether a column is diagnosed: sea (`kbot >= 1`) and a finite positive
      thickness. */
  predicate Diagnosed(hv: Val, kbot: int)
  {
    kbot >= 1 && hv.Some? && hv.value > 0.0
  }

  /** The diagnostics of one column, as `ml_avg_Tb_Tz_sfc` computes them for
      cell (j, i). The thickness is capped at the deepest valid level centre.
      Land and non-finite or non-positive thicknesses leave everything NaN;
      a diagnosed column always has a finite gradient. */
  function ColumnDiag(t: seq<Val>, u: seq<Val>, v: seq<Val>, hv: Val,
                      depth: seq<real>, z: seq<real>, kbot: int): (d: Diag)
    requires |t| == |u| == |v| == |depth| >= 1 && |z| == |depth| + 1 && kbot <= |depth|
    ensures !Diagnosed(hv, kbot) ==> d == Missing
    ensures Diagnosed(hv, kbot) ==> d.tz.Some? && d.t0 == SurfaceTemp(t, depth, kbot)
  {
    if !Diagnosed(hv, kbot) then Missing
    else
      var h := Min(hv.value, depth[kbot - 1]);
      var tm := LayerMean(t, z, h, kbot);
      var b := BaseValues(t, depth, kbot, h, tm);
      Diag(tm, LayerMean(u, z, h, kbot), LayerMean(v, z, h, kbot), b.tb, b.tz, SurfaceTemp(t, depth, kbot))
  }

  /** A column of uniform temperature `c` over its valid levels has mean,
      base and surface temperature `c` and a zero gradient. */
  lemma UniformColumn(t: seq<Val>, u: seq<Val>, v: seq<Val>, hv: Val, depth: seq<real>, kbot: int, c: real)
    requires |t| == |u| == |v| == |depth| >= 1 && 1 <= kbot <= |depth|
    requires Increasing(depth) && depth[0] > 0.0 && hv.Some? && hv.value > 0.0
    requires forall k :: 0 <= k < kbot ==> t[k] == Some(c)
    ensures var d := ColumnDiag(t, u, v, hv, depth, HalfLevels(depth), kbot);
            d.tm == Some(c) && d.tb == Some(c) && d.tz == Some(0.0) && d.t0 == Some(c)
  {
    var z := HalfLevels(depth);
    var h := Min(hv.value, depth[kbot - 1]);
    IncreasingFromTop(depth, kbot - 1);
    UniformMean(t, depth, h, kbot, c);
    var tm := LayerMean(t, z, h, kbot);
    UniformBase(t, depth, kbot, h, tm, c);
    UniformSurface(t, depth, kbot, c);
  }

  lemma IncreasingFromTop(depth: seq<real>, k: nat)
    requires Increasing(depth) && k < |depth|
    ensures depth[0] <= depth[k]
  {
    var m := 0;
    while m < k
      invariant 0 <= m <= k && depth[0] <= depth[m]
    {
      m := m + 1;
    }
  }

  lemma UniformMean(t: seq<Val>, depth: seq<real>, h: real, kbot: nat, c: real)
    requires |t| == |depth| && 1 <= kbot <= |depth| && Increasing(depth) && depth[0] >= 0.0
    requires 0.0 < h <= depth[kbot - 1]
    requires forall k :: 0 <= k < kbot ==> t[k] == Some(c)
    ensures LayerMean(t, HalfLevels(depth), h, kbot) == Some(c)
  {
    LayerMeanWithinBounds(t, depth, h, kbot, c, c);
  }

  lemma UniformBase(t: seq<Val>, depth: seq<real>, kbot: int, h: real, tm: Val, c: real)
    requires |t| == |depth| && 1 <= kbot <= |depth| && Increasing(depth) && tm == Some(c)
    requires forall k :: 0 <= k < kbot ==> t[k] == Some(c)
    ensures BaseValues(t, depth, kbot, h, tm) == Base(Some(c), Some(0.0))
  {
    if kbot == 1 {
      SingleLevelFallsBack(t, depth, h, tm);
    } else if Interpolates(t, depth, kbot, h) {
      var p := Pair(depth, kbot, h);
      var b := BaseValues(t, depth, kbot, h, tm);
      assert t[p.0] == Some(c) && t[p.1] == Some(c);
      ZeroSlope(b.tz.value, depth[p.1] - depth[p.0]);
      assert b.tb.value == c + 0.0 * (h - depth[p.0]);
      assert b.tb == Some(c) && b.tz == Some(0.0);
    }
  }

  lemma ZeroSlope(slope: real, run: real)
    requires run > 0.0 && slope * run == 0.0
    ensures slope == 0.0
  {
  }

  lemma UniformSurface(t: seq<Val>, depth: seq<real>, kbot: int, c: real)
    requires |t| == |depth| && 1 <= kbot <= |depth| && depth[0] > 0.0
    requires forall k :: 0 <= k < kbot ==> t[k] == Some(c)
    ensures SurfaceTemp(t, depth, kbot) == Some(c)
  {
    if Extrapolates(t, depth, kbot) {
      var r := SurfaceTemp(t, depth, kbot).value;
      assert t[0] == Some(c) && t[1] == Some(c);
      assert (c - r) * (depth[1] - depth[0]) == 0.0;
      ZeroSlope(c - r, depth[1] - depth[0]);
    }
  }

  /** The surface-temperature step of one column. */
  method ExtrapolateSurface(t: seq<Val>, depth: seq<real>, kbot: int) returns (t0: Val)
    requires |t| == |depth| >= 1 && kbot <= |depth|
    ensures t0 == SurfaceTemp(t, depth, kbot)
  {
    t0 := None;
    if kbot >= 2 && t[0].Some? && t[1].Some? {
      var z0, z1 := depth[0], depth[1];
      if z1 > z0 {
        t0 := Some(LineAtSurface(t[0].value, t[1].value, z0, z1));
      }
    }
    if t0.None? {
      t0 := t[0];
    }
  }

  /** The overlap loop of one column: accumulates the weighted sums of T, U
      and V level by level and stops at the first cell below the layer. */
  method AccumulateLayer(t: seq<Val>, u: seq<Val>, v: seq<Val>, zhalf: array<real>, h: real, kbot: nat)
    returns (ts: Val, us: Val, vs: Val)
    requires kbot <= |t| && kbot <= |u| && kbot <= |v| && kbot < zhalf.Length
    ensures ts == LayerSum(t, zhalf[..], h, kbot, 0, Some(0.0))
    ensures us == LayerSum(u, zhalf[..], h, kbot, 0, Some(0.0))
    ensures vs == LayerSum(v, zhalf[..], h, kbot, 0, Some(0.0))
  {
    ghost var z := zhalf[..];
    ts, us, vs := Some(0.0), Some(0.0), Some(0.0);
    var k := 0;
    while k < kbot
      invariant 0 <= k <= kbot
      invariant LayerSum(t, z, h, kbot, k, ts) == LayerSum(t, z, h, kbot, 0, Some(0.0))
      invariant LayerSum(u, z, h, kbot, k, us) == LayerSum(u, z, h, kbot, 0, Some(0.0))
      invariant LayerSum(v, z, h, kbot, k, vs) == LayerSum(v, z, h, kbot, 0, Some(0.0))
    {
      var zl, zh := zhalf[k], zhalf[k + 1];
      if h <= zl {
        break;
      }
      var w := Min(h, zh) - zl;
      if w > 0.0 {
        ts := Add(ts, Mul(t[k], Some(w)));
        us := Add(us, Mul(u[k], Some(w)));
        vs := Add(vs, Mul(v[k], Some(w)));
      }
      k := k + 1;
    }
  }

  /** The base step of one column: locates the containing pair and
      interpolates, or falls back to the layer mean and a zero gradient. */
  method BaseOfColumn(t: seq<Val>, depth: seq<real>, kbot: int, h: real, tm: Val) returns (b: Base)
    requires |t| == |depth| && 1 <= kbot <= |depth|
    ensures b == BaseValues(t, depth, kbot, h, tm)
  {
    var pos := SearchRight(depth[..kbot], h) - 1;
    if pos < 0 {
      pos := 0;
    }
    if pos >= kbot - 1 {
      pos := kbot - 2;
    }
    assert pos == ContainingLevel(depth, kbot, h);
    var lo := PyIndex(|depth|, pos);
    var zlo, zhi := depth[lo], depth[pos + 1];
    if zhi > zlo && t[lo].Some? && t[pos + 1].Some? {
      b := Interpolate(t[lo].value, t[pos + 1].value, zlo, zhi, h);
    } else {
      b := Base(tm, Some(0.0));
    }
  }

  /** One column, as the body of the `j, i` loop computes it. */
  method DiagnoseColumn(t: seq<Val>, u: seq<Val>, v: seq<Val>, hv: Val,
                        depth: seq<real>, zhalf: array<real>, kbot: int) returns (d: Diag)
    requires |t| == |u| == |v| == |depth| >= 1 && zhalf.Length == |depth| + 1 && kbot <= |depth|
    ensures d == ColumnDiag(t, u, v, hv, depth, zhalf[..], kbot)
  {
    if kbot <= 0 {
      return Missing;
    }
    if !hv.Some? || hv.value <= 0.0 {
      return Missing;
    }
    var h := hv.value;
    var hmax := depth[kbot - 1];
    if h > hmax {
      h := hmax;
    }
    var t0 := ExtrapolateSurface(t, depth, kbot);
    var ts, us, vs := AccumulateLayer(t, u, v, zhalf, h, kbot);
    var tm, um, vm: Val := None, None, None;
    if h > 0.0 {
      tm, um, vm := Div(ts, Some(h)), Div(us, Some(h)), Div(vs, Some(h));
    }
    assert h == Min(hv.value, depth[kbot - 1]);
    assert tm == LayerMean(t, zhalf[..], h, kbot);
    assert um == LayerMean(u, zhalf[..], h, kbot);
    assert vm == LayerMean(v, zhalf[..], h, kbot);
    var b := BaseOfColumn(t, depth, kbot, h, tm);
    d := Diag(tm, um, vm, b.tb, b.tz, t0);
  }

  // ----------------------------------------------------------- the whole grid

  /** Python-style cell grid of bottom indices. */
  predicate IsTopo(topo: seq<seq<int>>, ny: nat, nx: nat, nz: nat)
  {
    |topo| == ny && forall j :: 0 <= j < ny ==> |topo[j]| == nx && forall i :: 0 <= i < nx ==> topo[j][i] <= nz
  }

  /** The diagnostics of cell (j, i). */
  function CellDiag(tc: Cube, uc: Cube, vc: Cube, hf: Field, depth: seq<real>,
                    topo: seq<seq<int>>, ny: nat, nx: nat, j: nat, i: nat): Diag
    requires |depth| >= 1 && IsCube(tc, |depth|, ny, nx) && IsCube(uc, |depth|, ny, nx)
    requires IsCube(vc, |depth|, ny, nx) && IsField(hf, ny, nx) && IsTopo(topo, ny, nx, |depth|)
    requires j < ny && i < nx
  {
    var nz := |depth|;
    ColumnDiag(Column(tc, nz, ny, nx, j, i), Column(uc, nz, ny, nx, j, i), Column(vc, nz, ny, nx, j, i),
               hf[j][i], depth, HalfLevels(depth), topo[j][i])
  }

  /** The diagnostics of every cell: each column on its own. */
  function Diagnostics(tc: Cube, uc: Cube, vc: Cube, hf: Field, depth: seq<real>,
                       topo: seq<seq<int>>, ny: nat, nx: nat): (g: seq<seq<Diag>>)
    requires |depth| >= 1 && IsCube(tc, |depth|, ny, nx) && IsCube(uc, |depth|, ny, nx)
    requires IsCube(vc, |depth|, ny, nx) && IsField(hf, ny, nx) && IsTopo(topo, ny, nx, |depth|)
    ensures |g| == ny && forall j :: 0 <= j < ny ==> |g[j]| == nx
    ensures forall j, i :: 0 <= j < ny && 0 <= i < nx ==> g[j][i] == CellDiag(tc, uc, vc, hf, depth, topo, ny, nx, j, i)
  {
    seq(ny, j requires 0 <= j < ny =>
      seq(nx, i requires 0 <= i < nx => CellDiag(tc, uc, vc, hf, depth, topo, ny, nx, j, i)))
  }

  /** A cell's diagnostics depend only on that cell's columns, thickness and
      bottom index. */
  lemma ColumnLocality(tc: Cube, uc: Cube, vc: Cube, hf: Field, tc': Cube, uc': Cube, vc': Cube, hf': Field,
                       depth: seq<real>, topo: seq<seq<int>>, topo': seq<seq<int>>, ny: nat, nx: nat, j: nat, i: nat)
    requires |depth| >= 1 && IsCube(tc, |depth|, ny, nx) && IsCube(uc, |depth|, ny, nx)
    requires IsCube(vc, |depth|, ny, nx) && IsField(hf, ny, nx) && IsTopo(topo, ny, nx, |depth|)
    requires IsCube(tc', |depth|, ny, nx) && IsCube(uc', |depth|, ny, nx)
    requires IsCube(vc', |depth|, ny, nx) && IsField(hf', ny, nx) && IsTopo(topo', ny, nx, |depth|)
    requires j < ny && i < nx && hf[j][i] == hf'[j][i] && topo[j][i] == topo'[j][i]
    requires forall k :: 0 <= k < |depth| ==>
               tc[k][j][i] == tc'[k][j][i] && uc[k][j][i] == uc'[k][j][i] && vc[k][j][i] == vc'[k][j][i]
    ensures Diagnostics(tc, uc, vc, hf, depth, topo, ny, nx)[j][i] == Diagnostics(tc', uc', vc', hf', depth, topo', ny, nx)[j][i]
  {
    var nz := |depth|;
    assert Column(tc, nz, ny, nx, j, i) == Column(tc', nz, ny, nx, j, i);
    assert Column(uc, nz, ny, nx, j, i) == Column(uc', nz, ny, nx, j, i);
    assert Column(vc, nz, ny, nx, j, i) == Column(vc', nz, ny, nx, j, i);
  }

  /** `ml_avg_Tb_Tz_sfc`: computes the half levels, then visits every cell row by
      row and stores its column's diagnostics. */
  method DiagnoseGrid(tc: Cube, uc: Cube, vc: Cube, hf: Field, depth: seq<real>,
                      topo: seq<seq<int>>, ny: nat, nx: nat) returns (out: array2<Diag>)
    requires |depth| >= 1 && IsCube(tc, |depth|, ny, nx) && IsCube(uc, |depth|, ny, nx)
    requires IsCube(vc, |depth|, ny, nx) && IsField(hf, ny, nx) && IsTopo(topo, ny, nx, |depth|)
    ensures fresh(out) && out.Length0 == ny && out.Length1 == nx
    ensures forall j, i :: 0 <= j < ny && 0 <= i < nx ==>
              out[j, i] == Diagnostics(tc, uc, vc, hf, depth, topo, ny, nx)[j][i]
  {
    var nz := |depth|;
    var zhalf := ComputeHalfLevels(depth);
    out := new Diag[ny, nx]((j, i) => Missing);
    for j := 0 to ny
      invariant zhalf[..] == HalfLevels(depth)
      invariant forall j', i :: 0 <= j' < j && 0 <= i < nx ==>
                  out[j', i] == CellDiag(tc, uc, vc, hf, depth, topo, ny, nx, j', i)
    {
      for i := 0 to nx
        invariant zhalf[..] == HalfLevels(depth)
        invariant forall j', i' :: 0 <= j' < j && 0 <= i' < nx ==>
                    out[j', i'] == CellDiag(tc, uc, vc, hf, depth, topo, ny, nx, j', i')
        invariant forall i' :: 0 <= i' < i ==> out[j, i'] == CellDiag(tc, uc, vc, hf, depth, topo, ny, nx, j, i')
      {
        var d := DiagnoseColumn(Column(tc, nz, ny, nx, j, i), Column(uc, nz, ny, nx, j, i),
                                Column(vc, nz, ny, nx, j, i), hf[j][i], depth, zhalf, topo[j][i]);
        out[j, i] := d;
      }
    }
  }

  // ------------------------------------------------------------ bottom index

  /** The index of the first non-finite entry of a column, or its length when
      every entry is finite. */
  function FirstNonFinite(col: seq<Val>): (r: nat)
    ensures r <= |col|
    ensures forall k :: 0 <= k < r ==> col[k].Some?
    ensures r < |col| ==> col[r].None?
  {
    if |col| == 0 || col[0].None? then 0 else 1 + FirstNonFinite(col[1..])
  }

  /** The bottom index of every cell, from one temperature cube. */
  function TopoOf(tc: Cube, nz: nat, ny: nat, nx: nat): (topo: seq<seq<int>>)
    requires IsCube(tc, nz, ny, nx)
    ensures IsTopo(topo, ny, nx, nz)
    ensures forall j, i :: 0 <= j < ny && 0 <= i < nx ==>
              0 <= topo[j][i] &&
              (forall k :: 0 <= k < topo[j][i] ==> tc[k][j][i].Some?) &&
              (topo[j][i] < nz ==> tc[topo[j][i]][j][i].None?)
  {
    seq(ny, j requires 0 <= j < ny => seq(nx, i requires 0 <= i < nx => FirstNonFinite(Column(tc, nz, ny, nx, j, i))))
  }

  /** The topo loop: starts every cell at `nz` and lowers it to the first
      non-finite level of the column where there is one. */
  method Topo(tc: Cube, nz: nat, ny: nat, nx: nat) returns (topo: array2<int>)
    requires IsCube(tc, nz, ny, nx)
    ensures fresh(topo) && topo.Length0 == ny && topo.Length1 == nx
    ensures forall j, i :: 0 <= j < ny && 0 <= i < nx ==> topo[j, i] == TopoOf(tc, nz, ny, nx)[j][i]
  {
    topo := new int[ny, nx]((j, i) => nz);
    for j := 0 to ny
      invariant forall j', i :: 0 <= j' < j && 0 <= i < nx ==> topo[j', i] == TopoOf(tc, nz, ny, nx)[j'][i]
      invariant forall j', i :: j <= j' < ny && 0 <= i < nx ==> topo[j', i] == nz
    {
      for i := 0 to nx
        invariant forall j', i' :: 0 <= j' < j && 0 <= i' < nx ==> topo[j', i'] == TopoOf(tc, nz, ny, nx)[j'][i']
        invariant forall i' :: 0 <= i' < i ==> topo[j, i'] == TopoOf(tc, nz, ny, nx)[j][i']
        invariant forall j', i' :: j <= j' < ny && i <= i' < nx ==> topo[j', i'] == nz
        invariant forall j', i' :: j < j' < ny && 0 <= i' < nx ==> topo[j', i'] == nz
      {
        var m := FirstNonFinite(Column(tc, nz, ny, nx, j, i));
        if m < nz {
          topo[j, i] := m;
        }
      }
    }
  }
}
