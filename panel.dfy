/** The array utilities of source_panel.py: the latitude and longitude
    shifts, NCL's nine-point smoother `smth9`, and the choice of colour-bar
    tick values. A plane is indexed `[j][i]` (latitude row, longitude
    column); the leading dimensions of a larger array are flattened into a
    stack of planes, as `smth9` itself reshapes them. */
module Panel {
  import opened Floats
  import opened Grid
  import opened Sorting

  // ---------------------------------------------------------------- shifts

  /** `shift_lat` on a plane: row `j` holds row `j - offset` of the input,
      and NaN where no such row exists. */
  function LatShifted(f: Field, ny: nat, nx: nat, offset: int): (g: Field)
    requires IsField(f, ny, nx)
    ensures IsField(g, ny, nx)
    ensures forall j, i :: 0 <= j < ny && 0 <= i < nx ==>
              g[j][i] == if 0 <= j - offset < ny then f[j - offset][i] else None
  {
    seq(ny, j requires 0 <= j < ny =>
      seq(nx, i requires 0 <= i < nx => if 0 <= j - offset < ny then f[j - offset][i] else None))
  }

  /** The cell at column `i` of a row shifted by `offset` along longitude:
      cyclic (`np.roll`) when `wrap`, else NaN where the source column is
      outside the row. */
  function LonCell(row: seq<Val>, i: nat, offset: int, wrap: bool): (v: Val)
    requires i < |row|
  {
    if wrap then row[(i - offset) % |row|]
    else if 0 <= i - offset < |row| then row[i - offset] else None
  }

  /** `shift_lon` on a plane. */
  function LonShifted(f: Field, ny: nat, nx: nat, offset: int, wrap: bool): (g: Field)
    requires IsField(f, ny, nx)
    ensures IsField(g, ny, nx)
    ensures forall j, i :: 0 <= j < ny && 0 <= i < nx ==> g[j][i] == LonCell(f[j], i, offset, wrap)
  {
    seq(ny, j requires 0 <= j < ny =>
      seq(nx, i requires 0 <= i < nx => LonCell(f[j], i, offset, wrap)))
  }

  /** A shift by 0 is an equal copy, in either direction. */
  lemma ShiftByZero(f: Field, ny: nat, nx: nat, wrap: bool)
    requires IsField(f, ny, nx)
    ensures LatShifted(f, ny, nx, 0) == f
    ensures LonShifted(f, ny, nx, 0, wrap) == f
  {
    SameGrid(LatShifted(f, ny, nx, 0), f, ny, nx);
    forall j, i | 0 <= j < ny && 0 <= i < nx
      ensures LonShifted(f, ny, nx, 0, wrap)[j][i] == f[j][i]
    {
      assert i % nx == i;
    }
    SameGrid(LonShifted(f, ny, nx, 0, wrap), f, ny, nx);
  }

  /** Shifting rows by `offset` and back keeps every row that stayed inside
      the plane and leaves NaN in the rows that were pushed out. */
  lemma LatShiftBack(f: Field, ny: nat, nx: nat, offset: int)
    requires IsField(f, ny, nx)
    ensures forall j, i :: 0 <= j < ny && 0 <= i < nx ==>
              LatShifted(LatShifted(f, ny, nx, offset), ny, nx, -offset)[j][i] ==
              if 0 <= j + offset < ny then f[j][i] else None
  {
    var g := LatShifted(f, ny, nx, offset);
    var h := LatShifted(g, ny, nx, -offset);
    forall j, i | 0 <= j < ny && 0 <= i < nx
      ensures h[j][i] == if 0 <= j + offset < ny then f[j][i] else None
    {
      if 0 <= j + offset < ny {
        assert h[j][i] == g[j + offset][i];
      }
    }
  }

  /** The non-wrapping longitude shift, likewise, keeps the columns that
      stayed inside and leaves NaN in the others. */
  lemma LonShiftBack(f: Field, ny: nat, nx: nat, offset: int)
    requires IsField(f, ny, nx)
    ensures forall j, i :: 0 <= j < ny && 0 <= i < nx ==>
              LonShifted(LonShifted(f, ny, nx, offset, false), ny, nx, -offset, false)[j][i] ==
              if 0 <= i + offset < nx then f[j][i] else None
  {
    var g := LonShifted(f, ny, nx, offset, false);
    var h := LonShifted(g, ny, nx, -offset, false);
    forall j, i | 0 <= j < ny && 0 <= i < nx
      ensures h[j][i] == if 0 <= i + offset < nx then f[j][i] else None
    {
      if 0 <= i + offset < nx {
        assert h[j][i] == g[j][i + offset];
      }
    }
  }

  /** The wrapping shift loses nothing: rolling by `offset` and back gives
      the plane again. */
  lemma {:induction false} RollBack(f: Field, ny: nat, nx: nat, offset: int)
    requires IsField(f, ny, nx)
    ensures LonShifted(LonShifted(f, ny, nx, offset, true), ny, nx, -offset, true) == f
  {
    var g := LonShifted(f, ny, nx, offset, true);
    var h := LonShifted(g, ny, nx, -offset, true);
    forall j, i | 0 <= j < ny && 0 <= i < nx ensures h[j][i] == f[j][i] {
      var c := (i + offset) % nx;
      assert h[j][i] == g[j][c];
      assert g[j][c] == f[j][(c - offset) % nx];
      ModBack(i, offset, nx);
    }
    SameGrid(h, f, ny, nx);
  }

  /** `((i + o) mod n - o) mod n == i` for a column `i` of a row of `n`. */
  lemma ModBack(i: nat, o: int, n: nat)
    requires i < n
    ensures ((i + o) % n - o) % n == i
  {
    var c := (i + o) % n;
    var q := (i + o) / n;
    assert i + o == q * n + c;
    assert c - o == i + (-q) * n;
    ModShift(i, -q, n);
  }

  /** Adding a multiple of `n` does not change a remainder modulo `n`. */
  lemma ModShift(i: nat, k: int, n: nat)
    requires i < n
    ensures (i + k * n) % n == i
  {
    var x := i + k * n;
    var r := x % n;
    var d := x / n;
    assert x == d * n + r;
    var m := k - d;
    assert m * n == r - i by { assert k * n - d * n == (k - d) * n; }
    if m >= 1 {
      MulAtLeast(m, n);
    } else if m <= -1 {
      MulAtLeast(-m, n);
    }
  }

  lemma MulAtLeast(m: int, n: int)
    requires m >= 1 && n > 0
    ensures m * n >= n
  {
    assert m * n == (m - 1) * n + n;
    MulNonNegative(m - 1, n);
  }

  lemma MulNonNegative(a: int, b: int)
    requires a >= 0 && b >= 0
    ensures a * b >= 0
  {
  }

  /** `shift_lat` on an array: a NaN buffer whose rows that have a source
      receive it by slice assignment. An offset of 0 returns a copy. */
  method ShiftLat(arr: array2<Val>, offset: int) returns (result: array2<Val>)
    ensures fresh(result) && result.Length0 == arr.Length0 && result.Length1 == arr.Length1
    ensures Rows(result) == LatShifted(Rows(arr), arr.Length0, arr.Length1, offset)
  {
    var ny, nx := arr.Length0, arr.Length1;
    if offset == 0 {
      result := CopyOf(arr);
      ShiftByZero(Rows(arr), ny, nx, false);
    } else {
      result := new Val[ny, nx]((j, i) => None);
      var lo := if offset > 0 then (if offset < ny then offset else ny) else 0;
      var hi := if offset > 0 then ny else (if ny + offset > 0 then ny + offset else 0);
      for j := lo to hi
        invariant forall j', i :: 0 <= j' < ny && 0 <= i < nx ==>
                    result[j', i] == if lo <= j' < j then arr[j' - offset, i] else None
      {
        for i := 0 to nx
          invariant forall j', i' :: 0 <= j' < ny && 0 <= i' < nx ==>
                      result[j', i'] == if lo <= j' < j || (j' == j && i' < i) then arr[j' - offset, i'] else None
        {
          result[j, i] := arr[j - offset, i];
        }
      }
      SameGrid(Rows(result), LatShifted(Rows(arr), ny, nx, offset), ny, nx);
    }
  }

  /** `shift_lon` on an array: a copy for offset 0, `np.roll` when
      wrapping, else a NaN buffer whose columns that have a source receive
      it. */
  method ShiftLon(arr: array2<Val>, offset: int, wrap: bool) returns (result: array2<Val>)
    ensures fresh(result) && result.Length0 == arr.Length0 && result.Length1 == arr.Length1
    ensures Rows(result) == LonShifted(Rows(arr), arr.Length0, arr.Length1, offset, wrap)
  {
    if offset == 0 {
      result := CopyOf(arr);
      ShiftByZero(Rows(arr), arr.Length0, arr.Length1, wrap);
    } else if wrap {
      result := Roll(arr, offset);
    } else {
      result := FillLon(arr, offset);
    }
  }

  /** `arr.copy()`. */
  method CopyOf(arr: array2<Val>) returns (result: array2<Val>)
    ensures fresh(result) && result.Length0 == arr.Length0 && result.Length1 == arr.Length1
    ensures Rows(result) == Rows(arr)
  {
    var ny, nx := arr.Length0, arr.Length1;
    result := new Val[ny, nx]((j, i) reads arr => if 0 <= j < ny && 0 <= i < nx then arr[j, i] else None);
    SameGrid(Rows(result), Rows(arr), ny, nx);
  }

  /** `np.roll(arr, shift=offset, axis=-1)`. */
  method Roll(arr: array2<Val>, offset: int) returns (result: array2<Val>)
    ensures fresh(result) && result.Length0 == arr.Length0 && result.Length1 == arr.Length1
    ensures Rows(result) == LonShifted(Rows(arr), arr.Length0, arr.Length1, offset, true)
  {
    var ny, nx := arr.Length0, arr.Length1;
    result := new Val[ny, nx]((j, i) reads arr =>
      if 0 <= j < ny && 0 <= i < nx then arr[j, (i - offset) % nx] else None);
    SameGrid(Rows(result), LonShifted(Rows(arr), ny, nx, offset, true), ny, nx);
  }

  /** The non-wrapping `shift_lon` for a non-zero offset. */
  method FillLon(arr: array2<Val>, offset: int) returns (result: array2<Val>)
    ensures fresh(result) && result.Length0 == arr.Length0 && result.Length1 == arr.Length1
    ensures Rows(result) == LonShifted(Rows(arr), arr.Length0, arr.Length1, offset, false)
  {
    var ny, nx := arr.Length0, arr.Length1;
    result := new Val[ny, nx]((j, i) => None);
    var lo := if offset > 0 then (if offset < nx then offset else nx) else 0;
    var hi := if offset > 0 then nx else (if nx + offset > 0 then nx + offset else 0);
    for j := 0 to ny
      invariant forall j', i :: 0 <= j' < ny && 0 <= i < nx ==>
                  result[j', i] == if j' < j && lo <= i < hi then arr[j', i - offset] else None
    {
      for i := lo to hi
        invariant forall j', i' :: 0 <= j' < ny && 0 <= i' < nx ==>
                    result[j', i'] == if (j' < j || (j' == j && i' < i)) && lo <= i' < hi then arr[j', i' - offset] else None
      {
        result[j, i] := arr[j, i - offset];
      }
    }
    SameGrid(Rows(result), LonShifted(Rows(arr), ny, nx, offset, false), ny, nx);
  }

  // ------------------------------------------------------------ smoothing

  /** One cell of `smth9`: when the centre and all eight neighbours are
      finite, `c + p/4 (sides - 4c) + q/4 (corners - 4c)`; otherwise the
      centre as it was. */
  function Nine(c: Val, n: Val, s: Val, w: Val, e: Val, nw: Val, ne: Val, sw: Val, se: Val,
                p: real, q: real): (r: Val)
  {
    if c.Some? && n.Some? && s.Some? && w.Some? && e.Some? && nw.Some? && ne.Some? && sw.Some? && se.Some? then
      Some(Weighted(c.value, w.value + e.value + n.value + s.value, nw.value + ne.value + sw.value + se.value, p, q))
    else c
  }

  /** The smoothing formula: the centre moved towards its sides by `p/4`
      and towards its corners by `q/4`. */
  function Weighted(c: real, sides: real, corners: real, p: real, q: real): real
  {
    c + (p / 4.0) * (sides - 4.0 * c) + (q / 4.0) * (corners - 4.0 * c)
  }

  /** The neighbour of cell (j, i) that the plane shifted by `latOffset`
      rows and then `lonOffset` columns brings to (j, i). */
  function Neighbour(f: Field, ny: nat, nx: nat, j: nat, i: nat, latOffset: int, lonOffset: int, wrap: bool): Val
    requires IsField(f, ny, nx) && j < ny && i < nx
  {
    if 0 <= j - latOffset < ny then LonCell(f[j - latOffset], i, lonOffset, wrap) else None
  }

  /** One smoothed cell, from its centre and its eight neighbours. */
  function SmoothedAt(f: Field, ny: nat, nx: nat, p: real, q: real, wrap: bool, j: nat, i: nat): Val
    requires IsField(f, ny, nx) && j < ny && i < nx
  {
    Nine(f[j][i], Neighbour(f, ny, nx, j, i, -1, 0, wrap), Neighbour(f, ny, nx, j, i, 1, 0, wrap),
         Neighbour(f, ny, nx, j, i, 0, -1, wrap), Neighbour(f, ny, nx, j, i, 0, 1, wrap),
         Neighbour(f, ny, nx, j, i, -1, -1, wrap), Neighbour(f, ny, nx, j, i, -1, 1, wrap),
         Neighbour(f, ny, nx, j, i, 1, -1, wrap), Neighbour(f, ny, nx, j, i, 1, 1, wrap), p, q)
  }

  /** `smth9` on one plane. */
  function Smoothed(f: Field, ny: nat, nx: nat, p: real, q: real, wrap: bool): (g: Field)
    requires IsField(f, ny, nx)
    ensures IsField(g, ny, nx)
    ensures forall j, i :: 0 <= j < ny && 0 <= i < nx ==> g[j][i] == SmoothedAt(f, ny, nx, p, q, wrap, j, i)
  {
    seq(ny, j requires 0 <= j < ny =>
      seq(nx, i requires 0 <= i < nx => SmoothedAt(f, ny, nx, p, q, wrap, j, i)))
  }

  /** The eight planes the source builds with `shift_lat` and `shift_lon`
      bring exactly the eight neighbours of a cell to it: north and south
      are the rows after and before, and the corners shift those rows along
      longitude. */
  lemma ShiftedPlanes(f: Field, ny: nat, nx: nat, wrap: bool, j: nat, i: nat)
    requires IsField(f, ny, nx) && j < ny && i < nx
    ensures LatShifted(f, ny, nx, -1)[j][i] == Neighbour(f, ny, nx, j, i, -1, 0, wrap)
    ensures LatShifted(f, ny, nx, 1)[j][i] == Neighbour(f, ny, nx, j, i, 1, 0, wrap)
    ensures LonShifted(f, ny, nx, -1, wrap)[j][i] == Neighbour(f, ny, nx, j, i, 0, -1, wrap)
    ensures LonShifted(f, ny, nx, 1, wrap)[j][i] == Neighbour(f, ny, nx, j, i, 0, 1, wrap)
    ensures LonShifted(LatShifted(f, ny, nx, -1), ny, nx, -1, wrap)[j][i] == Neighbour(f, ny, nx, j, i, -1, -1, wrap)
    ensures LonShifted(LatShifted(f, ny, nx, -1), ny, nx, 1, wrap)[j][i] == Neighbour(f, ny, nx, j, i, -1, 1, wrap)
    ensures LonShifted(LatShifted(f, ny, nx, 1), ny, nx, -1, wrap)[j][i] == Neighbour(f, ny, nx, j, i, 1, -1, wrap)
    ensures LonShifted(LatShifted(f, ny, nx, 1), ny, nx, 1, wrap)[j][i] == Neighbour(f, ny, nx, j, i, 1, 1, wrap)
  {
    assert i % nx == i;
    ShiftedRowNeighbour(f, LatShifted(f, ny, nx, -1), ny, nx, j, i, -1, wrap);
    ShiftedRowNeighbour(f, LatShifted(f, ny, nx, 1), ny, nx, j, i, 1, wrap);
  }

  /** The corners: shifting a row-shifted plane along longitude reaches the
      diagonal neighbour. */
  lemma ShiftedRowNeighbour(f: Field, g: Field, ny: nat, nx: nat, j: nat, i: nat, latOffset: int, wrap: bool)
    requires IsField(f, ny, nx) && j < ny && i < nx && g == LatShifted(f, ny, nx, latOffset)
    ensures LonShifted(g, ny, nx, -1, wrap)[j][i] == Neighbour(f, ny, nx, j, i, latOffset, -1, wrap)
    ensures LonShifted(g, ny, nx, 1, wrap)[j][i] == Neighbour(f, ny, nx, j, i, latOffset, 1, wrap)
  {
    if 0 <= j - latOffset < ny {
      assert g[j] == f[j - latOffset] by {
        assert forall i' :: 0 <= i' < nx ==> g[j][i'] == f[j - latOffset][i'];
      }
    } else {
      assert forall i' :: 0 <= i' < nx ==> g[j][i'] == None;
    }
  }

  /** A NaN centre stays NaN and a finite one stays finite: smoothing keeps
      the plane's NaN mask. */
  lemma SmoothedKeepsMask(f: Field, ny: nat, nx: nat, p: real, q: real, wrap: bool, j: nat, i: nat)
    requires IsField(f, ny, nx) && j < ny && i < nx
    ensures Smoothed(f, ny, nx, p, q, wrap)[j][i].None? <==> f[j][i].None?
  {
    var n := Neighbour(f, ny, nx, j, i, -1, 0, wrap);
    assert SmoothedAt(f, ny, nx, p, q, wrap, j, i).None? <==> f[j][i].None?;
  }

  /** A centre with a non-finite neighbour among the eight is returned
      unchanged. */
  lemma InvalidNeighbourUnchanged(f: Field, ny: nat, nx: nat, p: real, q: real, wrap: bool, j: nat, i: nat,
                                  latOffset: int, lonOffset: int)
    requires IsField(f, ny, nx) && j < ny && i < nx
    requires -1 <= latOffset <= 1 && -1 <= lonOffset <= 1 && (latOffset, lonOffset) != (0, 0)
    requires Neighbour(f, ny, nx, j, i, latOffset, lonOffset, wrap).None?
    ensures Smoothed(f, ny, nx, p, q, wrap)[j][i] == f[j][i]
  {
    assert SmoothedAt(f, ny, nx, p, q, wrap, j, i) == f[j][i];
  }

  /** A cell whose centre and eight neighbours are finite receives the
      weighted sum: p weights the four sides and q the four corners. */
  lemma ValidCellSmoothed(f: Field, ny: nat, nx: nat, p: real, q: real, wrap: bool, j: nat, i: nat,
                          c: real, sides: real, corners: real)
    requires IsField(f, ny, nx) && j < ny && i < nx
    requires forall a, b :: -1 <= a <= 1 && -1 <= b <= 1 ==> Neighbour(f, ny, nx, j, i, a, b, wrap).Some?
    requires f[j][i] == Some(c)
    requires sides == Neighbour(f, ny, nx, j, i, 0, -1, wrap).value + Neighbour(f, ny, nx, j, i, 0, 1, wrap).value
                      + Neighbour(f, ny, nx, j, i, -1, 0, wrap).value + Neighbour(f, ny, nx, j, i, 1, 0, wrap).value
    requires corners == Neighbour(f, ny, nx, j, i, -1, -1, wrap).value + Neighbour(f, ny, nx, j, i, -1, 1, wrap).value
                        + Neighbour(f, ny, nx, j, i, 1, -1, wrap).value + Neighbour(f, ny, nx, j, i, 1, 1, wrap).value
    ensures Smoothed(f, ny, nx, p, q, wrap)[j][i] == Some(Weighted(c, sides, corners, p, q))
  {
    assert Neighbour(f, ny, nx, j, i, -1, 0, wrap).Some? && Neighbour(f, ny, nx, j, i, 1, 0, wrap).Some?;
    assert Neighbour(f, ny, nx, j, i, 0, -1, wrap).Some? && Neighbour(f, ny, nx, j, i, 0, 1, wrap).Some?;
    assert Neighbour(f, ny, nx, j, i, -1, -1, wrap).Some? && Neighbour(f, ny, nx, j, i, -1, 1, wrap).Some?;
    assert Neighbour(f, ny, nx, j, i, 1, -1, wrap).Some? && Neighbour(f, ny, nx, j, i, 1, 1, wrap).Some?;
    var n, s, w, e := Neighbour(f, ny, nx, j, i, -1, 0, wrap), Neighbour(f, ny, nx, j, i, 1, 0, wrap),
                      Neighbour(f, ny, nx, j, i, 0, -1, wrap), Neighbour(f, ny, nx, j, i, 0, 1, wrap);
    var nw, ne := Neighbour(f, ny, nx, j, i, -1, -1, wrap), Neighbour(f, ny, nx, j, i, -1, 1, wrap);
    var sw, se := Neighbour(f, ny, nx, j, i, 1, -1, wrap), Neighbour(f, ny, nx, j, i, 1, 1, wrap);
    assert SmoothedAt(f, ny, nx, p, q, wrap, j, i) == Nine(Some(c), n, s, w, e, nw, ne, sw, se, p, q);
    assert sides == w.value + e.value + n.value + s.value;
    assert corners == nw.value + ne.value + sw.value + se.value;
    assert Smoothed(f, ny, nx, p, q, wrap)[j][i] == SmoothedAt(f, ny, nx, p, q, wrap, j, i);
  }

  /** The first and last latitude rows lack a neighbour row, so they are
      never changed. */
  lemma EdgeRowsUnchanged(f: Field, ny: nat, nx: nat, p: real, q: real, wrap: bool, i: nat)
    requires IsField(f, ny, nx) && 0 < ny && i < nx
    ensures Smoothed(f, ny, nx, p, q, wrap)[0][i] == f[0][i]
    ensures Smoothed(f, ny, nx, p, q, wrap)[ny - 1][i] == f[ny - 1][i]
  {
    InvalidNeighbourUnchanged(f, ny, nx, p, q, wrap, 0, i, 1, 0);
    InvalidNeighbourUnchanged(f, ny, nx, p, q, wrap, ny - 1, i, -1, 0);
  }

  /** Without wrapping, the first and last longitude columns lack a
      neighbour column, so they are never changed either. */
  lemma EdgeColumnsUnchanged(f: Field, ny: nat, nx: nat, p: real, q: real, j: nat)
    requires IsField(f, ny, nx) && j < ny && 0 < nx
    ensures Smoothed(f, ny, nx, p, q, false)[j][0] == f[j][0]
    ensures Smoothed(f, ny, nx, p, q, false)[j][nx - 1] == f[j][nx - 1]
  {
    InvalidNeighbourUnchanged(f, ny, nx, p, q, false, j, 0, 0, 1);
    InvalidNeighbourUnchanged(f, ny, nx, p, q, false, j, nx - 1, 0, -1);
  }

  /** A constant field is a fixed point of the smoother. */
  lemma ConstantFixedPoint(f: Field, ny: nat, nx: nat, p: real, q: real, wrap: bool, c: real)
    requires IsField(f, ny, nx)
    requires forall j, i :: 0 <= j < ny && 0 <= i < nx ==> f[j][i] == Some(c)
    ensures Smoothed(f, ny, nx, p, q, wrap) == f
  {
    var g := Smoothed(f, ny, nx, p, q, wrap);
    forall j, i | 0 <= j < ny && 0 <= i < nx ensures g[j][i] == f[j][i] {
      ConstantCell(f, ny, nx, p, q, wrap, c, j, i);
    }
    SameGrid(g, f, ny, nx);
  }

  lemma ConstantCell(f: Field, ny: nat, nx: nat, p: real, q: real, wrap: bool, c: real, j: nat, i: nat)
    requires IsField(f, ny, nx) && j < ny && i < nx
    requires forall j, i :: 0 <= j < ny && 0 <= i < nx ==> f[j][i] == Some(c)
    ensures SmoothedAt(f, ny, nx, p, q, wrap, j, i) == Some(c)
  {
    if forall a, b :: -1 <= a <= 1 && -1 <= b <= 1 ==> Neighbour(f, ny, nx, j, i, a, b, wrap).Some? {
      NeighbourOfConstant(f, ny, nx, wrap, c, j, i, -1, 0);
      NeighbourOfConstant(f, ny, nx, wrap, c, j, i, 1, 0);
      NeighbourOfConstant(f, ny, nx, wrap, c, j, i, 0, -1);
      NeighbourOfConstant(f, ny, nx, wrap, c, j, i, 0, 1);
      NeighbourOfConstant(f, ny, nx, wrap, c, j, i, -1, -1);
      NeighbourOfConstant(f, ny, nx, wrap, c, j, i, -1, 1);
      NeighbourOfConstant(f, ny, nx, wrap, c, j, i, 1, -1);
      NeighbourOfConstant(f, ny, nx, wrap, c, j, i, 1, 1);
      ValidCellSmoothed(f, ny, nx, p, q, wrap, j, i, c, 4.0 * c, 4.0 * c);
      assert Weighted(c, 4.0 * c, 4.0 * c, p, q) == c;
    }
  }

  /** Every neighbour of a constant field is that constant or missing. */
  lemma NeighbourOfConstant(f: Field, ny: nat, nx: nat, wrap: bool, c: real, j: nat, i: nat, a: int, b: int)
    requires IsField(f, ny, nx) && j < ny && i < nx
    requires forall j, i :: 0 <= j < ny && 0 <= i < nx ==> f[j][i] == Some(c)
    ensures Neighbour(f, ny, nx, j, i, a, b, wrap) == None || Neighbour(f, ny, nx, j, i, a, b, wrap) == Some(c)
  {
  }

  /** The plane `k` of a stack of planes. */
  function PlaneOf(data: array3<Val>, k: nat): (f: Field)
    reads data
    requires k < data.Length0
    ensures IsField(f, data.Length1, data.Length2)
    ensures forall j, i :: 0 <= j < data.Length1 && 0 <= i < data.Length2 ==> f[j][i] == data[k, j, i]
  {
    seq(data.Length1, j requires 0 <= j < data.Length1 reads data =>
      seq(data.Length2, i requires 0 <= i < data.Length2 reads data => data[k, j, i]))
  }

  /** The product of the leading dimensions. */
  function Product(dims: seq<nat>): nat
  {
    if |dims| == 0 then 1 else Product(dims[..|dims| - 1]) * dims[|dims| - 1]
  }

  /** The body of the plane loop: the eight shifted planes, a copy of the
      centre, and the weighted sum written into the cells whose
      neighbourhood is finite. The final NaN reset of the source changes
      nothing here, as a non-finite centre is never valid and keeps its
      copied value. */
  method SmoothPlane(centre: array2<Val>, p: real, q: real, wrap: bool) returns (updated: array2<Val>)
    ensures fresh(updated) && updated.Length0 == centre.Length0 && updated.Length1 == centre.Length1
    ensures Rows(updated) == Smoothed(Rows(centre), centre.Length0, centre.Length1, p, q, wrap)
  {
    var ny, nx := centre.Length0, centre.Length1;
    var north := ShiftLat(centre, -1);
    var south := ShiftLat(centre, 1);
    var west := ShiftLon(centre, -1, wrap);
    var east := ShiftLon(centre, 1, wrap);
    var northwest := ShiftLon(north, -1, wrap);
    var northeast := ShiftLon(north, 1, wrap);
    var southwest := ShiftLon(south, -1, wrap);
    var southeast := ShiftLon(south, 1, wrap);
    ghost var f := Rows(centre);
    ghost var g := Smoothed(f, ny, nx, p, q, wrap);
    updated := SmoothCells(centre, north, south, west, east, northwest, northeast, southwest, southeast, p, q);
    forall j, i | 0 <= j < ny && 0 <= i < nx ensures Rows(updated)[j][i] == g[j][i] {
      ShiftedPlanes(f, ny, nx, wrap, j, i);
    }
    SameGrid(Rows(updated), g, ny, nx);
  }

  /** `updated = centre.copy()`, then the weighted sum in every cell where
      the centre and the eight shifted planes are all finite. */
  method SmoothCells(centre: array2<Val>, north: array2<Val>, south: array2<Val>, west: array2<Val>,
                     east: array2<Val>, northwest: array2<Val>, northeast: array2<Val>,
                     southwest: array2<Val>, southeast: array2<Val>, p: real, q: real)
    returns (updated: array2<Val>)
    requires north.Length0 == south.Length0 == west.Length0 == east.Length0 == centre.Length0
    requires northwest.Length0 == northeast.Length0 == southwest.Length0 == southeast.Length0 == centre.Length0
    requires north.Length1 == south.Length1 == west.Length1 == east.Length1 == centre.Length1
    requires northwest.Length1 == northeast.Length1 == southwest.Length1 == southeast.Length1 == centre.Length1
    ensures fresh(updated) && updated.Length0 == centre.Length0 && updated.Length1 == centre.Length1
    ensures forall j, i :: 0 <= j < centre.Length0 && 0 <= i < centre.Length1 ==>
              updated[j, i] == Nine(centre[j, i], north[j, i], south[j, i], west[j, i], east[j, i],
                                    northwest[j, i], northeast[j, i], southwest[j, i], southeast[j, i], p, q)
  {
    var ny, nx := centre.Length0, centre.Length1;
    updated := new Val[ny, nx]((j, i) reads centre => if 0 <= j < ny && 0 <= i < nx then centre[j, i] else None);
    for j := 0 to ny
      invariant forall j', i :: 0 <= j' < ny && 0 <= i < nx ==>
                  updated[j', i] == if j' < j then Nine(centre[j', i], north[j', i], south[j', i], west[j', i], east[j', i],
                                                        northwest[j', i], northeast[j', i], southwest[j', i], southeast[j', i], p, q)
                                    else centre[j', i]
    {
      for i := 0 to nx
        invariant forall j', i' :: 0 <= j' < ny && 0 <= i' < nx ==>
                    updated[j', i'] == if j' < j || (j' == j && i' < i)
                                       then Nine(centre[j', i'], north[j', i'], south[j', i'], west[j', i'], east[j', i'],
                                                 northwest[j', i'], northeast[j', i'], southwest[j', i'], southeast[j', i'], p, q)
                                       else centre[j', i']
      {
        if centre[j, i].Some? && north[j, i].Some? && south[j, i].Some? && west[j, i].Some? && east[j, i].Some?
           && northwest[j, i].Some? && northeast[j, i].Some? && southwest[j, i].Some? && southeast[j, i].Some? {
          var sides := west[j, i].value + east[j, i].value + north[j, i].value + south[j, i].value;
          var corners := northwest[j, i].value + northeast[j, i].value + southwest[j, i].value + southeast[j, i].value;
          updated[j, i] := Some(Weighted(centre[j, i].value, sides, corners, p, q));
        }
      }
    }
  }

  /** `smth9`: input with fewer than two dimensions is refused; otherwise
      every plane of the stack is smoothed and the result has the input's
      shape. `data` is the input viewed as (leading, ny, nx). */
  method Smth9(shape: seq<nat>, data: array3<Val>, p: real, q: real, wrap: bool) returns (out: Result<array3<Val>>)
    requires |shape| >= 2 ==>
               (data.Length0 == Product(shape[..|shape| - 2]) && data.Length1 == shape[|shape| - 2]
                && data.Length2 == shape[|shape| - 1])
    ensures out.Failure? <==> |shape| < 2
    ensures out.Success? ==> fresh(out.value)
    ensures out.Success? ==> out.value.Length0 == data.Length0 && out.value.Length1 == data.Length1
                             && out.value.Length2 == data.Length2
    ensures out.Success? ==> forall k :: 0 <= k < data.Length0 ==>
              PlaneOf(out.value, k) == Smoothed(PlaneOf(data, k), data.Length1, data.Length2, p, q, wrap)
  {
    if |shape| < 2 {
      return Failure("smth9 expects at least 2-D input");
    }
    var lead, ny, nx := data.Length0, data.Length1, data.Length2;
    var res := new Val[lead, ny, nx]((k, j, i) => None);
    for idx := 0 to lead
      invariant forall k, j, i :: 0 <= k < idx && 0 <= j < ny && 0 <= i < nx ==>
                  res[k, j, i] == Smoothed(PlaneOf(data, k), ny, nx, p, q, wrap)[j][i]
    {
      var plane := new Val[ny, nx]((j, i) reads data => if 0 <= j < ny && 0 <= i < nx then data[idx, j, i] else None);
      SameGrid(Rows(plane), PlaneOf(data, idx), ny, nx);
      var updated := SmoothPlane(plane, p, q, wrap);
      CopyPlane(res, idx, updated);
    }
    forall k | 0 <= k < lead ensures PlaneOf(res, k) == Smoothed(PlaneOf(data, k), ny, nx, p, q, wrap) {
      SameGrid(PlaneOf(res, k), Smoothed(PlaneOf(data, k), ny, nx, p, q, wrap), ny, nx);
    }
    out := Success(res);
  }

  /** `out[idx] = updated`: writes one plane and leaves the others. */
  method CopyPlane(res: array3<Val>, idx: nat, updated: array2<Val>)
    requires idx < res.Length0 && updated.Length0 == res.Length1 && updated.Length1 == res.Length2
    modifies res
    ensures forall j, i :: 0 <= j < res.Length1 && 0 <= i < res.Length2 ==> res[idx, j, i] == updated[j, i]
    ensures forall k, j, i :: 0 <= k < res.Length0 && k != idx && 0 <= j < res.Length1 && 0 <= i < res.Length2 ==>
              res[k, j, i] == old(res[k, j, i])
  {
    for j := 0 to res.Length1
      invariant forall k, j', i :: 0 <= k < res.Length0 && 0 <= j' < res.Length1 && 0 <= i < res.Length2 ==>
                  res[k, j', i] == if k == idx && j' < j then updated[j', i] else old(res[k, j', i])
    {
      for i := 0 to res.Length2
        invariant forall k, j', i' :: 0 <= k < res.Length0 && 0 <= j' < res.Length1 && 0 <= i' < res.Length2 ==>
                    res[k, j', i'] == if k == idx && (j' < j || (j' == j && i' < i)) then updated[j', i'] else old(res[k, j', i'])
      {
        res[idx, j, i] := updated[j, i];
      }
    }
  }

  // ------------------------------------------------------- colour-bar ticks

  /** How many ticks `range(0, size, step)` plus the last level needs at
      most: `(size - 1) // step + 1`. */
  function Labels(size: nat, step: nat): int
    requires step >= 1
  {
    (size - 1) / step + 1
  }

  lemma LabelsAtSize(size: nat)
    requires size >= 1
    ensures Labels(size, size) == 1
  {
    assert 0 <= size - 1 < size;
  }

  /** The `while` loop on `min_step`: the smallest step from `s` on whose
      label count fits. */
  function SmallestStep(size: nat, maxLabels: int, s: nat): (r: nat)
    requires 1 <= s <= size && maxLabels >= 1
    ensures s <= r <= size && Labels(size, r) <= maxLabels
    ensures forall t :: s <= t < r ==> Labels(size, t) > maxLabels
    decreases size - s
  {
    if Labels(size, s) <= maxLabels then s
    else
      LabelsAtSize(size);
      SmallestStep(size, maxLabels, s + 1)
  }

  /** `[s for s in range(lo, size) if (size - 1) // s + 1 <= max_labels]`. */
  function Fitting(lo: nat, size: nat, maxLabels: int): (r: seq<nat>)
    requires lo >= 1
    ensures forall k :: 0 <= k < |r| ==> lo <= r[k] < size && Labels(size, r[k]) <= maxLabels
    decreases size - lo
  {
    if lo >= size then []
    else (if Labels(size, lo) <= maxLabels then [lo] else []) + Fitting(lo + 1, size, maxLabels)
  }

  /** `candidate_steps`: the fitting steps from `min_step`, or `[min_step]`
      when there are none. */
  function Candidates(size: nat, maxLabels: int, minStep: nat): (r: seq<nat>)
    requires minStep >= 1 && Labels(size, minStep) <= maxLabels
    ensures |r| > 0
    ensures forall k :: 0 <= k < |r| ==> r[k] >= minStep && Labels(size, r[k]) <= maxLabels
  {
    var c := Fitting(minStep, size, maxLabels);
    if |c| == 0 then [minStep] else c
  }

  /** `[s for s in cands if n % s == 0]`. */
  function Dividing(cands: seq<nat>, n: nat): (r: seq<nat>)
    requires forall k :: 0 <= k < |cands| ==> cands[k] >= 1
    ensures forall k :: 0 <= k < |r| ==> r[k] >= 1
    ensures forall s :: s in r <==> s in cands && n % s == 0
  {
    if |cands| == 0 then []
    else (if n % cands[0] == 0 then [cands[0]] else []) + Dividing(cands[1..], n)
  }

  /** `chosen_step`: around zero, the first candidate dividing both the
      zero index and `size - 1`, else the first dividing the zero index;
      otherwise the first dividing `size - 1`; failing all, the first
      candidate. */
  function ChosenStep(cands: seq<nat>, zero: Option<nat>, last: nat): (step: nat)
    requires |cands| > 0 && forall k :: 0 <= k < |cands| ==> cands[k] >= 1
    ensures step in cands
  {
    if zero.Some? then
      var both := Dividing(Dividing(cands, zero.value), last);
      var prioritized := if |both| == 0 then Dividing(cands, zero.value) else both;
      if |prioritized| > 0 then prioritized[0] else cands[0]
    else
      var divisible := Dividing(cands, last);
      if |divisible| > 0 then divisible[0] else cands[0]
  }

  /** When some candidate step lands on the zero level, the chosen one does;
      without a zero level, when some candidate divides `size - 1`, the
      chosen one does, so the regular ticks end on the last level. */
  lemma ChosenStepDivides(cands: seq<nat>, zero: Option<nat>, last: nat, s: nat)
    requires |cands| > 0 && forall k :: 0 <= k < |cands| ==> cands[k] >= 1
    requires s in cands
    ensures zero.Some? && zero.value % s == 0 ==> zero.value % ChosenStep(cands, zero, last) == 0
    ensures zero.None? && last % s == 0 ==> last % ChosenStep(cands, zero, last) == 0
  {
    if zero.Some? && zero.value % s == 0 {
      var once := Dividing(cands, zero.value);
      assert s in once;
      var both := Dividing(once, last);
      if |both| > 0 {
        assert both[0] in both;
      } else {
        assert once[0] in once;
      }
    } else if zero.None? && last % s == 0 {
      var divisible := Dividing(cands, last);
      assert s in divisible;
      assert divisible[0] in divisible;
    }
  }

  /** `range(lo, size, step)`. */
  function RangeStep(lo: nat, size: nat, step: nat): (r: seq<int>)
    requires step >= 1
    ensures forall k :: 0 <= k < |r| ==> lo <= r[k] < size
    ensures forall i, j :: 0 <= i < j < |r| ==> r[i] < r[j]
    ensures lo < size ==> |r| > 0 && r[0] == lo
    decreases size - lo
  {
    if lo >= size then [] else [lo] + RangeStep(lo + step, size, step)
  }

  /** `argmin(abs(values))`: the first index of a level nearest zero. */
  function ArgMinAbs(values: seq<real>): (k: nat)
    requires |values| > 0
    ensures k < |values|
    ensures forall j :: 0 <= j < |values| ==> Abs(values[k]) <= Abs(values[j])
    ensures forall j :: 0 <= j < k ==> Abs(values[j]) > Abs(values[k])
  {
    if |values| == 1 then 0
    else
      var k := ArgMinAbs(values[..|values| - 1]);
      if Abs(values[|values| - 1]) < Abs(values[k]) then |values| - 1 else k
  }

  /** `zero_idx`: the level nearest zero when the levels run from below
      zero to above it. */
  function ZeroIndex(values: seq<real>): (z: Option<nat>)
    requires |values| > 0
    ensures z.Some? ==> z.value < |values|
  {
    if values[0] < 0.0 < values[|values| - 1] then Some(ArgMinAbs(values)) else None
  }

  /** Whether a list holds no value twice. */
  predicate Distinct(xs: seq<int>)
  {
    forall i, j :: 0 <= i < j < |xs| ==> xs[i] != xs[j]
  }

  /** Appending a value not yet present keeps a list free of repeats. */
  lemma AppendFresh(xs: seq<int>, x: int)
    requires Distinct(xs)
    ensures x !in xs ==> Distinct(xs + [x])
  {
    var r := xs + [x];
    if x !in xs {
      forall i, j | 0 <= i < j < |r| ensures r[i] != r[j] {
        if j == |xs| {
          assert r[i] == xs[i];
        }
      }
    }
  }

  /** `list(range(0, size, step))` followed by the two appends: the last
      level if the range missed it, then the zero level if missing. */
  function WithEnds(size: nat, step: nat, zero: Option<nat>): (w: seq<int>)
    requires size >= 1 && step >= 1 && (zero.Some? ==> zero.value < size)
    ensures Distinct(w)
    ensures forall k :: 0 <= k < |w| ==> 0 <= w[k] < size
    ensures 0 in w && size - 1 in w && (zero.Some? ==> zero.value in w)
  {
    var regular := RangeStep(0, size, step);
    assert regular[0] == 0;
    var top := regular[|regular| - 1];
    assert forall k :: 0 <= k < |regular| ==> regular[k] <= top;
    var withLast := if top != size - 1 then regular + [size - 1] else regular;
    AppendFresh(regular, size - 1);
    assert withLast[0] == 0;
    var withZero := if zero.Some? && zero.value !in withLast then withLast + [zero.value] else withLast;
    AppendFresh(withLast, if zero.Some? then zero.value else 0);
    assert withZero[0] == 0;
    withZero
  }

  /** `indices = sorted(set(indices))`. */
  function IndicesOf(size: nat, step: nat, zero: Option<nat>): (idx: seq<int>)
    requires size >= 1 && step >= 1 && (zero.Some? ==> zero.value < size)
    ensures forall k :: 0 <= k < |idx| ==> 0 <= idx[k] < size
    ensures 0 in idx && size - 1 in idx && (zero.Some? ==> zero.value in idx)
  {
    var w := WithEnds(size, step, zero);
    SortedIndices(w, size, zero, 0);
    SortInts(w)
  }

  /** The indices ascend strictly. */
  lemma IndicesFacts(size: nat, step: nat, zero: Option<nat>)
    requires size >= 1 && step >= 1 && (zero.Some? ==> zero.value < size)
    ensures Ascending(IndicesOf(size, step, zero))
  {
    SortedIndices(WithEnds(size, step, zero), size, zero, 0);
  }

  /** Sorting distinct in-range indices that hold both ends and the zero
      level keeps all of that and makes them ascend. */
  lemma SortedIndices(w: seq<int>, size: nat, zero: Option<nat>, y: int)
    requires Distinct(w) && forall k :: 0 <= k < |w| ==> 0 <= w[k] < size
    requires 0 in w && size - 1 in w && (zero.Some? ==> zero.value in w)
    ensures Ascending(SortInts(w))
    ensures y in SortInts(w) ==> 0 <= y < size
    ensures 0 in SortInts(w) && size - 1 in SortInts(w)
    ensures zero.Some? ==> zero.value in SortInts(w)
    ensures forall k :: 0 <= k < |SortInts(w)| ==> 0 <= SortInts(w)[k] < size
  {
    var r := SortInts(w);
    forall k | 0 <= k < |r| ensures 0 <= r[k] < size {
      SortIntsFacts(w, r[k]);
    }
    SortIntsFacts(w, y);
    SortIntsFacts(w, 0);
    SortIntsFacts(w, size - 1);
    if zero.Some? {
      SortIntsFacts(w, zero.value);
    }
  }

  /** The step the source settles on for `size` levels. */
  function StepOf(values: seq<real>, maxLabels: int): (step: nat)
    requires |values| > maxLabels >= 1
    ensures step >= 1 && Labels(|values|, step) <= maxLabels
  {
    var size := |values|;
    var minStep := SmallestStep(size, maxLabels, 1);
    ChosenStep(Candidates(size, maxLabels, minStep), ZeroIndex(values), size - 1)
  }

  /** The indices of the selected levels: they take in the first and the
      last level, and the level nearest zero when the levels run across zero. */
  function TickIndices(values: seq<real>, maxLabels: int): (idx: seq<int>)
    requires |values| > maxLabels >= 1
    ensures forall k :: 0 <= k < |idx| ==> 0 <= idx[k] < |values|
    ensures 0 in idx && |values| - 1 in idx
    ensures ZeroIndex(values).Some? ==> ZeroIndex(values).value in idx
  {
    IndicesOf(|values|, StepOf(values, maxLabels), ZeroIndex(values))
  }

  /** `values[indices]`. */
  function Pick(values: seq<real>, idx: seq<int>): (r: seq<real>)
    requires forall k :: 0 <= k < |idx| ==> 0 <= idx[k] < |values|
    ensures |r| == |idx| && forall k :: 0 <= k < |idx| ==> r[k] == values[idx[k]]
  {
    seq(|idx|, k requires 0 <= k < |idx| => values[idx[k]])
  }

  /** `[-x for x in xs if x > 0]` when `positive`, else `[-x for x in xs if x < 0]`. */
  function Mirror(xs: seq<real>, positive: bool): (r: seq<real>)
    ensures forall x :: x in r <==> -x in xs && (if positive then -x > 0.0 else -x < 0.0)
  {
    if |xs| == 0 then []
    else
      var x := xs[|xs| - 1];
      var rest := Mirror(xs[..|xs| - 1], positive);
      assert xs == xs[..|xs| - 1] + [x];
      if (if positive then x > 0.0 else x < 0.0) then rest + [-x] else rest
  }

  /** `np.round(..., decimals=6)`, elementwise. */
  function Rounded(xs: seq<real>, round6: real -> real): (r: seq<real>)
    ensures |r| == |xs| && forall k :: 0 <= k < |xs| ==> r[k] == round6(xs[k])
  {
    seq(|xs|, k requires 0 <= k < |xs| => round6(xs[k]))
  }

  /** The ticks around zero: the selected levels, the negations of the
      positive and of the negative ones, and the zero level, rounded and
      made unique. */
  function Symmetric(base: seq<real>, zeroValue: real, round6: real -> real): (ticks: seq<real>)
    ensures Increasing(ticks)
    ensures round6(zeroValue) in ticks
  {
    var r := Rounded(base + Mirror(base, true) + Mirror(base, false) + [zeroValue], round6);
    assert r[|r| - 1] == round6(zeroValue);
    UniqueRealsFacts(r, round6(zeroValue));
    UniqueReals(r)
  }

  /** `_select_tick_values`. The rounding to six decimals is a parameter. */
  function TickValues(values: seq<real>, maxLabels: int, round6: real -> real): (ticks: seq<real>)
    requires |values| <= maxLabels || maxLabels >= 1
    ensures |values| <= maxLabels ==> ticks == values
  {
    if |values| <= maxLabels then values
    else
      var base := SelectedLevels(values, maxLabels);
      var zero := ZeroIndex(values);
      if zero.None? then SortReals(base) else SortReals(Symmetric(base, values[zero.value], round6))
  }

  /** `values[indices]`: the levels at the tick indices. */
  function SelectedLevels(values: seq<real>, maxLabels: int): (base: seq<real>)
    requires |values| > maxLabels >= 1
    ensures |base| == |TickIndices(values, maxLabels)|
    ensures forall k :: 0 <= k < |base| ==> base[k] == values[TickIndices(values, maxLabels)[k]]
  {
    Pick(values, TickIndices(values, maxLabels))
  }

  /** With more levels than labels the ticks are in non-decreasing order. */
  lemma TicksSorted(values: seq<real>, maxLabels: int, round6: real -> real)
    requires |values| > maxLabels >= 1
    ensures NonDecreasing(TickValues(values, maxLabels, round6))
  {
    var base := SelectedLevels(values, maxLabels);
    var zero := ZeroIndex(values);
    if zero.None? {
      SortRealsFacts(base);
    } else {
      SortRealsFacts(Symmetric(base, values[zero.value], round6));
    }
  }

  /** When the levels do not run across zero, the ticks are levels, and the
      first and last levels are among them. */
  lemma TicksKeepEnds(values: seq<real>, maxLabels: int, round6: real -> real, x: real)
    requires |values| > maxLabels >= 1 && ZeroIndex(values).None?
    ensures values[0] in TickValues(values, maxLabels, round6)
    ensures values[|values| - 1] in TickValues(values, maxLabels, round6)
    ensures x in TickValues(values, maxLabels, round6) ==> x in values
  {
    assert TickValues(values, maxLabels, round6) == SortReals(SelectedLevels(values, maxLabels));
    EndsInSorted(values, TickIndices(values, maxLabels), SelectedLevels(values, maxLabels), x);
  }

  /** Sorting levels picked at indices that include both ends keeps both
      ends and brings in nothing but levels. */
  lemma EndsInSorted(values: seq<real>, idx: seq<int>, base: seq<real>, x: real)
    requires |base| == |idx| && |values| > 0
    requires forall c :: 0 <= c < |idx| ==> 0 <= idx[c] < |values| && base[c] == values[idx[c]]
    requires 0 in idx && |values| - 1 in idx
    ensures values[0] in SortReals(base) && values[|values| - 1] in SortReals(base)
    ensures x in SortReals(base) ==> x in values
  {
    var a :| 0 <= a < |idx| && idx[a] == 0;
    var b :| 0 <= b < |idx| && idx[b] == |values| - 1;
    SortRealsMember(base, base[a]);
    SortRealsMember(base, base[b]);
    SortRealsMember(base, x);
    if x in base {
      var k :| 0 <= k < |base| && base[k] == x;
      assert values[idx[k]] == x;
    }
  }

  /** Around zero the ticks are the symmetric set itself, already strictly
      increasing, so the final sort keeps it as it is. */
  lemma SymmetricTicks(values: seq<real>, maxLabels: int, round6: real -> real)
    requires |values| > maxLabels >= 1 && ZeroIndex(values).Some?
    ensures TickValues(values, maxLabels, round6) ==
              Symmetric(SelectedLevels(values, maxLabels), values[ArgMinAbs(values)], round6)
    ensures Increasing(TickValues(values, maxLabels, round6))
  {
    var base := SelectedLevels(values, maxLabels);
    var zeroValue := values[ArgMinAbs(values)];
    var combined := base + Mirror(base, true) + Mirror(base, false) + [zeroValue];
    UniqueRealsFacts(Rounded(combined, round6), 0.0);
    SortedUnchanged(Symmetric(base, zeroValue, round6));
  }

  /** When the levels run across zero, the ticks ascend strictly and hold,
      rounded, the first level, the last level and the level nearest zero. */
  lemma TicksAroundZero(values: seq<real>, maxLabels: int, round6: real -> real)
    requires |values| > maxLabels >= 1 && ZeroIndex(values).Some?
    ensures Increasing(TickValues(values, maxLabels, round6))
    ensures round6(values[0]) in TickValues(values, maxLabels, round6)
    ensures round6(values[|values| - 1]) in TickValues(values, maxLabels, round6)
    ensures round6(values[ArgMinAbs(values)]) in TickValues(values, maxLabels, round6)
  {
    SymmetricTicks(values, maxLabels, round6);
    EndsInSymmetric(values, TickIndices(values, maxLabels), SelectedLevels(values, maxLabels), values[ArgMinAbs(values)], round6);
    InSymmetric(SelectedLevels(values, maxLabels), values[ArgMinAbs(values)], round6, |SelectedLevels(values, maxLabels)|);
  }

  /** The first and the last level, rounded, are in the symmetric ticks
      built from levels picked at indices that include both ends. */
  lemma EndsInSymmetric(values: seq<real>, idx: seq<int>, base: seq<real>, zeroValue: real, round6: real -> real)
    requires |base| == |idx| && |values| > 0
    requires forall c :: 0 <= c < |idx| ==> 0 <= idx[c] < |values| && base[c] == values[idx[c]]
    requires 0 in idx && |values| - 1 in idx
    ensures round6(values[0]) in Symmetric(base, zeroValue, round6)
    ensures round6(values[|values| - 1]) in Symmetric(base, zeroValue, round6)
  {
    LevelInSymmetric(values, idx, base, zeroValue, round6, 0);
    LevelInSymmetric(values, idx, base, zeroValue, round6, |values| - 1);
  }

  /** When the levels run across zero, every selected level is, rounded,
      among the ticks, and so is the negation of every non-zero one. */
  lemma TicksMirrored(values: seq<real>, maxLabels: int, round6: real -> real, k: int)
    requires |values| > maxLabels >= 1 && ZeroIndex(values).Some?
    requires k in TickIndices(values, maxLabels)
    ensures 0 <= k < |values| && round6(values[k]) in TickValues(values, maxLabels, round6)
    ensures values[k] != 0.0 ==> round6(-values[k]) in TickValues(values, maxLabels, round6)
  {
    var idx := TickIndices(values, maxLabels);
    var base := SelectedLevels(values, maxLabels);
    SymmetricTicks(values, maxLabels, round6);
    LevelInSymmetric(values, idx, base, values[ArgMinAbs(values)], round6, k);
  }

  /** A level picked at one of the indices is, rounded, in the symmetric
      ticks, and so is its negation when it is not zero. */
  lemma LevelInSymmetric(values: seq<real>, idx: seq<int>, base: seq<real>, zeroValue: real, round6: real -> real, k: int)
    requires |base| == |idx|
    requires forall c :: 0 <= c < |idx| ==> 0 <= idx[c] < |values| && base[c] == values[idx[c]]
    requires k in idx
    ensures 0 <= k < |values| && round6(values[k]) in Symmetric(base, zeroValue, round6)
    ensures values[k] != 0.0 ==> round6(-values[k]) in Symmetric(base, zeroValue, round6)
  {
    var c :| 0 <= c < |idx| && idx[c] == k;
    InSymmetric(base, zeroValue, round6, c);
  }

  /** What the symmetric ticks hold: each base level rounded, the rounded
      negation of each non-zero base level, and (at `k == |base|`) the zero
      level rounded. */
  lemma InSymmetric(base: seq<real>, zeroValue: real, round6: real -> real, k: nat)
    requires k <= |base|
    ensures k == |base| ==> round6(zeroValue) in Symmetric(base, zeroValue, round6)
    ensures k < |base| ==> round6(base[k]) in Symmetric(base, zeroValue, round6)
    ensures k < |base| && base[k] != 0.0 ==> round6(-base[k]) in Symmetric(base, zeroValue, round6)
  {
    var combined := base + Mirror(base, true) + Mirror(base, false) + [zeroValue];
    var r := Rounded(combined, round6);
    if k == |base| {
      assert r[|r| - 1] == round6(zeroValue);
      UniqueRealsFacts(r, round6(zeroValue));
    } else {
      assert r[k] == round6(base[k]);
      UniqueRealsFacts(r, round6(base[k]));
      if base[k] != 0.0 {
        var m := -base[k];
        assert base[k] in base;
        assert m in Mirror(base, true) || m in Mirror(base, false);
        assert m in combined;
        var c :| 0 <= c < |combined| && combined[c] == m;
        assert r[c] == round6(m);
        UniqueRealsFacts(r, round6(m));
      }
    }
  }

  /** Sorting a strictly increasing list changes nothing. */
  lemma {:induction false} SortedUnchanged(xs: seq<real>)
    requires Increasing(xs)
    ensures SortReals(xs) == xs
  {
    if |xs| > 0 {
      var init := xs[..|xs| - 1];
      SortedUnchanged(init);
      assert RealPos(xs[|xs| - 1], init) == |init|;
      assert init + [xs[|xs| - 1]] == xs;
    }
  }

  /** The `while` loop of `_select_tick_values` and what follows it. */
  method SelectTickValues(levels: seq<real>, maxLabels: int, round6: real -> real) returns (ticks: seq<real>)
    requires |levels| <= maxLabels || maxLabels >= 1
    ensures ticks == TickValues(levels, maxLabels, round6)
  {
    var values := levels;
    if |values| <= maxLabels {
      return values;
    }
    var first, last := values[0], values[|values| - 1];
    var size := |values|;
    var minStep := 1;
    while (size - 1) / minStep + 1 > maxLabels
      invariant 1 <= minStep <= size
      invariant SmallestStep(size, maxLabels, minStep) == SmallestStep(size, maxLabels, 1)
      decreases size - minStep
    {
      LabelsAtSize(size);
      minStep := minStep + 1;
    }
    assert minStep == SmallestStep(size, maxLabels, 1);
    var zeroIdx := if first < 0.0 < last then Some(ArgMinAbs(values)) else None;
    assert zeroIdx == ZeroIndex(values);
    var candidateSteps := Candidates(size, maxLabels, minStep);
    var chosenStep := ChosenStep(candidateSteps, zeroIdx, size - 1);
    assert chosenStep == StepOf(values, maxLabels);
    var indices := BuildIndices(size, chosenStep, zeroIdx);
    assert indices == TickIndices(values, maxLabels);
    var baseValues := Pick(values, indices);
    assert baseValues == SelectedLevels(values, maxLabels);
    if zeroIdx.Some? {
      var zeroValue := values[zeroIdx.value];
      var combined := baseValues + Mirror(baseValues, true) + Mirror(baseValues, false) + [zeroValue];
      baseValues := UniqueReals(Rounded(combined, round6));
      assert baseValues == Symmetric(Pick(values, indices), zeroValue, round6);
    }
    ticks := SortReals(baseValues);
  }

  /** `indices = list(range(0, size, chosen_step))`, the two conditional
      appends, and `sorted(set(indices))`. */
  method BuildIndices(size: nat, step: nat, zero: Option<nat>) returns (indices: seq<int>)
    requires size >= 1 && step >= 1 && (zero.Some? ==> zero.value < size)
    ensures indices == IndicesOf(size, step, zero)
  {
    indices := RangeStep(0, size, step);
    if indices[|indices| - 1] != size - 1 {
      indices := indices + [size - 1];
    }
    if zero.Some? && zero.value !in indices {
      indices := indices + [zero.value];
    }
    assert indices == WithEnds(size, step, zero);
    indices := SortInts(indices);
  }
}
