/** Two-dimensional fields and the centred finite-difference operators
    `ddx_c` and `ddy_c` of process_d2nf.py. */
module Grid {
  import opened Floats

  /** A field indexed `[j][i]`: row j (latitude), column i (longitude). */
  type Field = seq<seq<Val>>

  /** A field stack indexed `[k][j][i]`: level k of a three-dimensional variable. */
  type Cube = seq<Field>

  predicate IsField(f: Field, ny: nat, nx: nat)
  {
    |f| == ny && forall j :: 0 <= j < ny ==> |f[j]| == nx
  }

  predicate IsCube(c: Cube, nz: nat, ny: nat, nx: nat)
  {
    |c| == nz && forall k :: 0 <= k < nz ==> IsField(c[k], ny, nx)
  }

  /** A grid of any cell type with `ny` rows of `nx` cells. */
  predicate IsGridOf<T>(g: seq<seq<T>>, ny: nat, nx: nat)
  {
    |g| == ny && forall j :: 0 <= j < ny ==> |g[j]| == nx
  }

  /** The cells of a two-dimensional array, row by row. */
  function Rows<T>(a: array2<T>): (g: seq<seq<T>>)
    reads a
    ensures IsGridOf(g, a.Length0, a.Length1)
    ensures forall j, i :: 0 <= j < a.Length0 && 0 <= i < a.Length1 ==> g[j][i] == a[j, i]
  {
    seq(a.Length0, j requires 0 <= j < a.Length0 reads a =>
      seq(a.Length1, i requires 0 <= i < a.Length1 reads a => a[j, i]))
  }

  /** Two grids of one shape with equal cells are equal. */
  lemma SameGrid<T>(a: seq<seq<T>>, b: seq<seq<T>>, ny: nat, nx: nat)
    requires IsGridOf(a, ny, nx) && IsGridOf(b, ny, nx)
    requires forall j, i :: 0 <= j < ny && 0 <= i < nx ==> a[j][i] == b[j][i]
    ensures a == b
  {
    forall j | 0 <= j < ny ensures a[j] == b[j] {
      assert forall i :: 0 <= i < nx ==> a[j][i] == b[j][i];
    }
  }

  /** The field filled with NaN, as `np.full(..., np.nan)`. */
  function NaNField(ny: nat, nx: nat): (f: Field)
    ensures IsField(f, ny, nx)
    ensures forall j, i :: 0 <= j < ny && 0 <= i < nx ==> f[j][i].None?
  {
    seq(ny, j => seq(nx, i => None))
  }

  /** The vertical column of a cube at cell (j, i). */
  function Column(c: Cube, nz: nat, ny: nat, nx: nat, j: nat, i: nat): (col: seq<Val>)
    requires IsCube(c, nz, ny, nx) && j < ny && i < nx
    ensures |col| == nz
    ensures forall k :: 0 <= k < nz ==> col[k] == c[k][j][i]
  {
    seq(nz, k requires 0 <= k < nz => c[k][j][i])
  }

  /** `(plus - minus) / (2 * spacing)`, the centred difference of one cell. */
  function Centred(plus: Val, minus: Val, spacing: real): (r: Val)
    ensures r.Some? <==> plus.Some? && minus.Some? && spacing != 0.0
    ensures r.Some? ==> r.value * (2.0 * spacing) == plus.value - minus.value
  {
    Div(Sub(plus, minus), Some(2.0 * spacing))
  }

  /** `ddx_c`: centred difference along a row, using that row's spacing.
      The first and last columns stay NaN. */
  function DdxC(f: Field, dxRow: seq<real>, ny: nat, nx: nat): (d: Field)
    requires IsField(f, ny, nx) && |dxRow| == ny
    ensures IsField(d, ny, nx)
    ensures forall j :: 0 <= j < ny ==> nx == 0 || (d[j][0].None? && d[j][nx - 1].None?)
    ensures forall j, i :: 0 <= j < ny && 0 < i < nx - 1 ==>
              (d[j][i].Some? <==> f[j][i + 1].Some? && f[j][i - 1].Some? && dxRow[j] != 0.0)
  {
    var d := seq(ny, j requires 0 <= j < ny =>
      seq(nx, i requires 0 <= i < nx =>
        if 0 < i < nx - 1 then Centred(f[j][i + 1], f[j][i - 1], dxRow[j]) else None));
    assert forall j, i :: 0 <= j < ny && 0 <= i < nx ==>
      d[j][i] == if 0 < i < nx - 1 then Centred(f[j][i + 1], f[j][i - 1], dxRow[j]) else None;
    d
  }

  /** `ddy_c`: centred difference across rows with one spacing.
      The first and last rows stay NaN. */
  function DdyC(f: Field, dy: real, ny: nat, nx: nat): (d: Field)
    requires IsField(f, ny, nx)
    ensures IsField(d, ny, nx)
    ensures forall i :: 0 <= i < nx ==> ny == 0 || (d[0][i].None? && d[ny - 1][i].None?)
    ensures forall j, i :: 0 < j < ny - 1 && 0 <= i < nx ==>
              (d[j][i].Some? <==> f[j + 1][i].Some? && f[j - 1][i].Some? && dy != 0.0)
  {
    var d := seq(ny, j requires 0 <= j < ny =>
      seq(nx, i requires 0 <= i < nx =>
        if 0 < j < ny - 1 then Centred(f[j + 1][i], f[j - 1][i], dy) else None));
    assert forall j, i :: 0 <= j < ny && 0 <= i < nx ==>
      d[j][i] == if 0 < j < ny - 1 then Centred(f[j + 1][i], f[j - 1][i], dy) else None;
    d
  }

  lemma RampPair(plus: Val, minus: Val, b: real, s: real, xp: real, xm: real, d: real)
    requires d != 0.0 && xp == xm + 2.0
    requires plus.Some? && plus.value == b + s * xp * d
    requires minus.Some? && minus.value == b + s * xm * d
    ensures Centred(plus, minus, d) == Some(s)
  {
    assert plus.value - minus.value == s * (2.0 * d);
    assert Centred(plus, minus, d).value * (2.0 * d) == s * (2.0 * d);
  }

  /** On a field that rises linearly along each row (slope `s` per unit distance),
      `ddx_c` returns exactly `s` at every interior cell. */
  lemma DdxCOfRamp(f: Field, dxRow: seq<real>, ny: nat, nx: nat, base: seq<real>, s: real)
    requires IsField(f, ny, nx) && |dxRow| == ny && |base| == ny
    requires forall j :: 0 <= j < ny ==> dxRow[j] != 0.0
    requires forall j, i :: 0 <= j < ny && 0 <= i < nx ==> f[j][i] == Some(base[j] + s * (i as real) * dxRow[j])
    ensures forall j, i :: 0 <= j < ny && 0 < i < nx - 1 ==> DdxC(f, dxRow, ny, nx)[j][i] == Some(s)
  {
    forall j, i | 0 <= j < ny && 0 < i < nx - 1
      ensures DdxC(f, dxRow, ny, nx)[j][i] == Some(s)
    {
      var ip, im := i + 1, i - 1;
      assert f[j][ip] == Some(base[j] + s * (ip as real) * dxRow[j]);
      assert f[j][im] == Some(base[j] + s * (im as real) * dxRow[j]);
      RampPair(f[j][ip], f[j][im], base[j], s, ip as real, im as real, dxRow[j]);
    }
  }

  /** On a field that rises linearly across rows (slope `s`), `ddy_c` returns
      exactly `s` at every interior cell. */
  lemma DdyCOfRamp(f: Field, dy: real, ny: nat, nx: nat, base: seq<real>, s: real)
    requires IsField(f, ny, nx) && |base| == nx && dy != 0.0
    requires forall j, i :: 0 <= j < ny && 0 <= i < nx ==> f[j][i] == Some(base[i] + s * (j as real) * dy)
    ensures forall j, i :: 0 < j < ny - 1 && 0 <= i < nx ==> DdyC(f, dy, ny, nx)[j][i] == Some(s)
  {
    forall j, i | 0 < j < ny - 1 && 0 <= i < nx
      ensures DdyC(f, dy, ny, nx)[j][i] == Some(s)
    {
      var jp, jm := j + 1, j - 1;
      assert f[jp][i] == Some(base[i] + s * (jp as real) * dy);
      assert f[jm][i] == Some(base[i] + s * (jm as real) * dy);
      RampPair(f[jp][i], f[jm][i], base[i], s, jp as real, jm as real, dy);
    }
  }
}
