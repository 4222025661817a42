/** The daily loop of `process_year` and the `parse_years` argument parser.

    Each step of the loop takes today's and tomorrow's files and that day's
    surface fluxes, diagnoses today's mixed layer, assembles the budget
    terms cell by cell, and then rolls a three-day window holding the two
    previous mixed-layer temperatures and the previous thickness. */
module Year {
  import opened Floats
  import opened Grid
  import opened MixedLayer
  import opened Budget
  import opened Text

  /** One daily file: temperature and velocity cubes, mixed-layer thickness. */
  datatype Day = Day(t: Cube, u: Cube, v: Cube, h: Field)

  /** One day's surface-flux records, positive into the ocean. */
  datatype Flux = Flux(sw: Field, lw: Field, lhf: Field, shf: Field)

  /** The level depths and the horizontal grid spacings: `dxRow[j]` for row
      j, and one `dy`. */
  datatype Mesh = Mesh(depth: seq<real>, ny: nat, nx: nat, dxRow: seq<real>, dy: real)

  predicate ValidMesh(m: Mesh)
  {
    |m.depth| >= 1 && |m.dxRow| == m.ny
  }

  predicate ValidDay(m: Mesh, d: Day)
  {
    IsCube(d.t, |m.depth|, m.ny, m.nx) && IsCube(d.u, |m.depth|, m.ny, m.nx) &&
    IsCube(d.v, |m.depth|, m.ny, m.nx) && IsField(d.h, m.ny, m.nx)
  }

  predicate ValidFlux(m: Mesh, f: Flux)
  {
    IsField(f.sw, m.ny, m.nx) && IsField(f.lw, m.ny, m.nx) &&
    IsField(f.lhf, m.ny, m.nx) && IsField(f.shf, m.ny, m.nx)
  }

  /** One cell of the fifteen daily output records, in the order of the
      output files: T_ML, Tb, T0, U_ML, V_ML, MLD, ten, ten_cen, advNF,
      qnet, ent, diff, diffv, clos_d2_ten, clos_d2_ten_cen. */
  datatype Record = Record(tm: Val, tb: Val, t0: Val, um: Val, vm: Val, mld: Val,
                           tenF: Val, tenC: Val, adv: Val, qnet: Val, ent: Val,
                           diff: Val, diffv: Val, closF: Val, closC: Val)

  // ------------------------------------------------------------- one cell

  /** A closure residual is present exactly when its tendency and all five
      terms are, and then the five terms and the residual add up to the
      tendency. */
  predicate Closes(ten: Val, clos: Val, r: Record)
  {
    (clos.Some? <==> ten.Some? && r.qnet.Some? && r.adv.Some? && r.ent.Some? && r.diff.Some? && r.diffv.Some?) &&
    (clos.Some? ==> r.qnet.Some? && r.adv.Some? && r.ent.Some? && r.diff.Some? && r.diffv.Some? && ten.Some? &&
                    r.qnet.value + r.adv.value + r.ent.value + r.diff.value + r.diffv.value + clos.value == ten.value)
  }

  /** The thickness tendency of the entrainment velocity: centred over two
      days in "centered" mode once a previous thickness exists, forward
      otherwise. */
  function CellThicknessTendency(mode: WeMode, h1: Val, h0: Val, hPrev: Option<Val>): (r: Val)
    ensures mode == Centered && hPrev.Some? ==> r == ThicknessTendency(true, h1, h0, hPrev.value)
    ensures !(mode == Centered && hPrev.Some?) ==> r == ThicknessTendency(false, h1, h0, None)
  {
    if mode == Centered && hPrev.Some? then ThicknessTendency(true, h1, h0, hPrev.value)
    else ThicknessTendency(false, h1, h0, None)
  }

  /** Every term of one cell for one day. `tmx`, `tmy`, `div` and `diff` are
      the cell's values of the fields that need neighbours; `tmPrev` and
      `tmPrevPrev` are the cell's entries of the window, and `tmNext` is
      tomorrow's mixed-layer temperature. */
  function CellRecord(cfg: Config, d: Diag, h0: Val, h1: Val, hPrev: Option<Val>,
                      sw: Val, lw: Val, lhf: Val, shf: Val,
                      tmx: Val, tmy: Val, div: Val, diff: Val,
                      tmPrev: Option<Val>, tmPrevPrev: Option<Val>, tmNext: Val,
                      exp: real -> real): (r: Record)
    ensures r.tm == d.tm && r.tb == d.tb && r.t0 == d.t0 && r.um == d.um && r.vm == d.vm
    ensures r.mld == h0 && r.diff == diff
    ensures r.adv == Advection(d.um, d.vm, tmx, tmy)
    ensures cfg.entOnlyCooling ==> r.ent.Some? && r.ent.value <= 0.0
    ensures tmPrev.None? ==> r.tenF.None? && r.tenC.None?
    ensures tmPrevPrev.None? ==> r.tenC.None?
    ensures tmPrev.Some? ==> r.tenF == Tendency(d.tm, tmPrev.value, Dt)
    ensures tmPrev.Some? && tmPrevPrev.Some? ==> r.tenC == Tendency(tmNext, tmPrevPrev.value, 2.0 * Dt)
    ensures Closes(r.tenF, r.closF, r) && Closes(r.tenC, r.closC, r)
  {
    var hden := Denominator(h0, h1, cfg.hmin, cfg.useHbar);
    var qnet := Qnet(sw, lw, lhf, shf, h0, hden, exp);
    var adv := Advection(d.um, d.vm, tmx, tmy);
    var ht := CellThicknessTendency(cfg.weMode, h1, h0, hPrev);
    var we := EntrainmentVelocity(cfg.weMode, ht, div, cfg.weCapMd);
    var dTeff := EffectiveJump(Sub(d.tm, d.tb), cfg.dTCap);
    var ent := Entrainment(we, hden, dTeff, cfg.entOnlyCooling, cfg.entCapKpd);
    var diffv := VerticalDiffusion(cfg.kv, d.tz, hden);
    var tenF := if tmPrev.Some? then Tendency(d.tm, tmPrev.value, Dt) else None;
    var tenC := if tmPrev.Some? && tmPrevPrev.Some? then Tendency(tmNext, tmPrevPrev.value, 2.0 * Dt) else None;
    var rhs := Rhs(qnet, adv, ent, diff, diffv);
    Record(d.tm, d.tb, d.t0, d.um, d.vm, h0, tenF, tenC, adv, qnet, ent, diff, diffv,
           Closure(tenF, rhs), Closure(tenC, rhs))
  }

  // ------------------------------------------------------------ whole grid

  /** One diagnostic of every cell, as a field. */
  function Project(g: seq<seq<Diag>>, sel: Diag -> Val, ny: nat, nx: nat): (f: Field)
    requires IsGridOf(g, ny, nx)
    ensures IsField(f, ny, nx)
    ensures forall j, i :: 0 <= j < ny && 0 <= i < nx ==> f[j][i] == sel(g[j][i])
  {
    seq(ny, j requires 0 <= j < ny => seq(nx, i requires 0 <= i < nx => sel(g[j][i])))
  }

  /** A cell-by-cell combination of two fields, as numpy's elementwise operators. */
  function Map2(a: Field, b: Field, op: (Val, Val) -> Val, ny: nat, nx: nat): (f: Field)
    requires IsField(a, ny, nx) && IsField(b, ny, nx)
    ensures IsField(f, ny, nx)
    ensures forall j, i :: 0 <= j < ny && 0 <= i < nx ==> f[j][i] == op(a[j][i], b[j][i])
  {
    seq(ny, j requires 0 <= j < ny => seq(nx, i requires 0 <= i < nx => op(a[j][i], b[j][i])))
  }

  /** A cell of a field the window may not hold yet. */
  function CellOf(f: Option<Field>, ny: nat, nx: nat, j: nat, i: nat): (r: Option<Val>)
    requires f.Some? ==> IsField(f.value, ny, nx)
    requires j < ny && i < nx
    ensures r.Some? <==> f.Some?
    ensures r.Some? ==> r.value == f.value[j][i]
  {
    if f.Some? then Some(f.value[j][i]) else None
  }

  /** The mixed-layer temperature of a diagnosis. */
  function TmOf(g: seq<seq<Diag>>, ny: nat, nx: nat): (f: Field)
    requires IsGridOf(g, ny, nx)
    ensures IsField(f, ny, nx)
    ensures forall j, i :: 0 <= j < ny && 0 <= i < nx ==> f[j][i] == g[j][i].tm
  {
    Project(g, (d: Diag) => d.tm, ny, nx)
  }

  /** The inputs of one day have the grid's shape. */
  predicate DayShape(m: Mesh, g: seq<seq<Diag>>, today: Day, tomorrow: Day, flux: Flux,
                     tmPrev: Option<Field>, tmPrevPrev: Option<Field>, hPrev: Option<Field>, tmNext: Field)
  {
    ValidMesh(m) && ValidDay(m, today) && ValidDay(m, tomorrow) && ValidFlux(m, flux) &&
    IsGridOf(g, m.ny, m.nx) && IsField(tmNext, m.ny, m.nx) &&
    (tmPrev.Some? ==> IsField(tmPrev.value, m.ny, m.nx)) &&
    (tmPrevPrev.Some? ==> IsField(tmPrevPrev.value, m.ny, m.nx)) &&
    (hPrev.Some? ==> IsField(hPrev.value, m.ny, m.nx))
  }

  /** The terms that need neighbouring cells: the gradients of `Tm`, the
      divergence of the thickness transport, and the lateral diffusion. */
  datatype Lateral = Lateral(tmx: Field, tmy: Field, div: Field, diff: Field)

  predicate Edge(ny: nat, nx: nat, j: nat, i: nat)
  {
    j == 0 || j == ny - 1 || i == 0 || i == nx - 1
  }

  function LateralTerms(cfg: Config, m: Mesh, g: seq<seq<Diag>>, today: Day, tomorrow: Day): (l: Lateral)
    requires ValidMesh(m) && ValidDay(m, today) && ValidDay(m, tomorrow) && IsGridOf(g, m.ny, m.nx)
    ensures IsField(l.tmx, m.ny, m.nx) && IsField(l.tmy, m.ny, m.nx)
    ensures IsField(l.div, m.ny, m.nx) && IsField(l.diff, m.ny, m.nx)
    ensures forall j, i :: 0 <= j < m.ny && 0 <= i < m.nx && (i == 0 || i == m.nx - 1) ==> l.tmx[j][i].None?
    ensures forall j, i :: 0 <= j < m.ny && 0 <= i < m.nx && (j == 0 || j == m.ny - 1) ==> l.tmy[j][i].None?
    ensures forall j, i :: 0 <= j < m.ny && 0 <= i < m.nx && Edge(m.ny, m.nx, j, i) ==> l.diff[j][i].None?
  {
    var ny, nx := m.ny, m.nx;
    var tm := TmOf(g, ny, nx);
    var um := Project(g, (d: Diag) => d.um, ny, nx);
    var vm := Project(g, (d: Diag) => d.vm, ny, nx);
    var tb := Project(g, (d: Diag) => d.tb, ny, nx);
    var dT := Map2(tm, tb, Sub, ny, nx);
    var hden := Map2(today.h, tomorrow.h, (a, b) => Denominator(a, b, cfg.hmin, cfg.useHbar), ny, nx);
    var div := Map2(DdxC(Map2(today.h, um, Mul, ny, nx), m.dxRow, ny, nx),
                    DdyC(Map2(today.h, vm, Mul, ny, nx), m.dy, ny, nx), Add, ny, nx);
    Lateral(DdxC(tm, m.dxRow, ny, nx), DdyC(tm, m.dy, ny, nx), div,
            DiffField(tm, today.h, dT, hden, m.dxRow, m.dy, cfg.ah, ny, nx))
  }

  /** The record of cell (j, i) for one day. */
  function DayCell(cfg: Config, m: Mesh, g: seq<seq<Diag>>, today: Day, tomorrow: Day, flux: Flux, l: Lateral,
                   tmPrev: Option<Field>, tmPrevPrev: Option<Field>, hPrev: Option<Field>,
                   tmNext: Field, exp: real -> real, j: nat, i: nat): (rec: Record)
    requires DayShape(m, g, today, tomorrow, flux, tmPrev, tmPrevPrev, hPrev, tmNext)
    requires IsField(l.tmx, m.ny, m.nx) && IsField(l.tmy, m.ny, m.nx)
    requires IsField(l.div, m.ny, m.nx) && IsField(l.diff, m.ny, m.nx)
    requires j < m.ny && i < m.nx
    ensures rec.tm == g[j][i].tm && rec.tb == g[j][i].tb && rec.t0 == g[j][i].t0
    ensures rec.mld == today.h[j][i] && rec.diff == l.diff[j][i]
    ensures rec.adv == Advection(g[j][i].um, g[j][i].vm, l.tmx[j][i], l.tmy[j][i])
    ensures cfg.entOnlyCooling ==> rec.ent.Some? && rec.ent.value <= 0.0
    ensures Closes(rec.tenF, rec.closF, rec) && Closes(rec.tenC, rec.closC, rec)
  {
    CellRecord(cfg, g[j][i], today.h[j][i], tomorrow.h[j][i], CellOf(hPrev, m.ny, m.nx, j, i),
               flux.sw[j][i], flux.lw[j][i], flux.lhf[j][i], flux.shf[j][i],
               l.tmx[j][i], l.tmy[j][i], l.div[j][i], l.diff[j][i],
               CellOf(tmPrev, m.ny, m.nx, j, i), CellOf(tmPrevPrev, m.ny, m.nx, j, i), tmNext[j][i], exp)
  }

  /** The terms of one day on the whole grid. `g` is today's diagnosis; the
      window fields are present or not as the loop has filled them. */
  function DayRecords(cfg: Config, m: Mesh, g: seq<seq<Diag>>, today: Day, tomorrow: Day, flux: Flux,
                      tmPrev: Option<Field>, tmPrevPrev: Option<Field>, hPrev: Option<Field>,
                      tmNext: Field, exp: real -> real): (recs: seq<seq<Record>>)
    requires DayShape(m, g, today, tomorrow, flux, tmPrev, tmPrevPrev, hPrev, tmNext)
    ensures IsGridOf(recs, m.ny, m.nx)
    ensures forall j, i :: 0 <= j < m.ny && 0 <= i < m.nx ==>
              recs[j][i] == DayCell(cfg, m, g, today, tomorrow, flux, LateralTerms(cfg, m, g, today, tomorrow),
                                    tmPrev, tmPrevPrev, hPrev, tmNext, exp, j, i)
  {
    seq(m.ny, j requires 0 <= j < m.ny =>
      seq(m.nx, i requires 0 <= i < m.nx =>
        DayCell(cfg, m, g, today, tomorrow, flux, LateralTerms(cfg, m, g, today, tomorrow),
                tmPrev, tmPrevPrev, hPrev, tmNext, exp, j, i)))
  }

  /** What the records of one cell promise, given the window's state. */
  predicate CellPromises(cfg: Config, r: Record, d: Diag, h0: Val, edge: bool,
                         tmPrev: Option<Val>, tmPrevPrev: Option<Val>, tmNext: Val)
  {
    r.tm == d.tm && r.tb == d.tb && r.t0 == d.t0 && r.mld == h0 &&
    (edge ==> r.adv.None? && r.diff.None?) &&
    (cfg.entOnlyCooling ==> r.ent.Some? && r.ent.value <= 0.0) &&
    (tmPrev.None? ==> r.tenF.None? && r.tenC.None?) &&
    (tmPrevPrev.None? ==> r.tenC.None?) &&
    (tmPrev.Some? ==> r.tenF == Tendency(d.tm, tmPrev.value, Dt)) &&
    (tmPrev.Some? && tmPrevPrev.Some? ==> r.tenC == Tendency(tmNext, tmPrevPrev.value, 2.0 * Dt)) &&
    Closes(r.tenF, r.closF, r) && Closes(r.tenC, r.closC, r)
  }

  /** Every cell of a day: the diagnostics pass through, advection and
      diffusion are NaN on the edges, the cooling-only rule holds, the
      tendencies follow the window, and each closure balances. */
  lemma DayRecordsPromise(cfg: Config, m: Mesh, g: seq<seq<Diag>>, today: Day, tomorrow: Day, flux: Flux,
                          tmPrev: Option<Field>, tmPrevPrev: Option<Field>, hPrev: Option<Field>,
                          tmNext: Field, exp: real -> real)
    requires DayShape(m, g, today, tomorrow, flux, tmPrev, tmPrevPrev, hPrev, tmNext)
    ensures var recs := DayRecords(cfg, m, g, today, tomorrow, flux, tmPrev, tmPrevPrev, hPrev, tmNext, exp);
            forall j, i :: 0 <= j < m.ny && 0 <= i < m.nx ==>
              CellPromises(cfg, recs[j][i], g[j][i], today.h[j][i], Edge(m.ny, m.nx, j, i),
                           CellOf(tmPrev, m.ny, m.nx, j, i), CellOf(tmPrevPrev, m.ny, m.nx, j, i), tmNext[j][i])
  {
    var recs := DayRecords(cfg, m, g, today, tomorrow, flux, tmPrev, tmPrevPrev, hPrev, tmNext, exp);
    var l := LateralTerms(cfg, m, g, today, tomorrow);
    forall j, i | 0 <= j < m.ny && 0 <= i < m.nx
      ensures CellPromises(cfg, recs[j][i], g[j][i], today.h[j][i], Edge(m.ny, m.nx, j, i),
                           CellOf(tmPrev, m.ny, m.nx, j, i), CellOf(tmPrevPrev, m.ny, m.nx, j, i), tmNext[j][i])
    {
      assert recs[j][i] == DayCell(cfg, m, g, today, tomorrow, flux, l, tmPrev, tmPrevPrev, hPrev, tmNext, exp, j, i);
      if Edge(m.ny, m.nx, j, i) {
        assert l.diff[j][i].None?;
        assert l.tmx[j][i].None? || l.tmy[j][i].None?;
      }
    }
  }

  // ------------------------------------------------------------- the year

  /** The bottom index of every cell, taken once from the first day. */
  function YearTopo(m: Mesh, days: seq<Day>): (topo: seq<seq<int>>)
    requires ValidMesh(m) && |days| >= 1 && ValidDay(m, days[0])
    ensures IsTopo(topo, m.ny, m.nx, |m.depth|)
  {
    TopoOf(days[0].t, |m.depth|, m.ny, m.nx)
  }

  /** The diagnosis of one day with the year's bottom indices. */
  function DayDiag(m: Mesh, topo: seq<seq<int>>, d: Day): (g: seq<seq<Diag>>)
    requires ValidMesh(m) && ValidDay(m, d) && IsTopo(topo, m.ny, m.nx, |m.depth|)
    ensures IsGridOf(g, m.ny, m.nx)
  {
    Diagnostics(d.t, d.u, d.v, d.h, m.depth, topo, m.ny, m.nx)
  }

  function DayTm(m: Mesh, topo: seq<seq<int>>, d: Day): (f: Field)
    requires ValidMesh(m) && ValidDay(m, d) && IsTopo(topo, m.ny, m.nx, |m.depth|)
    ensures IsField(f, m.ny, m.nx)
  {
    TmOf(DayDiag(m, topo, d), m.ny, m.nx)
  }

  predicate ValidYear(m: Mesh, days: seq<Day>, fluxes: seq<Flux>)
  {
    ValidMesh(m) && |fluxes| + 1 >= |days| &&
    (forall n :: 0 <= n < |days| ==> ValidDay(m, days[n])) &&
    (forall n :: 0 <= n < |fluxes| ==> ValidFlux(m, fluxes[n]))
  }

  /** The records written at step `n + 1` of the loop: today is file `n`,
      tomorrow file `n + 1`; the window holds files `n - 1` and `n - 2`. */
  function StepRecords(cfg: Config, m: Mesh, topo: seq<seq<int>>, days: seq<Day>, fluxes: seq<Flux>,
                       n: nat, exp: real -> real): seq<seq<Record>>
    requires ValidYear(m, days, fluxes) && IsTopo(topo, m.ny, m.nx, |m.depth|) && n + 1 < |days|
  {
    DayRecords(cfg, m, DayDiag(m, topo, days[n]), days[n], days[n + 1], fluxes[n],
               if n >= 1 then Some(DayTm(m, topo, days[n - 1])) else None,
               if n >= 2 then Some(DayTm(m, topo, days[n - 2])) else None,
               if n >= 1 then Some(days[n - 1].h) else None,
               if n >= 2 then DayTm(m, topo, days[n + 1]) else NaNField(m.ny, m.nx), exp)
  }

  /** The results of the first `k` passes of a loop that appends one result
      per pass, in order. */
  function Steps<T>(step: nat --> T, k: nat): (out: seq<T>)
    requires forall n :: 0 <= n < k ==> step.requires(n)
    ensures |out| == k
  {
    if k == 0 then [] else Steps(step, k - 1) + [step(k - 1)]
  }

  /** Entry `n` of the results is pass `n`'s. */
  lemma {:induction false} StepsAt<T>(step: nat --> T, k: nat)
    requires forall n :: 0 <= n < k ==> step.requires(n)
    ensures forall n :: 0 <= n < k ==> Steps(step, k)[n] == step(n)
  {
    if k > 0 {
      StepsAt(step, k - 1);
      var prev := Steps(step, k - 1);
      assert Steps(step, k) == prev + [step(k - 1)];
      forall n | 0 <= n < k - 1
        ensures Steps(step, k)[n] == step(n)
      {
        assert Steps(step, k)[n] == prev[n];
      }
    }
  }

  /** The step of the daily loop, as a function of the step's index. */
  function StepOf(cfg: Config, m: Mesh, topo: seq<seq<int>>, days: seq<Day>, fluxes: seq<Flux>,
                  exp: real -> real): nat --> seq<seq<Record>>
  {
    (n: nat) requires ValidYear(m, days, fluxes) && IsTopo(topo, m.ny, m.nx, |m.depth|) && n + 1 < |days| =>
      StepRecords(cfg, m, topo, days, fluxes, n, exp)
  }

  /** Every record of the year, one grid per step. */
  function YearRecords(cfg: Config, m: Mesh, days: seq<Day>, fluxes: seq<Flux>, exp: real -> real)
    : (out: seq<seq<seq<Record>>>)
    requires ValidYear(m, days, fluxes) && |days| >= 1
    ensures |out| == |days| - 1
    ensures forall n :: 0 <= n < |out| ==> out[n] == StepRecords(cfg, m, YearTopo(m, days), days, fluxes, n, exp)
  {
    var topo := YearTopo(m, days);
    StepsAt(StepOf(cfg, m, topo, days, fluxes, exp), |days| - 1);
    Steps(StepOf(cfg, m, topo, days, fluxes, exp), |days| - 1)
  }

  /** The window fills over the first steps: there is no forward tendency on
      the first step and no centred one on the first two. From then on the
      forward tendency spans today and yesterday, and the centred one spans
      tomorrow and the day before yesterday, three days. */
  lemma TendencyWindow(cfg: Config, m: Mesh, days: seq<Day>, fluxes: seq<Flux>, exp: real -> real,
                       n: nat, j: nat, i: nat)
    requires ValidYear(m, days, fluxes) && n + 1 < |days| && j < m.ny && i < m.nx
    ensures var r := YearRecords(cfg, m, days, fluxes, exp)[n][j][i];
            var topo := YearTopo(m, days);
            (n == 0 ==> r.tenF.None?) &&
            (n <= 1 ==> r.tenC.None?) &&
            (n >= 1 ==> r.tenF == Tendency(DayTm(m, topo, days[n])[j][i], DayTm(m, topo, days[n - 1])[j][i], Dt)) &&
            (n >= 2 ==> r.tenC == Tendency(DayTm(m, topo, days[n + 1])[j][i], DayTm(m, topo, days[n - 2])[j][i], 2.0 * Dt))
  {
    var topo := YearTopo(m, days);
    assert YearRecords(cfg, m, days, fluxes, exp)[n] == StepRecords(cfg, m, topo, days, fluxes, n, exp);
  }

  // ------------------------------------------------------ the rolling window

  /** `Tm_prev`, `Tm_prev_prev` and `H_prev`: what the loop remembers of the
      previous days. */
  class Window {
    var tmPrev: Option<Field>
    var tmPrevPrev: Option<Field>
    var hPrev: Option<Field>

    /** The window fills from the front: the day before yesterday is only
        remembered once yesterday is, and yesterday's temperature and
        thickness arrive together. */
    predicate Valid()
      reads this
    {
      (tmPrevPrev.Some? ==> tmPrev.Some?) && (tmPrev.Some? <==> hPrev.Some?)
    }

    constructor ()
      ensures Valid()
      ensures tmPrev.None? && tmPrevPrev.None? && hPrev.None?
    {
      tmPrev := None;
      tmPrevPrev := None;
      hPrev := None;
    }

    /** The end of a step: yesterday becomes the day before yesterday, and
        today becomes yesterday. */
    method Roll(tm: Field, h0: Field)
      requires Valid()
      modifies this
      ensures Valid()
      ensures tmPrevPrev == old(tmPrev) && tmPrev == Some(tm) && hPrev == Some(h0)
    {
      tmPrevPrev := tmPrev;
      tmPrev := Some(tm);
      hPrev := Some(h0);
    }
  }

  /** `ml_avg_Tb_Tz_sfc` on one day's file. */
  method DiagnoseDay(m: Mesh, topo: seq<seq<int>>, d: Day) returns (g: seq<seq<Diag>>)
    requires ValidMesh(m) && ValidDay(m, d) && IsTopo(topo, m.ny, m.nx, |m.depth|)
    ensures g == DayDiag(m, topo, d)
  {
    var cells := DiagnoseGrid(d.t, d.u, d.v, d.h, m.depth, topo, m.ny, m.nx);
    g := Rows(cells);
    SameGrid(g, DayDiag(m, topo, d), m.ny, m.nx);
  }

  /** The window at the start of step `n + 1`: it holds the files before
      file `n`, at most two of them. */
  predicate WindowAt(w: Window, m: Mesh, topo: seq<seq<int>>, days: seq<Day>, n: nat)
    reads w
    requires ValidMesh(m) && IsTopo(topo, m.ny, m.nx, |m.depth|) && n < |days|
    requires forall k :: 0 <= k < |days| ==> ValidDay(m, days[k])
  {
    w.tmPrev == (if n >= 1 then Some(DayTm(m, topo, days[n - 1])) else None) &&
    w.tmPrevPrev == (if n >= 2 then Some(DayTm(m, topo, days[n - 2])) else None) &&
    w.hPrev == (if n >= 1 then Some(days[n - 1].h) else None)
  }

  /** One pass of the daily loop with today = file `n`: diagnose today,
      diagnose tomorrow when the centred tendency is due, assemble the
      records from the window, then roll the window. */
  method Step(cfg: Config, m: Mesh, topo: seq<seq<int>>, days: seq<Day>, fluxes: seq<Flux>, n: nat,
              w: Window, exp: real -> real) returns (recs: seq<seq<Record>>)
    requires ValidYear(m, days, fluxes) && IsTopo(topo, m.ny, m.nx, |m.depth|) && n + 1 < |days|
    requires w.Valid() && WindowAt(w, m, topo, days, n)
    modifies w
    ensures recs == StepRecords(cfg, m, topo, days, fluxes, n, exp)
    ensures w.Valid() && WindowAt(w, m, topo, days, n + 1)
  {
    var today, tomorrow := days[n], days[n + 1];
    var g := DiagnoseDay(m, topo, today);
    var tmNext := NaNField(m.ny, m.nx);
    if w.tmPrev.Some? && w.tmPrevPrev.Some? {
      var gNext := DiagnoseDay(m, topo, tomorrow);
      tmNext := TmOf(gNext, m.ny, m.nx);
    }
    recs := DayRecords(cfg, m, g, today, tomorrow, fluxes[n], w.tmPrev, w.tmPrevPrev, w.hPrev, tmNext, exp);
    w.Roll(TmOf(g, m.ny, m.nx), today.h);
  }

  /** The topo loop on the first file. */
  method YearBottom(m: Mesh, days: seq<Day>) returns (topo: seq<seq<int>>)
    requires ValidMesh(m) && |days| >= 1 && ValidDay(m, days[0])
    ensures topo == YearTopo(m, days)
  {
    var cells := Topo(days[0].t, |m.depth|, m.ny, m.nx);
    topo := Rows(cells);
    SameGrid(topo, YearTopo(m, days), m.ny, m.nx);
  }

  /** `process_year` after its inputs are read: refuses fewer than three
      files, fixes the bottom indices from the first file, then steps through
      the files, rolling the window after each step. The centred tendency
      needs tomorrow's diagnosis, which is computed only once the window
      holds two days. */
  method ProcessYear(cfg: Config, m: Mesh, days: seq<Day>, fluxes: seq<Flux>, exp: real -> real)
    returns (r: Result<seq<seq<seq<Record>>>>)
    requires ValidYear(m, days, fluxes)
    ensures |days| < 3 <==> r.Failure?
    ensures r.Success? ==> r.value == YearRecords(cfg, m, days, fluxes, exp)
  {
    if |days| < 3 {
      return Failure("Need at least 3 daily files for centered tendency");
    }
    var topo := YearBottom(m, days);
    var out := RunDays(cfg, m, topo, days, fluxes, exp);
    return Success(out);
  }

  /** The daily loop of `process_year` with the bottom indices fixed. */
  method RunDays(cfg: Config, m: Mesh, topo: seq<seq<int>>, days: seq<Day>, fluxes: seq<Flux>, exp: real -> real)
    returns (out: seq<seq<seq<Record>>>)
    requires ValidYear(m, days, fluxes) && IsTopo(topo, m.ny, m.nx, |m.depth|) && |days| >= 1
    ensures out == Steps(StepOf(cfg, m, topo, days, fluxes, exp), |days| - 1)
  {
    var w := new Window();
    out := [];
    for ti := 1 to |days|
      invariant w.Valid()
      invariant out == Steps(StepOf(cfg, m, topo, days, fluxes, exp), ti - 1)
      invariant WindowAt(w, m, topo, days, ti - 1)
    {
      var recs := Step(cfg, m, topo, days, fluxes, ti - 1, w, exp);
      out := out + [recs];
    }
  }

  // ---------------------------------------------------------- parse_years

  predicate IsDigit(c: char)
  {
    '0' <= c <= '9'
  }

  predicate AllDigits(s: string)
  {
    forall k :: 0 <= k < |s| ==> IsDigit(s[k])
  }

  /** Decimal digits, with single underscores allowed between them, as
      Python's `int()` accepts. */
  predicate DigitGroups(s: string)
  {
    |s| > 0 && IsDigit(s[0]) && IsDigit(s[|s| - 1]) &&
    (forall k :: 0 <= k < |s| ==> IsDigit(s[k]) || s[k] == '_') &&
    (forall k :: 0 <= k < |s| - 1 ==> !(s[k] == '_' && s[k + 1] == '_'))
  }

  /** The value of a run of decimal digits. */
  function DigitsValue(s: string): nat
    requires AllDigits(s)
  {
    if |s| == 0 then 0 else 10 * DigitsValue(s[..|s| - 1]) + (s[|s| - 1] as int - '0' as int)
  }

  lemma {:induction false} DigitsWithoutUnderscores(s: string)
    requires forall k :: 0 <= k < |s| ==> IsDigit(s[k]) || s[k] == '_'
    ensures AllDigits(DeleteChar(s, '_'))
  {
    if |s| > 0 {
      DigitsWithoutUnderscores(s[1..]);
    }
  }

  /** Python's `int(s)` in base 10: surrounding whitespace, an optional sign,
      then digit groups. */
  function ParseInt(s: string): Option<int>
  {
    var t := Strip(s);
    var signed := |t| > 0 && (t[0] == '-' || t[0] == '+');
    var body := if signed then t[1..] else t;
    if DigitGroups(body) then
      DigitsWithoutUnderscores(body);
      var n := DigitsValue(DeleteChar(body, '_'));
      Some(if signed && t[0] == '-' then -(n as int) else n)
    else None
  }

  function DigitChar(d: nat): char
    requires d < 10
  {
    ('0' as int + d) as char
  }

  /** `str(n)` for a natural number. */
  function ShowNat(n: nat): (s: string)
    ensures |s| > 0 && AllDigits(s) && IsDigit(s[0])
  {
    if n < 10 then [DigitChar(n)] else ShowNat(n / 10) + [DigitChar(n % 10)]
  }

  /** `str(n)`. */
  function ShowInt(n: int): string
  {
    if n < 0 then "-" + ShowNat(-n) else ShowNat(n)
  }

  lemma {:induction false} ShowNatValue(n: nat)
    ensures DigitsValue(ShowNat(n)) == n
  {
    if n >= 10 {
      var s := ShowNat(n);
      assert s[..|s| - 1] == ShowNat(n / 10);
      ShowNatValue(n / 10);
    }
  }

  lemma ShowIntChars(n: int)
    ensures |ShowInt(n)| > 0 && ':' !in ShowInt(n) && ',' !in ShowInt(n)
  {
    var d := ShowNat(if n < 0 then -n else n);
    assert ':' !in d && ',' !in d;
  }

  /** The decimal form of a natural number is one group of digits, worth
      the number. */
  lemma ShowNatGroups(n: nat)
    ensures var d := ShowNat(n);
            DigitGroups(d) && '_' !in d && DeleteChar(d, '_') == d && DigitsValue(d) == n
  {
    var d := ShowNat(n);
    assert '_' !in d;
    ShowNatValue(n);
  }

  /** `str(n)` has no surrounding whitespace. */
  lemma ShowIntStripped(n: int)
    ensures Strip(ShowInt(n)) == ShowInt(n)
  {
    var s := ShowInt(n);
    assert Trimmed(s);
    StripPadding([], s, []);
    assert [] + s + [] == s;
  }

  /** Stripped digit text without underscores reads as its value. */
  lemma ParseDigits(t: string)
    requires Strip(t) == t && DigitGroups(t) && AllDigits(t) && DeleteChar(t, '_') == t
    ensures ParseInt(t) == Some(DigitsValue(t))
  {
    assert !(t[0] == '-' || t[0] == '+');
  }

  /** A minus sign before such digits reads as the negated value. */
  lemma ParseNegatedDigits(t: string)
    requires Strip(t) == t && |t| > 0 && t[0] == '-'
    requires DigitGroups(t[1..]) && AllDigits(t[1..]) && DeleteChar(t[1..], '_') == t[1..]
    ensures ParseInt(t) == Some(-(DigitsValue(t[1..]) as int))
  {
  }

  /** Reading back the decimal form of any integer gives the integer. */
  lemma ParseShowInt(n: int)
    ensures ParseInt(ShowInt(n)) == Some(n)
  {
    ShowIntStripped(n);
    if n < 0 {
      ParseShowNegative(n);
    } else {
      ShowNatGroups(n);
      ParseDigits(ShowNat(n));
    }
  }

  lemma ParseShowNegative(n: int)
    requires n < 0 && Strip(ShowInt(n)) == ShowInt(n)
    ensures ParseInt(ShowInt(n)) == Some(n)
  {
    var s := ShowInt(n);
    assert s[1..] == ShowNat(-n);
    ShowNatGroups(-n);
    assert DigitsValue(s[1..]) == -n;
    ParseNegatedDigits(s);
  }

  /** `range(a, b)`. */
  function Range(a: int, b: int): (r: seq<int>)
    ensures |r| == if a <= b then b - a else 0
    ensures forall k :: 0 <= k < |r| ==> r[k] == a + k
  {
    if a < b then seq(b - a, k requires 0 <= k < b - a => a + k) else []
  }

  /** The values of a list of optional values, or None if any is missing. */
  function Collect<T>(vals: seq<Option<T>>): (r: Option<seq<T>>)
    ensures r.Some? ==> |r.value| == |vals|
  {
    if |vals| == 0 then Some([])
    else if vals[0].None? then None
    else match Collect(vals[1..])
      case None => None
      case Some(ys) => Some([vals[0].value] + ys)
  }

  /** Collecting succeeds exactly when every value is present, and then
      keeps them all, in order. */
  lemma {:induction false} CollectValues<T>(vals: seq<Option<T>>)
    ensures Collect(vals).Some? <==> forall k :: 0 <= k < |vals| ==> vals[k].Some?
    ensures Collect(vals).Some? ==> forall k :: 0 <= k < |vals| ==> vals[k] == Some(Collect(vals).value[k])
  {
    if |vals| > 0 {
      var rest := vals[1..];
      CollectValues(rest);
      assert forall k :: 1 <= k < |vals| ==> vals[k] == rest[k - 1];
    }
  }

  /** `int(x)` of each part. */
  function ParseEach(parts: seq<string>): (vals: seq<Option<int>>)
    ensures |vals| == |parts| && forall k :: 0 <= k < |parts| ==> vals[k] == ParseInt(parts[k])
  {
    seq(|parts|, k requires 0 <= k < |parts| => ParseInt(parts[k]))
  }

  /** `[int(x) for x in parts]`, failing if a part is not an integer. */
  function ParseAll(parts: seq<string>): (r: Result<seq<int>>)
    ensures r.Success? ==> |r.value| == |parts|
  {
    match Collect(ParseEach(parts))
      case None => Failure("invalid literal for int()")
      case Some(ys) => Success(ys)
  }

  /** A successful parse holds, in order, the value of every part, and it
      fails exactly when some part is not an integer. */
  lemma ParseAllValues(parts: seq<string>)
    ensures ParseAll(parts).Success? <==> forall k :: 0 <= k < |parts| ==> ParseInt(parts[k]).Some?
    ensures ParseAll(parts).Success? ==>
              forall k :: 0 <= k < |parts| ==> ParseInt(parts[k]) == Some(ParseAll(parts).value[k])
  {
    var vals := ParseEach(parts);
    CollectValues(vals);
    if Collect(vals).None? {
      var k :| 0 <= k < |vals| && vals[k].None?;
      assert ParseInt(parts[k]).None?;
    } else {
      forall k | 0 <= k < |parts| ensures ParseInt(parts[k]) == Some(Collect(vals).value[k]) {
        assert vals[k] == ParseInt(parts[k]);
      }
    }
  }

  /** `range(a, b + 1)` once both ends have been read. */
  function YearsBetween(a: Option<int>, b: Option<int>): Result<seq<int>>
  {
    if a.Some? && b.Some? then Success(Range(a.value, b.value + 1))
    else Failure("invalid literal for int()")
  }

  /** `parse_years`: an inclusive range `a:b`, or a comma-separated list. */
  function ParseYears(s: string): (r: Result<seq<int>>)
    ensures ':' in s && r.Success? ==> forall k :: 0 < k < |r.value| ==> r.value[k] == r.value[k - 1] + 1
    ensures ':' in s && |Split(s, ':')| != 2 ==> r.Failure?
    ensures ':' !in s && r.Success? ==> |r.value| == |Split(s, ',')|
  {
    if ':' in s then
      var parts := Split(s, ':');
      if |parts| != 2 then Failure("expected exactly two values around ':'")
      else YearsBetween(ParseInt(parts[0]), ParseInt(parts[1]))
    else ParseAll(Split(s, ','))
  }

  /** `"a:b"` reads back as every year from a to b inclusive. */
  lemma YearRangeRoundTrip(a: int, b: int)
    ensures ParseYears(ShowInt(a) + ":" + ShowInt(b)) == Success(Range(a, b + 1))
  {
    ShowIntChars(a);
    ShowIntChars(b);
    ParseShowInt(a);
    ParseShowInt(b);
    RangeText(ShowInt(a), ShowInt(b), a, b);
  }

  /** Two integer texts around a colon read as the inclusive range. */
  lemma RangeText(x: string, y: string, a: int, b: int)
    requires ':' !in x && ':' !in y && ParseInt(x) == Some(a) && ParseInt(y) == Some(b)
    ensures ParseYears(x + ":" + y) == Success(Range(a, b + 1))
  {
    var s := x + ":" + y;
    assert ':' in s by {
      assert s[|x|] == ':';
    }
    SplitPair(x, y, ':');
    ParseYearsPair(s, x, y);
    YearsBetweenSome(a, b);
  }

  lemma ParseYearsPair(s: string, x: string, y: string)
    requires ':' in s && Split(s, ':') == [x, y]
    ensures ParseYears(s) == YearsBetween(ParseInt(x), ParseInt(y))
  {
  }

  lemma YearsBetweenSome(a: int, b: int)
    ensures YearsBetween(Some(a), Some(b)) == Success(Range(a, b + 1))
  {
  }
}
