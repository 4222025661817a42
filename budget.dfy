/** The daily terms of the mixed-layer heat budget of process_d2nf.py,
    TEN = QNET + ADV + ENT + DIFF + DIFFV, each in kelvin per second, cell by
    cell. */
module Budget {
  import opened Floats
  import opened Grid
  import opened MixedLayer

  const Rho: real := 1026.0
  const Cp: real := 4000.0
  /** Seconds per day: the time step between two daily files. */
  const Dt: real := 86400.0
  const HminDefault: real := 10.0
  const AhDefault: real := 100.0
  const KvDefault: real := 0.0001
  /** Two-band shortwave penetration: fraction and e-folding depths (m). */
  const Rsw: real := 0.77
  const Gam1: real := 1.5
  const Gam2: real := 14.0

  /** How the entrainment velocity is formed from the thickness tendency and
      the thickness-flux divergence. */
  datatype WeMode = Full | Deepening | Dhdt | Centered

  /** The run options of `process_year`. Caps are `None` when not given. */
  datatype Config = Config(ah: real, kv: real, useHbar: bool, hmin: real, weMode: WeMode,
                           weCapMd: Option<real>, entOnlyCooling: bool,
                           dTCap: Option<real>, entCapKpd: Option<real>)

  /** The defaults of the command line. */
  const Defaults: Config := Config(AhDefault, KvDefault, false, HminDefault, Dhdt, None, true, None, None)

  // ---------------------------------------------------------- denominators

  /** `np.where(H < hmin, hmin, H)`: thin layers are raised to `hmin`; NaN
      compares false and stays NaN. */
  function Floor(h: Val, hmin: real): (r: Val)
    ensures r.Some? <==> h.Some?
    ensures r.Some? ==> r.value >= hmin
    ensures h.Some? && h.value >= hmin ==> r == h
  {
    if Below(h, hmin) then Some(hmin) else h
  }

  /** `hden`: the floored day-0 thickness, or in hbar mode the mean of the
      floored thicknesses of both days. */
  function Denominator(h0: Val, h1: Val, hmin: real, useHbar: bool): (r: Val)
    ensures r.Some? <==> h0.Some? && (useHbar ==> h1.Some?)
    ensures r.Some? ==> r.value >= hmin
    ensures !useHbar ==> r == Floor(h0, hmin)
    ensures useHbar && r.Some? ==>
              Min(Floor(h0, hmin).value, Floor(h1, hmin).value) <= r.value <= Max(Floor(h0, hmin).value, Floor(h1, hmin).value)
  {
    var hc := Floor(h0, hmin);
    if useHbar then Mul(Some(0.5), Add(hc, Floor(h1, hmin))) else hc
  }

  // ------------------------------------------------------------------ QNET

  /** Fraction of the surface shortwave that reaches depth `h`, with `exp`
      the exponential function. */
  function Transmittance(h: Val, exp: real -> real): (r: Val)
    ensures r.Some? <==> h.Some?
  {
    if h.Some? then Some(Rsw * exp(-h.value / Gam1) + (1.0 - Rsw) * exp(-h.value / Gam2)) else None
  }

  /** The net surface flux `sw + lw + lhf + shf`. */
  function SurfaceFlux(sw: Val, lw: Val, lhf: Val, shf: Val): Val
  {
    Add(Add(Add(sw, lw), lhf), shf)
  }

  /** QNET: the surface flux minus the shortwave that passes below the layer,
      converted to a warming rate of a layer `hden` thick. */
  function Qnet(sw: Val, lw: Val, lhf: Val, shf: Val, h0: Val, hden: Val, exp: real -> real): (r: Val)
    ensures r.Some? <==> sw.Some? && lw.Some? && lhf.Some? && shf.Some? && h0.Some? && hden.Some? && hden.value != 0.0
    ensures r.Some? ==>
              r.value * (Rho * Cp * hden.value)
              == SurfaceFlux(sw, lw, lhf, shf).value - sw.value * Transmittance(h0, exp).value
  {
    var qh := Mul(sw, Transmittance(h0, exp));
    var heat := Mul(Some(Rho * Cp), hden);
    var r := Div(Sub(SurfaceFlux(sw, lw, lhf, shf), qh), heat);
    assert r.Some? ==> r.value * heat.value == SurfaceFlux(sw, lw, lhf, shf).value - qh.value;
    r
  }

  /** When `exp` maps non-positive arguments into `(0, 1]` and the layer has
      non-negative thickness, the shortwave lost below the layer is between
      nothing and all of it. */
  lemma PenetrationBounded(sw: real, h: real, exp: real -> real)
    requires forall x :: x <= 0.0 ==> 0.0 < exp(x) <= 1.0
    requires sw >= 0.0 && h >= 0.0
    ensures 0.0 <= sw * Transmittance(Some(h), exp).value <= sw
  {
    var e1, e2 := exp(-h / Gam1), exp(-h / Gam2);
    assert 0.0 < e1 <= 1.0 && 0.0 < e2 <= 1.0;
    var tr := Rsw * e1 + (1.0 - Rsw) * e2;
    assert 0.0 < tr <= 1.0;
    assert sw * tr <= sw * 1.0;
  }

  /** At zero thickness all shortwave passes below (`exp(0) = 1`), so QNET
      keeps only the longwave and turbulent fluxes. */
  lemma ZeroThicknessLosesShortwave(sw: real, lw: real, lhf: real, shf: real, hden: real, exp: real -> real)
    requires exp(0.0) == 1.0 && hden != 0.0
    ensures Qnet(Some(sw), Some(lw), Some(lhf), Some(shf), Some(0.0), Some(hden), exp).value * (Rho * Cp * hden)
            == lw + lhf + shf
  {
    assert -0.0 / Gam1 == 0.0 && -0.0 / Gam2 == 0.0;
    assert Transmittance(Some(0.0), exp).value == 1.0;
  }

  // ------------------------------------------------------------------- ADV

  /** `-(Um * dTm/dx + Vm * dTm/dy)`. */
  function Advection(um: Val, vm: Val, tmx: Val, tmy: Val): (r: Val)
    ensures r.Some? <==> um.Some? && vm.Some? && tmx.Some? && tmy.Some?
    ensures r.Some? ==> r.value == -(um.value * tmx.value + vm.value * tmy.value)
  {
    Neg(Add(Mul(um, tmx), Mul(vm, tmy)))
  }

  // -------------------------------------------------------------- entrainment

  /** The thickness tendency: centred over two days when `centred`, else
      forward over one day. */
  function ThicknessTendency(centred: bool, h1: Val, h0: Val, hPrev: Val): (r: Val)
    ensures centred ==> (r.Some? <==> h1.Some? && hPrev.Some?)
    ensures centred && r.Some? ==> r.value * (2.0 * Dt) == h1.value - hPrev.value
    ensures !centred ==> (r.Some? <==> h1.Some? && h0.Some?)
    ensures !centred && r.Some? ==> r.value * Dt == h1.value - h0.value
  {
    if centred then Div(Sub(h1, hPrev), Some(2.0 * Dt)) else Div(Sub(h1, h0), Some(Dt))
  }

  /** The cap in metres per second for a cap given in metres per day. */
  function PerSecond(perDay: real): real
  {
    perDay / 86400.0
  }

  /** The entrainment velocity before the cap: the tendency alone (`Dhdt`),
      tendency plus divergence where positive and zero elsewhere, NaN
      included (`Deepening`), and tendency plus divergence otherwise (`Full`,
      and also `Centered`, which only changes the tendency). */
  function UncappedVelocity(mode: WeMode, ht: Val, div: Val): (r: Val)
    ensures mode == Dhdt ==> r == ht
    ensures mode == Deepening ==> r.Some? && r.value >= 0.0
    ensures mode == Deepening && Add(ht, div).Some? && Add(ht, div).value > 0.0 ==> r == Add(ht, div)
    ensures mode == Full || mode == Centered ==> r == Add(ht, div)
  {
    match mode
    case Dhdt => ht
    case Deepening =>
      var s := Add(ht, div);
      if s.Some? && s.value > 0.0 then s else Some(0.0)
    case _ => Add(ht, div)
  }

  /** `we_use`: the uncapped velocity, clipped to `[-cap, cap]` when a cap is
      given. A deepening-only velocity stays non-negative under a
      non-negative cap. */
  function EntrainmentVelocity(mode: WeMode, ht: Val, div: Val, capMd: Option<real>): (r: Val)
    ensures capMd.None? ==> r == UncappedVelocity(mode, ht, div)
    ensures r.Some? <==> UncappedVelocity(mode, ht, div).Some?
    ensures capMd.Some? && capMd.value >= 0.0 && r.Some? ==> Abs(r.value) <= PerSecond(capMd.value)
    ensures capMd.Some? && r.Some? && Abs(UncappedVelocity(mode, ht, div).value) <= PerSecond(capMd.value) ==>
              r == UncappedVelocity(mode, ht, div)
    ensures mode == Deepening && (capMd.None? || capMd.value >= 0.0) ==> r.Some? && r.value >= 0.0
  {
    var we := UncappedVelocity(mode, ht, div);
    if capMd.Some? then
      var cap := PerSecond(capMd.value);
      Clip(we, -cap, cap)
    else we
  }

  /** `dT_eff`: the jump `Tm - Tb`, clipped to `[-|cap|, |cap|]` when a cap is given. */
  function EffectiveJump(dT: Val, dTCap: Option<real>): (r: Val)
    ensures r.Some? <==> dT.Some?
    ensures dTCap.None? ==> r == dT
    ensures dTCap.Some? && r.Some? ==> Abs(r.value) <= Abs(dTCap.value)
    ensures dTCap.Some? && dT.Some? && Abs(dT.value) <= Abs(dTCap.value) ==> r == dT
  {
    if dTCap.Some? then Clip(dT, -Abs(dTCap.value), Abs(dTCap.value)) else dT
  }

  /** `-(we / hden) * dT_eff` before the sign rule and the cap. */
  function RawEntrainment(we: Val, hden: Val, dTeff: Val): (r: Val)
    ensures r.Some? <==> we.Some? && hden.Some? && hden.value != 0.0 && dTeff.Some?
    ensures r.Some? ==> r.value * hden.value == -(we.value * dTeff.value)
  {
    var rate := Div(we, hden);
    var r := Mul(Neg(rate), dTeff);
    assert r.Some? ==> r.value * hden.value == -(rate.value * hden.value) * dTeff.value;
    r
  }

  /** ENT. With the cooling-only rule every value is finite and non-positive
      (warming entrainment and NaN become 0); a non-negative cap bounds it to
      `[-cap, 0]` under that rule and to `[-cap, cap]` without it. */
  function Entrainment(we: Val, hden: Val, dTeff: Val, onlyCooling: bool, capKpd: Option<real>): (r: Val)
    ensures onlyCooling ==> r.Some? && r.value <= 0.0
    ensures onlyCooling && capKpd.None? ==>
              r == (if Below(RawEntrainment(we, hden, dTeff), 0.0) then RawEntrainment(we, hden, dTeff) else Some(0.0))
    ensures !onlyCooling && capKpd.None? ==> r == RawEntrainment(we, hden, dTeff)
    ensures capKpd.Some? && capKpd.value >= 0.0 && r.Some? ==>
              -PerSecond(capKpd.value) <= r.value <= (if onlyCooling then 0.0 else PerSecond(capKpd.value))
  {
    var raw := RawEntrainment(we, hden, dTeff);
    var signed := if onlyCooling then (if Below(raw, 0.0) then raw else Some(0.0)) else raw;
    if capKpd.Some? then
      var capS := PerSecond(capKpd.value);
      Clip(signed, -capS, if onlyCooling then 0.0 else capS)
    else signed
  }

  /** Under the cooling-only rule, a deepening layer (`we >= 0`) that is no
      warmer than the water below (`dT <= 0`) gets no entrainment, while one
      that is warmer is cooled. */
  lemma CoolingOnlyRule(we: real, hden: real, dT: real)
    requires we >= 0.0 && hden > 0.0
    ensures dT <= 0.0 ==> Entrainment(Some(we), Some(hden), Some(dT), true, None) == Some(0.0)
    ensures we > 0.0 && dT > 0.0 ==> Entrainment(Some(we), Some(hden), Some(dT), true, None).value < 0.0
  {
    var raw := RawEntrainment(Some(we), Some(hden), Some(dT));
    assert raw.value * hden == -(we * dT);
    if dT <= 0.0 {
      assert we * dT <= 0.0;
      SignOfQuotient(raw.value, hden, -(we * dT));
    }
    if we > 0.0 && dT > 0.0 {
      assert we * dT > 0.0;
      NegativeQuotient(raw.value, hden, -(we * dT));
    }
  }

  lemma SignOfQuotient(q: real, d: real, p: real)
    requires d > 0.0 && q * d == p && p >= 0.0
    ensures q >= 0.0
  {
  }

  lemma NegativeQuotient(q: real, d: real, p: real)
    requires d > 0.0 && q * d == p && p < 0.0
    ensures q < 0.0
  {
  }

  // ---------------------------------------------------------------- diffusion

  /** One interior cell of the conservative lateral-diffusion stencil:
      `(ah / hden) * (div1 - div2)`, where `div1` is the divergence of
      `H grad Tm` and `div2` that of `dT grad H`, both in flux form with
      face values taken from the forward cell. */
  function DiffCell(tm: Field, h0: Field, dT: Field, hden: Field, dxj: real, dy: real, ah: real,
                    ny: nat, nx: nat, j: nat, i: nat): (r: Val)
    requires IsField(tm, ny, nx) && IsField(h0, ny, nx) && IsField(dT, ny, nx) && IsField(hden, ny, nx)
    requires 0 < j < ny - 1 && 0 < i < nx - 1
    ensures !(tm[j][i].Some? && h0[j][i].Some?) ==> r.None?
  {
    if !(tm[j][i].Some? && h0[j][i].Some?) then None
    else
      var dx, dyv := Some(dxj), Some(dy);
      var hTxIp := Div(Mul(h0[j][i + 1], Sub(tm[j][i + 1], tm[j][i])), dx);
      var hTxIm := Div(Mul(h0[j][i], Sub(tm[j][i], tm[j][i - 1])), dx);
      var dThxIp := Div(Mul(dT[j][i + 1], Sub(h0[j][i + 1], h0[j][i])), dx);
      var dThxIm := Div(Mul(dT[j][i], Sub(h0[j][i], h0[j][i - 1])), dx);
      var hTyJp := Div(Mul(h0[j + 1][i], Sub(tm[j + 1][i], tm[j][i])), dyv);
      var hTyJm := Div(Mul(h0[j][i], Sub(tm[j][i], tm[j - 1][i])), dyv);
      var dThyJp := Div(Mul(dT[j + 1][i], Sub(h0[j + 1][i], h0[j][i])), dyv);
      var dThyJm := Div(Mul(dT[j][i], Sub(h0[j][i], h0[j - 1][i])), dyv);
      var div1 := Add(Div(Sub(hTxIp, hTxIm), dx), Div(Sub(hTyJp, hTyJm), dyv));
      var div2 := Add(Div(Sub(dThxIp, dThxIm), dx), Div(Sub(dThyJp, dThyJm), dyv));
      Mul(Div(Some(ah), hden[j][i]), Sub(div1, div2))
  }

  /** DIFF on the whole grid: NaN on every edge cell. */
  function DiffField(tm: Field, h0: Field, dT: Field, hden: Field, dxRow: seq<real>, dy: real, ah: real,
                     ny: nat, nx: nat): (d: Field)
    requires IsField(tm, ny, nx) && IsField(h0, ny, nx) && IsField(dT, ny, nx) && IsField(hden, ny, nx)
    requires |dxRow| == ny
    ensures IsField(d, ny, nx)
    ensures forall j, i :: 0 <= j < ny && 0 <= i < nx && !(0 < j < ny - 1 && 0 < i < nx - 1) ==> d[j][i].None?
    ensures forall j, i :: 0 < j < ny - 1 && 0 < i < nx - 1 ==>
              d[j][i] == DiffCell(tm, h0, dT, hden, dxRow[j], dy, ah, ny, nx, j, i)
  {
    seq(ny, j requires 0 <= j < ny =>
      seq(nx, i requires 0 <= i < nx =>
        if 0 < j < ny - 1 && 0 < i < nx - 1 then DiffCell(tm, h0, dT, hden, dxRow[j], dy, ah, ny, nx, j, i)
        else None))
  }

  /** The DIFF loop: starts from a NaN grid and fills the interior cells where
      `Tm` and `H0` are finite. */
  method Diffusion(tm: Field, h0: Field, dT: Field, hden: Field, dxRow: seq<real>, dy: real, ah: real,
                   ny: nat, nx: nat) returns (diff: array2<Val>)
    requires IsField(tm, ny, nx) && IsField(h0, ny, nx) && IsField(dT, ny, nx) && IsField(hden, ny, nx)
    requires |dxRow| == ny
    ensures fresh(diff) && diff.Length0 == ny && diff.Length1 == nx
    ensures forall j, i :: 0 <= j < ny && 0 <= i < nx ==>
              diff[j, i] == DiffField(tm, h0, dT, hden, dxRow, dy, ah, ny, nx)[j][i]
  {
    diff := new Val[ny, nx]((j, i) => None);
    for j := 1 to if ny >= 2 then ny - 1 else 1
      invariant forall j', i :: 0 <= j' < ny && 0 <= i < nx ==>
                  diff[j', i] == if 0 < j' < j && 0 < i < nx - 1 then DiffCell(tm, h0, dT, hden, dxRow[j'], dy, ah, ny, nx, j', i) else None
    {
      var dxj := dxRow[j];
      for i := 1 to if nx >= 2 then nx - 1 else 1
        invariant forall j', i' :: 0 <= j' < ny && 0 <= i' < nx ==>
                    diff[j', i'] == if (0 < j' < j || (j' == j && i' < i)) && 0 < i' < nx - 1
                                    then DiffCell(tm, h0, dT, hden, dxRow[j'], dy, ah, ny, nx, j', i') else None
      {
        if !(tm[j][i].Some? && h0[j][i].Some?) {
          continue;
        }
        diff[j, i] := DiffCell(tm, h0, dT, hden, dxj, dy, ah, ny, nx, j, i);
      }
    }
  }

  /** Uniform fields have no lateral diffusion: with constant `Tm`, `H0` and
      `dT` and finite, non-zero spacings and denominator, every interior DIFF
      cell is 0. */
  lemma UniformFieldsDoNotDiffuse(tm: Field, h0: Field, dT: Field, hden: Field, dxRow: seq<real>, dy: real, ah: real,
                                  ny: nat, nx: nat, c: real, h: real, d: real)
    requires IsField(tm, ny, nx) && IsField(h0, ny, nx) && IsField(dT, ny, nx) && IsField(hden, ny, nx)
    requires |dxRow| == ny && dy != 0.0
    requires forall j, i :: 0 <= j < ny && 0 <= i < nx ==>
               tm[j][i] == Some(c) && h0[j][i] == Some(h) && dT[j][i] == Some(d) &&
               hden[j][i].Some? && hden[j][i].value != 0.0
    requires forall j :: 0 <= j < ny ==> dxRow[j] != 0.0
    ensures forall j, i :: 0 < j < ny - 1 && 0 < i < nx - 1 ==>
              DiffField(tm, h0, dT, hden, dxRow, dy, ah, ny, nx)[j][i] == Some(0.0)
  {
    forall j, i | 0 < j < ny - 1 && 0 < i < nx - 1
      ensures DiffField(tm, h0, dT, hden, dxRow, dy, ah, ny, nx)[j][i] == Some(0.0)
    {
      assert tm[j][i] == Some(c) && tm[j][i + 1] == Some(c) && tm[j][i - 1] == Some(c);
      assert tm[j + 1][i] == Some(c) && tm[j - 1][i] == Some(c);
      assert h0[j][i] == Some(h) && h0[j][i + 1] == Some(h) && h0[j][i - 1] == Some(h);
      assert h0[j + 1][i] == Some(h) && h0[j - 1][i] == Some(h);
      assert dT[j][i] == Some(d) && dT[j][i + 1] == Some(d) && dT[j + 1][i] == Some(d);
      var r := DiffCell(tm, h0, dT, hden, dxRow[j], dy, ah, ny, nx, j, i);
      assert r.Some? && r.value == (ah / hden[j][i].value) * 0.0;
    }
  }

  /** DIFFV: `-(kv * TzH) / hden`. */
  function VerticalDiffusion(kv: real, tz: Val, hden: Val): (r: Val)
    ensures r.Some? <==> tz.Some? && hden.Some? && hden.value != 0.0
    ensures r.Some? ==> r.value * hden.value == -(kv * tz.value)
  {
    Div(Neg(Mul(Some(kv), tz)), hden)
  }

  // ------------------------------------------------------ tendencies, closure

  /** A finite-difference tendency `(now - before) / span`. */
  function Tendency(now: Val, before: Val, span: real): (r: Val)
    ensures r.Some? <==> now.Some? && before.Some? && span != 0.0
    ensures r.Some? ==> r.value * span == now.value - before.value
  {
    Div(Sub(now, before), Some(span))
  }

  /** The centred tendency is formed from the next day and the day three
      steps back, over two days: a steady warming of `s` per second therefore
      shows as `1.5 s`. */
  lemma CentredTendencyOfSteadyWarming(a: real, s: real)
    ensures Tendency(Some(a + 3.0 * s * Dt), Some(a), 2.0 * Dt) == Some(1.5 * s)
  {
    var r := Tendency(Some(a + 3.0 * s * Dt), Some(a), 2.0 * Dt);
    assert r.value * (2.0 * Dt) == 3.0 * s * Dt;
    assert r.value == 1.5 * s;
  }

  /** RHS: the sum of the five budget terms. */
  function Rhs(qnet: Val, adv: Val, ent: Val, diff: Val, diffv: Val): (r: Val)
    ensures r.Some? <==> qnet.Some? && adv.Some? && ent.Some? && diff.Some? && diffv.Some?
    ensures r.Some? ==> r.value == qnet.value + adv.value + ent.value + diff.value + diffv.value
  {
    Add(Add(Add(Add(qnet, adv), ent), diff), diffv)
  }

  /** CLOS: the budget residual, so that TEN = RHS + CLOS wherever it is finite. */
  function Closure(ten: Val, rhs: Val): (r: Val)
    ensures r.Some? <==> ten.Some? && rhs.Some?
    ensures r.Some? ==> rhs.value + r.value == ten.value
  {
    Sub(ten, rhs)
  }
}
