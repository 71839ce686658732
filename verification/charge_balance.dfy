/**
 * The charge-balance expression of `cal_HCl_added`: the strong acid (mol/L of
 * HCl) a phosphate / Tris / ammonium buffer needs to reach a given
 * hydrogen-ion activity, from the Henderson-Hasselbalch fractions of each
 * conjugate pair and the self-ionisation of water.
 */
module Equilibrium {

  /** Ion product of water. */
  const KH2O: real := 1e-14

  /** Total concentrations (mol/L) of the four titratable species. */
  datatype Concentrations = Concentrations(HPO4: real, H2PO4: real, Tris: real, NH4: real)

  /** Acid dissociation constants of the pairs H2PO4-/HPO4 2-, TrisH+/Tris and NH4+/NH3. */
  datatype Constants = Constants(kH2PO4: real, kTrisH: real, kNH4: real)

  predicate Positive(k: Constants)
  {
    k.kH2PO4 > 0.0 && k.kTrisH > 0.0 && k.kNH4 > 0.0
  }

  predicate NonNegative(c: Concentrations)
  {
    c.HPO4 >= 0.0 && c.H2PO4 >= 0.0 && c.Tris >= 0.0 && c.NH4 >= 0.0
  }

  const NoSpecies: Concentrations := Concentrations(0.0, 0.0, 0.0, 0.0)

  function Add(c: Concentrations, d: Concentrations): Concentrations
  {
    Concentrations(c.HPO4 + d.HPO4, c.H2PO4 + d.H2PO4, c.Tris + d.Tris, c.NH4 + d.NH4)
  }

  function Scale(t: real, c: Concentrations): Concentrations
  {
    Concentrations(t * c.HPO4, t * c.H2PO4, t * c.Tris, t * c.NH4)
  }

  /** The water term: hydrogen ions minus hydroxide ions. */
  function Water(h: real): real
    requires h > 0.0
  {
    h - KH2O / h
  }

  /** The net acid the buffer needs at hydrogen-ion activity `h`; without buffer species only water remains. */
  function ChargeBalance(c: Concentrations, k: Constants, h: real): (r: real)
    requires h > 0.0 && Positive(k)
    ensures c == NoSpecies ==> r == Water(h)
  {
    h / (k.kH2PO4 + h) * c.HPO4 - k.kH2PO4 / (h + k.kH2PO4) * c.H2PO4
    + h / (k.kTrisH + h) * c.Tris - k.kNH4 / (h + k.kNH4) * c.NH4
    + h - KH2O / h
  }

  /** Pure water is balanced at pH 7: the water term vanishes at h = 1e-7. */
  lemma NeutralWater()
    ensures Water(1e-7) == 0.0
  {
  }

  /** The two Henderson-Hasselbalch fractions of a pair lie strictly between 0 and 1 and add up to 1. */
  lemma Fractions(k: real, h: real)
    requires k > 0.0 && h > 0.0
    ensures 0.0 < h / (k + h) < 1.0
    ensures 0.0 < k / (h + k) < 1.0
    ensures h / (k + h) + k / (h + k) == 1.0
  {
    assert h / (k + h) + k / (h + k) == (h + k) / (h + k);
  }

  /**
   * The charge each species carries per mole at `h`: the protonated fraction
   * of the bases, minus the deprotonated fraction of the acids.
   */
  function Weights(k: Constants, h: real): Concentrations
    requires h > 0.0 && Positive(k)
  {
    Concentrations(h / (k.kH2PO4 + h), -(k.kH2PO4 / (h + k.kH2PO4)), h / (k.kTrisH + h), -(k.kNH4 / (h + k.kNH4)))
  }

  function Dot(w: Concentrations, c: Concentrations): real
  {
    w.HPO4 * c.HPO4 + w.H2PO4 * c.H2PO4 + w.Tris * c.Tris + w.NH4 * c.NH4
  }

  /** The charge balance is water plus the weighted sum of the concentrations. */
  lemma ChargeBalanceDot(c: Concentrations, k: Constants, h: real)
    requires h > 0.0 && Positive(k)
    ensures ChargeBalance(c, k, h) == Dot(Weights(k, h), c) + Water(h)
  {
  }

  lemma DotAdd(w: Concentrations, c: Concentrations, d: Concentrations)
    ensures Dot(w, Add(c, d)) == Dot(w, c) + Dot(w, d)
  {
  }

  lemma DotScale(w: Concentrations, t: real, c: Concentrations)
    ensures Dot(w, Scale(t, c)) == t * Dot(w, c)
  {
  }

  /** Each concentration enters linearly, with the fraction of its pair as coefficient. */
  lemma ChargeBalanceLinear(c: Concentrations, k: Constants, h: real, x: real)
    requires h > 0.0 && Positive(k)
    ensures ChargeBalance(c.(HPO4 := c.HPO4 + x), k, h) == ChargeBalance(c, k, h) + h / (k.kH2PO4 + h) * x
    ensures ChargeBalance(c.(H2PO4 := c.H2PO4 + x), k, h) == ChargeBalance(c, k, h) - k.kH2PO4 / (h + k.kH2PO4) * x
    ensures ChargeBalance(c.(Tris := c.Tris + x), k, h) == ChargeBalance(c, k, h) + h / (k.kTrisH + h) * x
    ensures ChargeBalance(c.(NH4 := c.NH4 + x), k, h) == ChargeBalance(c, k, h) - k.kNH4 / (h + k.kNH4) * x
  {
    var w := Weights(k, h);
    var a, b, t, n := Concentrations(x, 0.0, 0.0, 0.0), Concentrations(0.0, x, 0.0, 0.0),
                      Concentrations(0.0, 0.0, x, 0.0), Concentrations(0.0, 0.0, 0.0, x);
    assert c.(HPO4 := c.HPO4 + x) == Add(c, a);
    assert c.(H2PO4 := c.H2PO4 + x) == Add(c, b);
    assert c.(Tris := c.Tris + x) == Add(c, t);
    assert c.(NH4 := c.NH4 + x) == Add(c, n);
    ChargeBalanceShift(c, a, k, h);
    ChargeBalanceShift(c, b, k, h);
    ChargeBalanceShift(c, t, k, h);
    ChargeBalanceShift(c, n, k, h);
  }

  /** Adding concentrations `d` adds their weighted sum. */
  lemma ChargeBalanceShift(c: Concentrations, d: Concentrations, k: Constants, h: real)
    requires h > 0.0 && Positive(k)
    ensures ChargeBalance(Add(c, d), k, h) == ChargeBalance(c, k, h) + Dot(Weights(k, h), d)
  {
    ChargeBalanceDot(c, k, h);
    ChargeBalanceDot(Add(c, d), k, h);
    DotAdd(Weights(k, h), c, d);
  }

  /** Mixing two buffers needs the acid of each, the water counted once. */
  lemma ChargeBalanceAdditive(c: Concentrations, d: Concentrations, k: Constants, h: real)
    requires h > 0.0 && Positive(k)
    ensures ChargeBalance(Add(c, d), k, h) == ChargeBalance(c, k, h) + ChargeBalance(d, k, h) - Water(h)
  {
    ChargeBalanceDot(c, k, h);
    ChargeBalanceDot(d, k, h);
    ChargeBalanceDot(Add(c, d), k, h);
    DotAdd(Weights(k, h), c, d);
  }

  /** Scaling every concentration scales the buffer's share of the acid. */
  lemma ChargeBalanceScale(t: real, c: Concentrations, k: Constants, h: real)
    requires h > 0.0 && Positive(k)
    ensures ChargeBalance(Scale(t, c), k, h) - Water(h) == t * (ChargeBalance(c, k, h) - Water(h))
  {
    ChargeBalanceDot(c, k, h);
    ChargeBalanceDot(Scale(t, c), k, h);
    DotScale(Weights(k, h), t, c);
  }

  /** The buffer can take up at most its bases and give off at most its acids. */
  lemma ChargeBalanceBounds(c: Concentrations, k: Constants, h: real)
    requires h > 0.0 && Positive(k) && NonNegative(c)
    ensures Water(h) - c.H2PO4 - c.NH4 <= ChargeBalance(c, k, h) <= Water(h) + c.HPO4 + c.Tris
  {
    var w := Weights(k, h);
    Fractions(k.kH2PO4, h);
    Fractions(k.kTrisH, h);
    Fractions(k.kNH4, h);
    ChargeBalanceDot(c, k, h);
    DotBounds(w, c);
  }

  /** A fraction of a non-negative amount lies between nothing and all of it. */
  lemma FractionOf(f: real, x: real)
    requires 0.0 <= f <= 1.0 && x >= 0.0
    ensures 0.0 <= f * x <= x
  {
    MulMonotone(x, 0.0, f);
    MulMonotone(x, f, 1.0);
  }

  /** The same for a fraction counted negatively. */
  lemma NegFractionOf(f: real, x: real)
    requires -1.0 <= f <= 0.0 && x >= 0.0
    ensures -x <= f * x <= 0.0
  {
    MulMonotone(x, -1.0, f);
    MulMonotone(x, f, 0.0);
  }

  /** A weighted sum with base weights in [0, 1] and acid weights in [-1, 0]. */
  lemma DotBounds(w: Concentrations, c: Concentrations)
    requires NonNegative(c)
    requires 0.0 <= w.HPO4 <= 1.0 && 0.0 <= w.Tris <= 1.0
    requires -1.0 <= w.H2PO4 <= 0.0 && -1.0 <= w.NH4 <= 0.0
    ensures -c.H2PO4 - c.NH4 <= Dot(w, c) <= c.HPO4 + c.Tris
  {
    SumBounds(w.HPO4, w.H2PO4, w.Tris, w.NH4, c.HPO4, c.H2PO4, c.Tris, c.NH4);
  }

  lemma SumBounds(wa: real, wb: real, wt: real, wn: real, ca: real, cb: real, ct: real, cn: real)
    requires ca >= 0.0 && cb >= 0.0 && ct >= 0.0 && cn >= 0.0
    requires 0.0 <= wa <= 1.0 && 0.0 <= wt <= 1.0 && -1.0 <= wb <= 0.0 && -1.0 <= wn <= 0.0
    ensures -cb - cn <= wa * ca + wb * cb + wt * ct + wn * cn <= ca + ct
  {
    var a, b, t, n := wa * ca, wb * cb, wt * ct, wn * cn;
    FractionOf(wa, ca);
    NegFractionOf(wb, cb);
    FractionOf(wt, ct);
    NegFractionOf(wn, cn);
    assert 0.0 <= a <= ca;
    assert -cb <= b <= 0.0;
    assert 0.0 <= t <= ct;
    assert -cn <= n <= 0.0;
  }

  /** For fixed positive `a`, `a / x` falls as `x` grows. */
  lemma DivDecreasing(a: real, x: real, y: real)
    requires a > 0.0 && 0.0 < x < y
    ensures a / y < a / x
  {
    assert a / x * x == a;
    assert a / y * y == a;
  }

  /** Scaling by a non-negative amount keeps order. */
  lemma MulMonotone(c: real, a: real, b: real)
    requires c >= 0.0 && a <= b
    ensures a * c <= b * c
  {
  }

  /** The water term is strictly increasing in h. */
  lemma WaterIncreasing(h1: real, h2: real)
    requires 0.0 < h1 < h2
    ensures Water(h1) < Water(h2)
  {
    DivDecreasing(KH2O, h1, h2);
  }

  /** The protonated fraction h / (k + h) of a pair rises and the dissociated one falls as h grows. */
  lemma FractionsMonotone(k: real, h1: real, h2: real)
    requires k > 0.0 && 0.0 < h1 < h2
    ensures h1 / (k + h1) < h2 / (k + h2)
    ensures k / (h1 + k) > k / (h2 + k)
  {
    DivDecreasing(k, h1 + k, h2 + k);
    Fractions(k, h1);
    Fractions(k, h2);
  }

  /**
   * For a buffer with non-negative concentrations the required acid strictly
   * increases with the hydrogen-ion activity, that is, it falls as pH rises.
   */
  lemma ChargeBalanceIncreasing(c: Concentrations, k: Constants, h1: real, h2: real)
    requires Positive(k) && NonNegative(c)
    requires 0.0 < h1 < h2
    ensures ChargeBalance(c, k, h1) < ChargeBalance(c, k, h2)
  {
    var w1, w2 := Weights(k, h1), Weights(k, h2);
    FractionsMonotone(k.kH2PO4, h1, h2);
    FractionsMonotone(k.kTrisH, h1, h2);
    FractionsMonotone(k.kNH4, h1, h2);
    SumMonotone(w1.HPO4, w1.H2PO4, w1.Tris, w1.NH4, w2.HPO4, w2.H2PO4, w2.Tris, w2.NH4, c.HPO4, c.H2PO4, c.Tris, c.NH4);
    assert Dot(w1, c) <= Dot(w2, c);
    ChargeBalanceDot(c, k, h1);
    ChargeBalanceDot(c, k, h2);
    WaterIncreasing(h1, h2);
  }

  /** Raising every weight of a weighted sum of non-negative amounts does not lower it. */
  lemma SumMonotone(wa: real, wb: real, wt: real, wn: real, va: real, vb: real, vt: real, vn: real,
                    ca: real, cb: real, ct: real, cn: real)
    requires ca >= 0.0 && cb >= 0.0 && ct >= 0.0 && cn >= 0.0
    requires wa <= va && wb <= vb && wt <= vt && wn <= vn
    ensures wa * ca + wb * cb + wt * ct + wn * cn <= va * ca + vb * cb + vt * ct + vn * cn
  {
    MulMonotone(ca, wa, va);
    MulMonotone(cb, wb, vb);
    MulMonotone(ct, wt, vt);
    MulMonotone(cn, wn, vn);
  }

  /** Hence an acid dose fixes the hydrogen-ion activity: the inverse problem has at most one root. */
  lemma ChargeBalanceInjective(c: Concentrations, k: Constants, h1: real, h2: real)
    requires Positive(k) && NonNegative(c)
    requires h1 > 0.0 && h2 > 0.0
    requires ChargeBalance(c, k, h1) == ChargeBalance(c, k, h2)
    ensures h1 == h2
  {
    if h1 < h2 {
      ChargeBalanceIncreasing(c, k, h1, h2);
    } else if h2 < h1 {
      ChargeBalanceIncreasing(c, k, h2, h1);
    }
  }
}
