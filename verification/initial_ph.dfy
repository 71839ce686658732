/**
 * The acid already in a medium before titration, the first step of
 * `predict_initial_pH`: NaOH carried in by the sol C stock counts as negative
 * acid, and a Tris stock titrated with HCl brings its acid in proportion to
 * the Tris it contributes.
 */
module InitialPH {
  import opened Wrappers
  import opened Kwargs
  import opened ParameterResolver
  import opened ConditionParser
  import opened Equilibrium
  import opened AcidDose

  /** A media condition is given as a condition string or as a dictionary. */
  datatype MediaCond = Text(s: string) | Mapping(d: seq<Entry>)

  /** Molar acid equivalent of the NaOH that the sol C stock carries. */
  const SolCNaOH: real := -8e-5

  /** The pre-dose list indexed by `int(sol_C)`. */
  const SolCDoses: seq<real> := [0.0, SolCNaOH]

  /** Python's `int()` of a number: truncation toward zero. */
  function Truncate(x: real): (n: int)
    ensures x >= 0.0 ==> n as real <= x < n as real + 1.0
    ensures x < 0.0 ==> n as real - 1.0 < x <= n as real
  {
    if x >= 0.0 then x.Floor else -((-x).Floor)
  }

  /** `int(v)` of a condition value: the number it stands for, truncated toward zero. */
  function IntOf(v: Value): (n: int)
    ensures AsReal(v) >= 0.0 ==> n as real <= AsReal(v) < n as real + 1.0
    ensures AsReal(v) < 0.0 ==> n as real - 1.0 < AsReal(v) <= n as real
  {
    match v
    case Flag(b) => if b then 1 else 0
    case Num(x) => Truncate(x)
  }

  /** Python list indexing, where -1 is the last element; `None` is an IndexError. */
  function PyIndex(xs: seq<real>, i: int): (r: Option<real>)
    ensures r.Some? <==> -|xs| <= i < |xs|
    ensures r.Some? ==> r.value == xs[(i + |xs|) % |xs|]
  {
    if 0 <= i < |xs| then Some(xs[i])
    else if -|xs| <= i < 0 then Some(xs[|xs| + i])
    else None
  }

  /** A negative index names the same element as that index plus the length. */
  lemma PyIndexWrap(xs: seq<real>, i: int)
    requires -|xs| <= i < 0
    ensures PyIndex(xs, i) == PyIndex(xs, i + |xs|)
    ensures PyIndex(xs, i).Some?
  {
  }

  /** The condition as a dictionary, parsing it first when it is a string. */
  function CondDict(cond: MediaCond, parseFloat: string -> Option<real>): (r: Result<seq<Entry>, Error>)
    ensures r.Failure? ==> cond.Text? && (r.error.MalformedSegment? || r.error.NotANumber?)
  {
    match cond
    case Text(s) => ParseCondSpec(s, parseFloat)
    case Mapping(d) => Success(d)
  }

  /**
   * The acid in a Tris stock of concentration `conc` titrated to `stockPH`:
   * the value of `cal_HCl_added(Tris=conc, pH=stockPH)` (see
   * `StockDoseIsCalHClAdded`).
   */
  function StockDose(conc: real, stockPH: real, pow10: real -> real): (r: real)
    requires PositivePowers(pow10)
    ensures conc >= 0.0 ==> Water(pow10(-stockPH)) <= r <= Water(pow10(-stockPH)) + conc
  {
    var c := Concentrations(0.0, 0.0, conc, 0.0);
    if conc >= 0.0 then
      ChargeBalanceBounds(c, ConstantsOf(DefaultParas, pow10), pow10(-stockPH));
      ChargeBalance(c, ConstantsOf(DefaultParas, pow10), pow10(-stockPH))
    else
      ChargeBalance(c, ConstantsOf(DefaultParas, pow10), pow10(-stockPH))
  }

  /**
   * The HCl pre-dose of `predict_initial_pH` for a condition dictionary: the
   * sol C dose chosen by `int(sol_C)`, plus, when Tris is present, the
   * stock's acid scaled by the share of Tris. The stock parameters are
   * required only then.
   */
  function PreDose(d: seq<Entry>, stockConc: Option<real>, stockPH: Option<real>, pow10: real -> real): (r: Result<real, Error>)
    requires PositivePowers(pow10)
    ensures r.Success? ==> HasKey(d, "sol_C") && HasKey(d, "Tris")
    ensures !HasKey(d, "sol_C") ==> r == Failure(MissingKey("sol_C"))
  {
    match LastValue(d, "sol_C")
    case None => Failure(MissingKey("sol_C"))
    case Some(solC) =>
      match PyIndex(SolCDoses, IntOf(solC))
      case None => Failure(SolCIndexOutOfRange(IntOf(solC)))
      case Some(base) =>
        match LastValue(d, "Tris")
        case None => Failure(MissingKey("Tris"))
        case Some(tris) =>
          if AsReal(tris) <= 0.0 then Success(base)
          else if stockConc.None? || stockPH.None? then Failure(MissingTrisStock)
          else
            var stock := StockDose(stockConc.value, stockPH.value, pow10);
            if stockConc.value == 0.0 then Failure(ZeroTrisStock)
            else Success(base + stock * AsReal(tris) / stockConc.value)
  }

  /** `predict_initial_pH` up to the pre-dose: a condition string is parsed first, and its errors propagate. */
  function PreAddedHCl(cond: MediaCond, stockConc: Option<real>, stockPH: Option<real>,
                       parseFloat: string -> Option<real>, pow10: real -> real): (r: Result<real, Error>)
    requires PositivePowers(pow10)
    ensures r.Success? ==> var d := CondDict(cond, parseFloat);
      d.Success? && HasKey(d.value, "sol_C") && HasKey(d.value, "Tris")
    ensures cond.Mapping? && !HasKey(cond.d, "sol_C") ==> r == Failure(MissingKey("sol_C"))
  {
    match CondDict(cond, parseFloat)
    case Failure(e) => Failure(e)
    case Success(d) => PreDose(d, stockConc, stockPH, pow10)
  }

  /** The sol C pre-dose: none without sol C, the NaOH equivalent with it. */
  lemma SolCDose(b: bool)
    ensures PyIndex(SolCDoses, IntOf(Flag(b))) == Some(if b then SolCNaOH else 0.0)
  {
  }

  /** The stock's acid is what `cal_HCl_added` computes for the stock alone: Tris at its concentration and pH. */
  lemma StockDoseIsCalHClAdded(conc: real, stockPH: real, pow10: real -> real)
    requires PositivePowers(pow10)
    ensures CalHClAdded([("Tris", Num(conc)), ("pH", Num(stockPH))], pow10, false) ==
            Success(Dose(StockDose(conc, stockPH, pow10)))
  {
    var kw := [("Tris", Num(conc)), ("pH", Num(stockPH))];
    var first := [kw[0]];
    assert kw[..1] == first && first[..0] == [];
    assert Total(first, "Tris") == conc;
    assert Total(first, "HPO4") == 0.0 && Total(first, "H2PO4") == 0.0 && Total(first, "NH4") == 0.0;
    assert FirstUnrecognized(kw) == 2 by {
      assert Recognized(kw[0].0) && Recognized(kw[1].0);
    }
    assert LastValue(kw, "pH") == Some(Num(stockPH));
  }

  /** Without Tris the stock parameters play no part and may be absent. */
  lemma PreDoseWithoutTris(d: seq<Entry>, c1: Option<real>, p1: Option<real>, c2: Option<real>, p2: Option<real>,
                           pow10: real -> real)
    requires PositivePowers(pow10)
    requires LastValue(d, "Tris").Some? && AsReal(LastValue(d, "Tris").value) <= 0.0
    ensures PreDose(d, c1, p1, pow10) == PreDose(d, c2, p2, pow10)
    ensures LastValue(d, "sol_C").None? ==> PreDose(d, c1, p1, pow10) == Failure(MissingKey("sol_C"))
    ensures LastValue(d, "sol_C").Some? ==>
              (PreDose(d, c1, p1, pow10).Success? <==> PyIndex(SolCDoses, IntOf(LastValue(d, "sol_C").value)).Some?)
    ensures PreDose(d, c1, p1, pow10).Success? ==>
              PreDose(d, c1, p1, pow10).value == PyIndex(SolCDoses, IntOf(LastValue(d, "sol_C").value)).value
  {
  }

  /** With Tris present, both stock parameters are required, and a stock of concentration 0 divides by zero. */
  lemma PreDoseTrisNeedsStock(d: seq<Entry>, stockConc: Option<real>, stockPH: Option<real>, pow10: real -> real)
    requires PositivePowers(pow10)
    requires LastValue(d, "sol_C").Some? && PyIndex(SolCDoses, IntOf(LastValue(d, "sol_C").value)).Some?
    requires LastValue(d, "Tris").Some? && AsReal(LastValue(d, "Tris").value) > 0.0
    ensures PreDose(d, stockConc, stockPH, pow10).Failure? <==>
            stockConc.None? || stockPH.None? || stockConc == Some(0.0)
    ensures stockConc.None? || stockPH.None? ==> PreDose(d, stockConc, stockPH, pow10) == Failure(MissingTrisStock)
  {
  }

  /**
   * The pre-dose with Tris: the sol C dose plus the stock's acid (see
   * `StockDoseIsCalHClAdded`) scaled by Tris over the stock concentration.
   */
  lemma PreDoseWithTris(d: seq<Entry>, conc: real, stockPH: real, pow10: real -> real)
    requires PositivePowers(pow10)
    requires LastValue(d, "sol_C").Some? && PyIndex(SolCDoses, IntOf(LastValue(d, "sol_C").value)).Some?
    requires LastValue(d, "Tris").Some? && AsReal(LastValue(d, "Tris").value) > 0.0
    requires conc != 0.0
    ensures PreDose(d, Some(conc), Some(stockPH), pow10).Success?
    ensures PreDose(d, Some(conc), Some(stockPH), pow10).value ==
            PyIndex(SolCDoses, IntOf(LastValue(d, "sol_C").value)).value +
            StockDose(conc, stockPH, pow10) * AsReal(LastValue(d, "Tris").value) / conc
  {
  }

  /** A Tris stock titrated to a lower pH holds strictly more acid. */
  lemma StockDoseDecreasing(conc: real, pH1: real, pH2: real, pow10: real -> real)
    requires PositivePowers(pow10) && IncreasingPowers(pow10)
    requires conc >= 0.0 && pH1 < pH2
    ensures StockDose(conc, pH1, pow10) > StockDose(conc, pH2, pow10)
  {
    var c := Concentrations(0.0, 0.0, conc, 0.0);
    var k := ConstantsOf(DefaultParas, pow10);
    assert -pH2 < -pH1;
    ChargeBalanceIncreasing(c, k, pow10(-pH2), pow10(-pH1));
  }

  /** A more acidic Tris stock leaves strictly more acid in the medium. */
  lemma PreDoseDecreasingInStockPH(d: seq<Entry>, conc: real, pH1: real, pH2: real, pow10: real -> real)
    requires PositivePowers(pow10) && IncreasingPowers(pow10)
    requires LastValue(d, "sol_C").Some? && PyIndex(SolCDoses, IntOf(LastValue(d, "sol_C").value)).Some?
    requires LastValue(d, "Tris").Some? && AsReal(LastValue(d, "Tris").value) > 0.0
    requires conc > 0.0 && pH1 < pH2
    ensures PreDose(d, Some(conc), Some(pH1), pow10).Success?
    ensures PreDose(d, Some(conc), Some(pH2), pow10).Success?
    ensures PreDose(d, Some(conc), Some(pH1), pow10).value > PreDose(d, Some(conc), Some(pH2), pow10).value
  {
    var tris := AsReal(LastValue(d, "Tris").value);
    var s1 := StockDose(conc, pH1, pow10);
    var s2 := StockDose(conc, pH2, pow10);
    PreDoseWithTris(d, conc, pH1, pow10);
    PreDoseWithTris(d, conc, pH2, pow10);
    StockDoseDecreasing(conc, pH1, pH2, pow10);
    ScaleIncreasing(s2, s1, tris, conc);
    var base := PyIndex(SolCDoses, IntOf(LastValue(d, "sol_C").value)).value;
    assert PreDose(d, Some(conc), Some(pH1), pow10).value == base + s1 * tris / conc;
    assert PreDose(d, Some(conc), Some(pH2), pow10).value == base + s2 * tris / conc;
  }

  lemma ScaleIncreasing(a: real, b: real, t: real, c: real)
    requires a < b && t > 0.0 && c > 0.0
    ensures a * t / c < b * t / c
  {
    assert a * t < b * t;
  }

  /** A medium with sol C and no Tris holds exactly the NaOH of the sol C stock. */
  lemma PreAddedSolCOnly(stockConc: Option<real>, stockPH: Option<real>,
                         parseFloat: string -> Option<real>, pow10: real -> real)
    requires PositivePowers(pow10)
    ensures PreAddedHCl(Mapping([("sol_C", Flag(true)), ("Tris", Num(0.0))]), stockConc, stockPH, parseFloat, pow10) ==
            Success(SolCNaOH)
  {
    var d := [("sol_C", Flag(true)), ("Tris", Num(0.0))];
    assert LastValue(d, "sol_C") == Some(Flag(true));
    assert LastValue(d, "Tris") == Some(Num(0.0));
  }

  /**
   * The example condition string carries 5 mM Tris, so predicting from it
   * without a Tris stock is refused.
   */
  lemma PreAddedHClExampleNeedsStock(s: string, parseFloat: string -> Option<real>, pow10: real -> real)
    requires PositivePowers(pow10)
    requires s == "sol_C=False;Tris=5;C=10;NH4=0.85;P_mix=4"
    requires parseFloat("5") == Some(5.0) && parseFloat("10") == Some(10.0)
    requires parseFloat("0.85") == Some(0.85) && parseFloat("4") == Some(4.0)
    ensures PreAddedHCl(Text(s), None, None, parseFloat, pow10) == Failure(MissingTrisStock)
  {
    ParseCondExample(s, parseFloat);
    var d := ParseCondSpec(s, parseFloat).value;
    assert LastValue(d, "sol_C") == Some(Flag(false));
    assert LastValue(d, "Tris") == Some(Num(5e-3));
  }

  /**
   * A condition may be given as a string or as a dictionary: a string that
   * parses predicts the same pre-dose as the dictionary it parses to, and
   * one that does not fails with the parse error, a malformed segment or a
   * token that is not a number.
   */
  lemma PreAddedHClStringOrMapping(s: string, stockConc: Option<real>, stockPH: Option<real>,
                                   parseFloat: string -> Option<real>, pow10: real -> real)
    requires PositivePowers(pow10)
    ensures ParseCondSpec(s, parseFloat).Success? ==>
              PreAddedHCl(Text(s), stockConc, stockPH, parseFloat, pow10) ==
              PreAddedHCl(Mapping(ParseCondSpec(s, parseFloat).value), stockConc, stockPH, parseFloat, pow10)
    ensures ParseCondSpec(s, parseFloat).Failure? ==>
              PreAddedHCl(Text(s), stockConc, stockPH, parseFloat, pow10) == Failure(ParseCondSpec(s, parseFloat).error) &&
              (ParseCondSpec(s, parseFloat).error.MalformedSegment? || ParseCondSpec(s, parseFloat).error.NotANumber?)
  {
  }
}
