/**
 * `cal_HCl_added` (the forward problem: acid needed for a buffer at a pH)
 * and the acid already present before titration that `predict_initial_pH`
 * computes from a media condition.
 */
module AcidDose {
  import opened Wrappers
  import opened Kwargs
  import opened ParameterResolver
  import opened ConditionParser
  import opened Equilibrium

  /** The result of `cal_HCl_added`, with the parameter table when `return_paras` is set. */
  datatype HClAdded = Dose(out: real) | DoseWithParas(out: real, paras: Paras)

  function ConcentrationsOf(p: Paras): Concentrations
  {
    Concentrations(p.HPO4, p.H2PO4, p.Tris, p.NH4)
  }

  /** The dissociation constants 10^(-pKa) of the table, `pow10` standing for x |-> 10^x. */
  function ConstantsOf(p: Paras, pow10: real -> real): Constants
  {
    Constants(pow10(-p.pKaH2PO4), pow10(-p.pKaTrisH), pow10(-p.pKaNH4))
  }

  ghost predicate PositivePowers(pow10: real -> real)
  {
    forall x :: pow10(x) > 0.0
  }

  ghost predicate IncreasingPowers(pow10: real -> real)
  {
    forall x, y :: x < y ==> pow10(x) < pow10(y)
  }

  /**
   * `cal_HCl_added(return_paras, **kwargs)`: resolve the parameters, then
   * evaluate the charge balance at H = 10^(-pH). It fails like `get_paras`,
   * and when no pH was given.
   */
  function CalHClAdded(kwargs: seq<Entry>, pow10: real -> real, returnParas: bool): (r: Result<HClAdded, Error>)
    requires PositivePowers(pow10)
    ensures Resolve(kwargs).Failure? ==> r == Failure(Resolve(kwargs).error)
    ensures Resolve(kwargs).Success? ==> (r.Failure? <==> !HasKey(kwargs, "pH"))
    ensures r.Failure? && Resolve(kwargs).Success? ==> r.error == MissingPH
    ensures r.Success? ==> (r.value.DoseWithParas? <==> returnParas)
    ensures r.Success? && returnParas ==> r.value.paras == Resolve(kwargs).value
  {
    match Resolve(kwargs)
    case Failure(e) => Failure(e)
    case Success(p) =>
      if p.pH.None? then Failure(MissingPH)
      else
        var h := pow10(-AsReal(p.pH.value));
        var out := ChargeBalance(ConcentrationsOf(p), ConstantsOf(p, pow10), h);
        Success(if returnParas then DoseWithParas(out, p) else Dose(out))
  }

  /** With no buffer species, neutral water needs no acid at pH 7. */
  lemma CalHClAddedNeutral(pow10: real -> real)
    requires PositivePowers(pow10) && pow10(-7.0) == 1e-7
    ensures CalHClAdded([("pH", Num(7.0))], pow10, false) == Success(Dose(0.0))
  {
    var kw := [("pH", Num(7.0))];
    assert kw[..0] == [];
    assert Total(kw, "HPO4") == 0.0 && Total(kw, "H2PO4") == 0.0;
    assert Total(kw, "Tris") == 0.0 && Total(kw, "NH4") == 0.0;
    assert LastValue(kw, "pH") == Some(Num(7.0));
    NeutralWater();
  }

  /** Given a pH, the dose is the charge balance of the resolved buffer at H = 10^(-pH). */
  lemma CalHClAddedAtPH(kwargs: seq<Entry>, pH: real, pow10: real -> real)
    requires PositivePowers(pow10)
    requires Resolve(kwargs).Success?
    ensures var p := Resolve(kwargs).value;
      CalHClAdded(kwargs + [("pH", Num(pH))], pow10, false) ==
      Success(Dose(ChargeBalance(ConcentrationsOf(p), ConstantsOf(p, pow10), pow10(-pH))))
  {
    ResolvePH(kwargs, Num(pH));
  }

  /** `return_paras` only adds the table: the call succeeds alike, and the dose it pairs with the table is the same. */
  lemma CalHClAddedReturnParas(kwargs: seq<Entry>, pow10: real -> real)
    requires PositivePowers(pow10)
    ensures CalHClAdded(kwargs, pow10, true).Success? <==> CalHClAdded(kwargs, pow10, false).Success?
    ensures CalHClAdded(kwargs, pow10, true).Success? ==>
              CalHClAdded(kwargs, pow10, true).value.out == CalHClAdded(kwargs, pow10, false).value.out
  {
  }

  /**
   * Lowering the pH of the same medium always takes strictly more acid, so a
   * dose determines the pH: the inverse problem has at most one solution.
   */
  lemma CalHClAddedDecreasingInPH(kwargs: seq<Entry>, pH1: real, pH2: real, pow10: real -> real)
    requires PositivePowers(pow10) && IncreasingPowers(pow10)
    requires Resolve(kwargs).Success? && NonNegative(ConcentrationsOf(Resolve(kwargs).value))
    requires pH1 < pH2
    ensures CalHClAdded(kwargs + [("pH", Num(pH1))], pow10, false).Success?
    ensures CalHClAdded(kwargs + [("pH", Num(pH2))], pow10, false).Success?
    ensures CalHClAdded(kwargs + [("pH", Num(pH1))], pow10, false).value.out >
            CalHClAdded(kwargs + [("pH", Num(pH2))], pow10, false).value.out
  {
    var p := Resolve(kwargs).value;
    CalHClAddedAtPH(kwargs, pH1, pow10);
    CalHClAddedAtPH(kwargs, pH2, pow10);
    assert pow10(-pH2) < pow10(-pH1) by {
      assert -pH2 < -pH1;
    }
    ChargeBalanceIncreasing(ConcentrationsOf(p), ConstantsOf(p, pow10), pow10(-pH2), pow10(-pH1));
  }
}
