/**
 * The parameter resolver `get_paras`: it copies the default parameter table
 * and folds keyword overrides into it, each recognised key with its own merge
 * rule, and rejects every key outside a fixed vocabulary.
 */
module ParameterResolver {
  import opened Wrappers
  import opened Kwargs

  /** The parameter table: dissociation constants, total concentrations (molar) and pH. */
  datatype Paras = Paras(
    pKaH2PO4: real, pKaTrisH: real, pKaNH4: real,
    HPO4: real, H2PO4: real, Tris: real, NH4: real,
    pH: Option<Value>,
    pKaCO2Step1: real, pKaCO2Step2: real)

  /** The default table: fixed pKa constants, no buffer species, pH unset. */
  const DefaultParas: Paras :=
    Paras(7.21, 8.07, 9.25, 0.0, 0.0, 0.0, 0.0, None, 6.351, 10.329)

  /** Phosphate (molar) that solution C adds: 0.5 mL of 0.1 M H2PO4 per 500 mL of medium. */
  const SolCPhosphate: real := 1e-4

  /** Keys whose value accumulates onto the concentration of the same name. */
  const SpeciesKeys: set<string> := {"HPO4", "H2PO4", "Tris", "NH4"}

  /** The closed vocabulary of overrides. */
  const RecognizedKeys: set<string> := SpeciesKeys + {"sol_C", "P_mix", "pH", "C"}

  predicate Recognized(key: string)
  {
    key in RecognizedKeys
  }

  /** The pKa entries are those of the default table. */
  predicate DefaultConstants(p: Paras)
  {
    && p.pKaH2PO4 == DefaultParas.pKaH2PO4
    && p.pKaTrisH == DefaultParas.pKaTrisH
    && p.pKaNH4 == DefaultParas.pKaNH4
    && p.pKaCO2Step1 == DefaultParas.pKaCO2Step1
    && p.pKaCO2Step2 == DefaultParas.pKaCO2Step2
  }

  /** `paras[species] += x` */
  function AddTo(p: Paras, species: string, x: real): Paras
    requires species in SpeciesKeys
  {
    if species == "HPO4" then p.(HPO4 := p.HPO4 + x)
    else if species == "H2PO4" then p.(H2PO4 := p.H2PO4 + x)
    else if species == "Tris" then p.(Tris := p.Tris + x)
    else p.(NH4 := p.NH4 + x)
  }

  /** What one override adds to the concentration of `species`. */
  function Contribution(species: string, e: Entry): real
  {
    var (key, value) := e;
    if key == "sol_C" then
      (if species == "H2PO4" && Truthy(value) then SolCPhosphate else 0.0)
    else if key == "P_mix" then
      (if species == "HPO4" || species == "H2PO4" then AsReal(value) / 2.0 else 0.0)
    else if key in SpeciesKeys && key == species then AsReal(value)
    else 0.0
  }

  /** The sum of the contributions of all overrides to `species`. */
  function Total(kwargs: seq<Entry>, species: string): real
  {
    if kwargs == [] then 0.0
    else Total(kwargs[..|kwargs| - 1], species) + Contribution(species, kwargs[|kwargs| - 1])
  }

  /**
   * An override touches only what its key names: nothing outside the four
   * species, no species other than its own, and nothing at all for a key
   * outside the vocabulary.
   */
  lemma ContributionVanishes(species: string, e: Entry)
    ensures species !in SpeciesKeys ==> Contribution(species, e) == 0.0
    ensures e.0 in SpeciesKeys && e.0 != species ==> Contribution(species, e) == 0.0
    ensures !Recognized(e.0) ==> Contribution(species, e) == 0.0
  {
  }

  /** Only the four species accumulate anything. */
  lemma {:induction false} TotalVanishes(kwargs: seq<Entry>, species: string)
    requires species !in SpeciesKeys
    ensures Total(kwargs, species) == 0.0
  {
    if kwargs != [] {
      TotalVanishes(kwargs[..|kwargs| - 1], species);
      ContributionVanishes(species, kwargs[|kwargs| - 1]);
    }
  }

  /** The table once every override is merged: defaults plus totals, and the last pH given. */
  function Merged(kwargs: seq<Entry>): (p: Paras)
    ensures DefaultConstants(p)
    ensures p.pH == LastValue(kwargs, "pH")
  {
    DefaultParas.(
      HPO4 := DefaultParas.HPO4 + Total(kwargs, "HPO4"),
      H2PO4 := DefaultParas.H2PO4 + Total(kwargs, "H2PO4"),
      Tris := DefaultParas.Tris + Total(kwargs, "Tris"),
      NH4 := DefaultParas.NH4 + Total(kwargs, "NH4"),
      pH := if HasKey(kwargs, "pH") then LastValue(kwargs, "pH") else DefaultParas.pH)
  }

  /** The position of the first unrecognised key, or |kwargs| when there is none. */
  function FirstUnrecognized(kwargs: seq<Entry>): (i: nat)
    ensures i <= |kwargs|
    ensures forall j :: 0 <= j < i ==> Recognized(kwargs[j].0)
    ensures i < |kwargs| ==> !Recognized(kwargs[i].0)
  {
    if kwargs == [] || !Recognized(kwargs[0].0) then 0
    else 1 + FirstUnrecognized(kwargs[1..])
  }

  /** The loop raises at the first unrecognised key. */
  lemma FirstUnrecognizedAt(kwargs: seq<Entry>, i: nat)
    requires i < |kwargs| && !Recognized(kwargs[i].0)
    requires forall j :: 0 <= j < i ==> Recognized(kwargs[j].0)
    ensures FirstUnrecognized(kwargs) == i
  {
  }

  /**
   * What `get_paras(**kwargs)` returns: the merged table when every key is
   * recognised, otherwise the error for the first unrecognised key.
   */
  function Resolve(kwargs: seq<Entry>): (r: Result<Paras, Error>)
    ensures r.Success? <==> forall j :: 0 <= j < |kwargs| ==> Recognized(kwargs[j].0)
    ensures r.Failure? ==>
      r.error.Unsupported? && !Recognized(r.error.key) && (r.error.key, r.error.value) in kwargs
    ensures r.Success? ==> DefaultConstants(r.value)
    ensures r.Success? ==> r.value.pH == LastValue(kwargs, "pH")
  {
    var i := FirstUnrecognized(kwargs);
    if i < |kwargs| then Failure(Unsupported(kwargs[i].0, kwargs[i].1))
    else Success(Merged(kwargs))
  }

  /** One more override changes the merged table by exactly its own contribution. */
  lemma MergedSnoc(kwargs: seq<Entry>, e: Entry)
    ensures Merged(kwargs + [e]) == Merged(kwargs).(
      HPO4 := Merged(kwargs).HPO4 + Contribution("HPO4", e),
      H2PO4 := Merged(kwargs).H2PO4 + Contribution("H2PO4", e),
      Tris := Merged(kwargs).Tris + Contribution("Tris", e),
      NH4 := Merged(kwargs).NH4 + Contribution("NH4", e),
      pH := if e.0 == "pH" then Some(e.1) else Merged(kwargs).pH)
  {
    assert (kwargs + [e])[..|kwargs|] == kwargs;
    LastValueSnoc(kwargs, e, "pH");
  }

  /** `get_paras`: copy the defaults, then merge the overrides one by one. */
  method GetParas(kwargs: seq<Entry>) returns (r: Result<Paras, Error>)
    ensures r == Resolve(kwargs)
  {
    var paras := DefaultParas;
    KeysDistinct();
    for i := 0 to |kwargs|
      invariant forall j :: 0 <= j < i ==> Recognized(kwargs[j].0)
      invariant paras == Merged(kwargs[..i])
    {
      var (key, value) := kwargs[i];
      assert kwargs[..i + 1] == kwargs[..i] + [kwargs[i]];
      if key == "sol_C" {
        MergedSnoc(kwargs[..i], kwargs[i]);
        if Truthy(value) {
          paras := paras.(H2PO4 := paras.H2PO4 + SolCPhosphate);
        }
      } else if key == "P_mix" {
        MergedPMix(kwargs[..i], value);
        paras := paras.(H2PO4 := paras.H2PO4 + AsReal(value) / 2.0);
        paras := paras.(HPO4 := paras.HPO4 + AsReal(value) / 2.0);
      } else if key == "pH" {
        MergedSnoc(kwargs[..i], kwargs[i]);
        paras := paras.(pH := Some(value));
      } else if key in SpeciesKeys {
        MergedSpecies(kwargs[..i], key, value);
        paras := AddTo(paras, key, AsReal(value));
      } else if key != "C" {
        FirstUnrecognizedAt(kwargs, i);
        return Failure(Unsupported(key, value));
      } else {
        MergedSnoc(kwargs[..i], kwargs[i]);
      }
    }
    assert kwargs[..|kwargs|] == kwargs;
    return Success(paras);
  }

  /** A recognised key keeps a successful call successful, with the override merged in. */
  lemma ResolveSnoc(kwargs: seq<Entry>, e: Entry)
    requires Resolve(kwargs).Success?
    requires Recognized(e.0)
    ensures Resolve(kwargs + [e]) == Success(Merged(kwargs + [e]))
  {
    var kw := kwargs + [e];
    assert forall j :: 0 <= j < |kw| ==> Recognized(kw[j].0) by {
      forall j | 0 <= j < |kw| ensures Recognized(kw[j].0) {
        if j < |kwargs| {
          assert kw[j] == kwargs[j];
        }
      }
    }
    assert FirstUnrecognized(kw) == |kw|;
  }

  /** A truthy `sol_C` adds exactly the solution-C phosphate to H2PO4; a falsy one changes nothing. */
  lemma ResolveSolC(kwargs: seq<Entry>, v: Value)
    requires Resolve(kwargs).Success?
    ensures Resolve(kwargs + [("sol_C", v)]) ==
      var p := Resolve(kwargs).value;
      Success(if Truthy(v) then p.(H2PO4 := p.H2PO4 + SolCPhosphate) else p)
  {
    ResolveSnoc(kwargs, ("sol_C", v));
    MergedSnoc(kwargs, ("sol_C", v));
  }

  /** `P_mix = x` adds x/2 to both phosphate species and nothing else. */
  lemma ResolvePMix(kwargs: seq<Entry>, v: Value)
    requires Resolve(kwargs).Success?
    ensures Resolve(kwargs + [("P_mix", v)]) ==
      var p := Resolve(kwargs).value;
      Success(p.(HPO4 := p.HPO4 + AsReal(v) / 2.0, H2PO4 := p.H2PO4 + AsReal(v) / 2.0))
  {
    ResolveSnoc(kwargs, ("P_mix", v));
    MergedPMix(kwargs, v);
  }

  lemma MergedPMix(kwargs: seq<Entry>, v: Value)
    ensures var p := Merged(kwargs);
      Merged(kwargs + [("P_mix", v)]) == p.(HPO4 := p.HPO4 + AsReal(v) / 2.0, H2PO4 := p.H2PO4 + AsReal(v) / 2.0)
  {
    var e := ("P_mix", v);
    MergedSnoc(kwargs, e);
    KeysDistinct();
  }

  /** The recognised keys are distinct strings. */
  lemma KeysDistinct()
    ensures "HPO4" != "H2PO4" && "HPO4" != "Tris" && "HPO4" != "NH4"
    ensures "H2PO4" != "Tris" && "H2PO4" != "NH4" && "Tris" != "NH4"
    ensures "sol_C" != "P_mix" && "sol_C" != "pH" && "sol_C" != "C" && "P_mix" != "pH" && "P_mix" != "C" && "pH" != "C"
    ensures "sol_C" != "HPO4" && "sol_C" != "H2PO4" && "sol_C" != "Tris" && "sol_C" != "NH4"
    ensures "P_mix" != "HPO4" && "P_mix" != "H2PO4" && "P_mix" != "Tris" && "P_mix" != "NH4"
    ensures "pH" != "HPO4" && "pH" != "H2PO4" && "pH" != "Tris" && "pH" != "NH4"
    ensures "C" != "HPO4" && "C" != "H2PO4" && "C" != "Tris" && "C" != "NH4"
  {
    assert "HPO4"[0] == 'H' && "H2PO4"[0] == 'H' && "Tris"[0] == 'T' && "NH4"[0] == 'N';
    assert "sol_C"[0] == 's' && "P_mix"[0] == 'P' && "pH"[0] == 'p' && "C"[0] == 'C';
    assert |"HPO4"| == 4 && |"H2PO4"| == 5;
  }

  /** A species key adds its value to that species only. */
  lemma ResolveSpecies(kwargs: seq<Entry>, species: string, v: Value)
    requires Resolve(kwargs).Success?
    requires species in SpeciesKeys
    ensures Resolve(kwargs + [(species, v)]) ==
      Success(AddTo(Resolve(kwargs).value, species, AsReal(v)))
  {
    ResolveSnoc(kwargs, (species, v));
    MergedSpecies(kwargs, species, v);
  }

  lemma MergedSpecies(kwargs: seq<Entry>, species: string, v: Value)
    requires species in SpeciesKeys
    ensures Merged(kwargs + [(species, v)]) == AddTo(Merged(kwargs), species, AsReal(v))
  {
    var e := (species, v);
    MergedSnoc(kwargs, e);
    KeysDistinct();
    ContributionVanishes("HPO4", e);
    ContributionVanishes("H2PO4", e);
    ContributionVanishes("Tris", e);
    ContributionVanishes("NH4", e);
    assert Contribution(species, e) == AsReal(v);
  }

  /** `pH` is stored as given, replacing any earlier value. */
  lemma ResolvePH(kwargs: seq<Entry>, v: Value)
    requires Resolve(kwargs).Success?
    ensures Resolve(kwargs + [("pH", v)]) == Success(Resolve(kwargs).value.(pH := Some(v)))
  {
    MergedSnoc(kwargs, ("pH", v));
  }

  /** `C` is accepted and changes nothing. */
  lemma ResolveIgnoresC(kwargs: seq<Entry>, v: Value)
    requires Resolve(kwargs).Success?
    ensures Resolve(kwargs + [("C", v)]) == Resolve(kwargs)
  {
    MergedSnoc(kwargs, ("C", v));
  }

  /** A key outside the vocabulary makes the call fail, naming that key and its value. */
  lemma ResolveRejects(kwargs: seq<Entry>, key: string, v: Value)
    requires Resolve(kwargs).Success?
    requires !Recognized(key)
    ensures Resolve(kwargs + [(key, v)]) == Failure(Unsupported(key, v))
  {
    var kw := kwargs + [(key, v)];
    assert forall j :: 0 <= j < |kwargs| ==> kw[j] == kwargs[j];
    assert !Recognized(kw[|kwargs|].0);
  }

  /** The pKa constants cannot be overridden: naming one is an unsupported key. */
  lemma PKaOverrideRejected(kwargs: seq<Entry>, i: nat)
    requires i < |kwargs|
    requires kwargs[i].0 in {"pKa_H2PO4", "pKa_TrisH", "pKa_NH4", "pKa_CO2_1", "pKa_CO2_2"}
    ensures Resolve(kwargs).Failure?
  {
  }

  lemma {:induction false} TotalAppend(a: seq<Entry>, b: seq<Entry>, species: string)
    ensures Total(a + b, species) == Total(a, species) + Total(b, species)
    decreases |b|
  {
    if b == [] {
      assert a + b == a;
    } else {
      var b' := b[..|b| - 1];
      assert (a + b)[..|a + b| - 1] == a + b';
      TotalAppend(a, b', species);
    }
  }

  /** Taking one override out of the middle takes away exactly its contribution. */
  lemma TotalRemove(b: seq<Entry>, j: nat, species: string)
    requires j < |b|
    ensures Total(b, species) == Total(b[..j] + b[j + 1..], species) + Contribution(species, b[j])
  {
    assert b == b[..j] + ([b[j]] + b[j + 1..]);
    TotalAppend(b[..j], [b[j]] + b[j + 1..], species);
    TotalAppend([b[j]], b[j + 1..], species);
    TotalAppend(b[..j], b[j + 1..], species);
    assert [b[j]][..0] == [];
  }

  /** Contributions add up, so the order of the overrides does not change a total. */
  lemma {:induction false} TotalPermutation(a: seq<Entry>, b: seq<Entry>, species: string)
    requires multiset(a) == multiset(b)
    ensures Total(a, species) == Total(b, species)
    decreases |a|
  {
    if a == [] {
      assert |b| == |multiset(b)| == 0;
    } else {
      var e := a[|a| - 1];
      assert e in multiset(b);
      var j :| 0 <= j < |b| && b[j] == e;
      MultisetRemove(a, |a| - 1);
      MultisetRemove(b, j);
      assert a[|a| - 1 + 1..] == [];
      assert a[..|a| - 1] + a[|a| - 1 + 1..] == a[..|a| - 1];
      TotalPermutation(a[..|a| - 1], b[..j] + b[j + 1..], species);
      TotalRemove(b, j, species);
    }
  }

  lemma MultisetRemove<T>(s: seq<T>, j: nat)
    requires j < |s|
    ensures multiset(s[..j] + s[j + 1..]) == multiset(s) - multiset{s[j]}
  {
    assert s == s[..j] + [s[j]] + s[j + 1..];
  }

  /**
   * The keyword arguments of a call form a dictionary, so their order is
   * immaterial: the call fails for one order exactly when it fails for
   * another, and otherwise returns the same table.
   */
  lemma ResolveOrderIndependent(a: seq<Entry>, b: seq<Entry>)
    requires multiset(a) == multiset(b)
    requires DistinctKeys(a) && DistinctKeys(b)
    ensures Resolve(a).Success? <==> Resolve(b).Success?
    ensures Resolve(a).Success? ==> Resolve(a) == Resolve(b)
  {
    assert forall x :: x in a <==> x in b by {
      forall x ensures x in a <==> x in b {
        assert x in a <==> x in multiset(a);
        assert x in b <==> x in multiset(b);
      }
    }
    assert (forall j :: 0 <= j < |a| ==> Recognized(a[j].0)) <==>
           (forall j :: 0 <= j < |b| ==> Recognized(b[j].0)) by {
      if forall j :: 0 <= j < |a| ==> Recognized(a[j].0) {
        forall j | 0 <= j < |b| ensures Recognized(b[j].0) {
          assert b[j] in a;
        }
      }
      if forall j :: 0 <= j < |b| ==> Recognized(b[j].0) {
        forall j | 0 <= j < |a| ensures Recognized(a[j].0) {
          assert a[j] in b;
        }
      }
    }
    TotalPermutation(a, b, "HPO4");
    TotalPermutation(a, b, "H2PO4");
    TotalPermutation(a, b, "Tris");
    TotalPermutation(a, b, "NH4");
    LastValuePermutation(a, b, "pH");
  }

  /** The keys whose value enters a concentration. */
  predicate Additive(key: string)
  {
    key in SpeciesKeys || key == "P_mix"
  }

  /** An override whose value enters a concentration non-negatively contributes nothing negative. */
  lemma ContributionNonNegative(species: string, e: Entry)
    requires Additive(e.0) ==> AsReal(e.1) >= 0.0
    ensures Contribution(species, e) >= 0.0
  {
  }

  lemma {:induction false} TotalNonNegative(kwargs: seq<Entry>, species: string)
    requires forall j :: 0 <= j < |kwargs| && Additive(kwargs[j].0) ==> AsReal(kwargs[j].1) >= 0.0
    ensures Total(kwargs, species) >= 0.0
  {
    if kwargs != [] {
      TotalNonNegative(kwargs[..|kwargs| - 1], species);
      ContributionNonNegative(species, kwargs[|kwargs| - 1]);
    }
  }

  /** Non-negative overrides give non-negative concentrations. */
  lemma ResolveNonNegative(kwargs: seq<Entry>)
    requires Resolve(kwargs).Success?
    requires forall j :: 0 <= j < |kwargs| && Additive(kwargs[j].0) ==> AsReal(kwargs[j].1) >= 0.0
    ensures var p := Resolve(kwargs).value;
      p.HPO4 >= 0.0 && p.H2PO4 >= 0.0 && p.Tris >= 0.0 && p.NH4 >= 0.0
  {
    TotalNonNegative(kwargs, "HPO4");
    TotalNonNegative(kwargs, "H2PO4");
    TotalNonNegative(kwargs, "Tris");
    TotalNonNegative(kwargs, "NH4");
  }
}
