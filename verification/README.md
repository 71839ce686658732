# Buffer chemistry of the droplet media

This project models the core of `utils/droplet_utils.py`, the helpers that
describe a droplet growth medium by its buffer species and predict how much
acid it holds at a given pH.

- **Parameter resolution** (`get_paras`, module `ParameterResolver`): a
  loop merges keyword overrides into a copy of the default table.
  - `sol_C` adds 0.1 mM H2PO4 when it is truthy.
  - `P_mix` adds half of its value to each of HPO4 and H2PO4.
  - The four species keys accumulate.
  - `pH` overwrites.
  - `C` is ignored.
  - Any other key raises.
- **Condition strings** (`parse_cond`, module `ConditionParser`): a loop
  reads a string such as `sol_C=False;Tris=5;C=10;NH4=0.85;P_mix=4`.
  - Each `;`-separated segment must be exactly `key=value`.
  - `sol_C` becomes a flag.
  - Any other value becomes molar: "False" is 0, otherwise the millimolar number times 1e-3.
  - A later duplicate key overwrites an earlier one in place.
- **Charge balance** (module `Equilibrium`): the expression `cal_HCl_added`
  evaluates. It is the acid needed to bring the medium to hydrogen-ion
  concentration H, over positive reals.
- **Forward problem** (`cal_HCl_added`, module `AcidDose`): resolve the
  parameters, then evaluate the charge balance at H = 10^(-pH). With
  `return_paras` the result is paired with the parameter table.
- **Pre-dose** (first step of `predict_initial_pH`, module `InitialPH`): the
  acid already in a medium before titration.
  - NaOH from sol C counts as -8e-5 M, chosen by `int(sol_C)` with Python's list indexing.
  - A Tris stock titrated with HCl contributes its acid in proportion to the Tris it supplies.

Keyword arguments and Python dictionaries are insertion-ordered sequences of
`(key, value)` entries (module `Kwargs`). A value is a boolean flag or a
number, and in arithmetic `True` counts as 1. Three operations the helpers
rely on are parameters of the model:
- `10 ** x` is `pow10`. It is assumed positive and, where a monotonicity lemma needs it, increasing.
- `float(token)` is `parseFloat`. It returns `None` where Python raises `ValueError`.
- Numbers are exact reals.

## Model

| member | source | states |
|---|---|---|
| Kwargs.Truthy | utils/droplet_utils.py:68 | `if value:` holds exactly when the number the value stands for is nonzero |
| Kwargs.LastValue | utils/droplet_utils.py:101 | a lookup finds nothing exactly when the key is absent; otherwise the binding it returns is one of the dictionary's entries |
| Kwargs.LastValueSnoc | utils/droplet_utils.py:73-74 | a later binding of a key overrides every earlier one and leaves other keys' lookups alone |
| Kwargs.LastValueDistinct | utils/droplet_utils.py:101 | in a dictionary with distinct keys, looking up k gives v exactly when (k, v) is an entry |
| Kwargs.Put | utils/droplet_utils.py:101 | `paras[k] = v` keeps keys distinct and adds exactly k to the key set; an existing key's entry is replaced in place and every other entry is unchanged, a new key is appended at the end |
| Kwargs.PutLookup | utils/droplet_utils.py:101 | after `paras[k] = v`, k maps to v and every other key keeps its value |
| Kwargs.LastValuePermutation | utils/droplet_utils.py:66 | two dictionaries with the same entries in any order answer every lookup alike |
| ParameterResolver.FirstUnrecognized | utils/droplet_utils.py:65-78 | the loop's stopping point: every key before it is recognised and the key at it is not |
| ParameterResolver.FirstUnrecognizedAt | utils/droplet_utils.py:66-78 | when every key before position i is recognised and the key at i is not, the loop raises at i |
| ParameterResolver.Resolve | utils/droplet_utils.py:55-79 | resolution succeeds exactly when every key is recognised; a failure names an unrecognised key and its value as passed; a success keeps the default pKa values and carries the last pH given |
| ParameterResolver.ContributionVanishes | utils/droplet_utils.py:66-76 | an override adds nothing outside the four species, nothing to a species other than the one a species key names, and nothing at all for an unrecognised key |
| ParameterResolver.TotalVanishes | utils/droplet_utils.py:66-76 | only the four species accumulate anything from the overrides |
| ParameterResolver.Merged | utils/droplet_utils.py:65-76 | merging the overrides keeps every pKa of the default table and leaves pH at the last value given |
| ParameterResolver.ResolveSnoc | utils/droplet_utils.py:66-78 | a recognised key keeps a successful resolution successful, with that override merged in |
| ParameterResolver.MergedSnoc | utils/droplet_utils.py:65-76 | merging one more override adds that override's contribution to each species and overwrites pH only for a `pH` key |
| ParameterResolver.GetParas | utils/droplet_utils.py:55-79 | the loop returns exactly the closed-form resolution, including which unsupported key it raises for |
| ParameterResolver.ResolveSolC | utils/droplet_utils.py:67-69 | a truthy `sol_C` adds 1e-4 M to H2PO4 and a falsy one changes nothing |
| ParameterResolver.ResolvePMix | utils/droplet_utils.py:70-72 | `P_mix` adds half its value to HPO4 and half to H2PO4 |
| ParameterResolver.MergedPMix | utils/droplet_utils.py:70-72 | merging `P_mix` adds half its value to each phosphate species and changes nothing else |
| ParameterResolver.MergedSpecies | utils/droplet_utils.py:75-76 | merging a species key adds its value to that species and changes nothing else |
| ParameterResolver.ResolveSpecies | utils/droplet_utils.py:75-76 | a species key adds its value to that species alone |
| ParameterResolver.ResolvePH | utils/droplet_utils.py:73-74 | a `pH` key replaces the pH and nothing else |
| ParameterResolver.ResolveIgnoresC | utils/droplet_utils.py:77 | a `C` key leaves the table unchanged |
| ParameterResolver.ResolveRejects | utils/droplet_utils.py:77-78 | any key outside the recognised set raises with that key and value |
| ParameterResolver.PKaOverrideRejected | utils/droplet_utils.py:1-3 | the pKa entries of the default table cannot be overridden; passing one fails |
| ParameterResolver.TotalAppend | utils/droplet_utils.py:65-76 | a species total over two runs of overrides is the sum of their totals |
| ParameterResolver.TotalRemove | utils/droplet_utils.py:66-76 | taking one override out of a run takes away exactly its contribution to a species total |
| ParameterResolver.TotalPermutation | utils/droplet_utils.py:65-76 | a species total does not depend on the order of the overrides |
| ParameterResolver.ResolveOrderIndependent | utils/droplet_utils.py:55-79 | keyword arguments given in any order resolve to the same table |
| ParameterResolver.ContributionNonNegative | utils/droplet_utils.py:66-76 | an override contributes nothing negative when its value is non-negative or when its key (`sol_C`, `pH`, `C`) does not add its value |
| ParameterResolver.TotalNonNegative | utils/droplet_utils.py:65-76 | non-negative values for `P_mix` and the four species keys give a non-negative species total, whatever `pH` and `C` hold |
| ParameterResolver.ResolveNonNegative | utils/droplet_utils.py:55-79 | non-negative values for `P_mix` and the four species keys give non-negative concentrations of every species |
| ConditionParser.Split | utils/droplet_utils.py:89 | `str.split` always yields at least one piece |
| ConditionParser.SplitCount | utils/droplet_utils.py:89-90 | splitting yields one more piece than there are separators |
| ConditionParser.SplitJoin | utils/droplet_utils.py:89 | no piece contains the separator, and joining the pieces with it gives back the string |
| ConditionParser.SplitUnique | utils/droplet_utils.py:89 | separator-free pieces that join to a string are exactly its split |
| ConditionParser.SegmentMalformed | utils/droplet_utils.py:90 | a segment without exactly one `=` fails to unpack |
| ConditionParser.ParseSegment | utils/droplet_utils.py:90-100 | a segment fails only as a malformed segment or on a token that is not a number; a parsed key never contains `=`, and its value is a flag exactly when the key is `sol_C` |
| ConditionParser.SegmentOf | utils/droplet_utils.py:90-100 | `key=token` parses to a `sol_C` flag that is false only for "False", to 0 for "False", to the number times 1e-3, or fails on a token that is not a number |
| ConditionParser.FirstBadSegment | utils/droplet_utils.py:89-100 | every segment before it parses and the one at it does not |
| ConditionParser.Parsed | utils/droplet_utils.py:89-100 | one entry per segment, each the parse of that segment |
| ConditionParser.Dictify | utils/droplet_utils.py:101 | assigning the entries in turn yields a dictionary with distinct keys |
| ConditionParser.DictifyLookup | utils/droplet_utils.py:101 | in the resulting dictionary each key holds the value of its last occurrence |
| ConditionParser.DictifyDistinct | utils/droplet_utils.py:101 | entries with distinct keys become the dictionary unchanged, in order |
| ConditionParser.ParseCondSpec | utils/droplet_utils.py:81-102 | parsing succeeds exactly when every segment parses; a failure is the failure of one segment |
| ConditionParser.ParseCond | utils/droplet_utils.py:81-102 | the loop returns exactly the closed-form parse |
| ConditionParser.ParseCondLookup | utils/droplet_utils.py:89-101 | a key repeated in the string takes its last value |
| ConditionParser.ParseCondOnePerSegment | utils/droplet_utils.py:89-101 | with distinct keys the dictionary has one entry per `;`-separated segment, in order |
| ConditionParser.ParseCondExample | utils/droplet_utils.py:86 | the documented example string parses to the documented dictionary |
| Equilibrium.ChargeBalance | utils/droplet_utils.py:26 | with no buffer species the acid needed is that of water alone, H - Kw/H |
| Equilibrium.ChargeBalanceDot | utils/droplet_utils.py:26 | the expression is water plus each concentration times the charge its species carries at H |
| Equilibrium.NeutralWater | utils/droplet_utils.py:21 | pure water at H = 1e-7 needs no acid |
| Equilibrium.Fractions | utils/droplet_utils.py:26 | the protonated and deprotonated fractions of an acid lie strictly between 0 and 1 and sum to 1 |
| Equilibrium.ChargeBalanceLinear | utils/droplet_utils.py:26 | adding x of one species changes the acid needed by x times that species' charged fraction |
| Equilibrium.ChargeBalanceShift | utils/droplet_utils.py:26 | adding concentrations adds their charge-weighted sum to the acid needed |
| Equilibrium.ChargeBalanceAdditive | utils/droplet_utils.py:26 | the buffer contributions of two media add up |
| Equilibrium.ChargeBalanceScale | utils/droplet_utils.py:26 | scaling every concentration scales the buffer contribution by the same factor |
| Equilibrium.ChargeBalanceBounds | utils/droplet_utils.py:26 | the acid needed lies between water minus the acids and water plus the bases |
| Equilibrium.WaterIncreasing | utils/droplet_utils.py:26 | the water term grows strictly with H |
| Equilibrium.FractionsMonotone | utils/droplet_utils.py:26 | a higher H raises the protonated fraction and lowers the deprotonated one |
| Equilibrium.ChargeBalanceIncreasing | utils/droplet_utils.py:26 | for non-negative concentrations, the acid needed grows strictly with H |
| Equilibrium.ChargeBalanceInjective | utils/droplet_utils.py:26 | two hydrogen-ion concentrations that need the same acid are equal |
| AcidDose.CalHClAdded | utils/droplet_utils.py:5-39 | fails as resolution does, or when no pH was given; otherwise returns the dose, paired with the resolved table exactly when `return_paras` is set |
| AcidDose.CalHClAddedNeutral | utils/droplet_utils.py:19-26 | a medium of plain water at pH 7 needs no acid |
| AcidDose.CalHClAddedAtPH | utils/droplet_utils.py:19-26 | once a pH is given to a resolvable medium, the dose is the charge balance of its buffer at H = 10^(-pH) |
| AcidDose.CalHClAddedReturnParas | utils/droplet_utils.py:17-39 | `return_paras` only adds the table: the call succeeds with it exactly when it succeeds without it, and pairs the table with the same dose |
| AcidDose.CalHClAddedDecreasingInPH | utils/droplet_utils.py:19-26 | the same medium at a lower pH needs strictly more acid, so a dose fixes at most one pH |
| InitialPH.Truncate | utils/droplet_utils.py:120 | `int()` truncates toward zero |
| InitialPH.IntOf | utils/droplet_utils.py:120 | `int(sol_C)` is the number the value stands for, truncated toward zero |
| InitialPH.PyIndex | utils/droplet_utils.py:120 | list indexing is defined exactly for -len <= i < len, and then gives the element at i modulo len |
| InitialPH.PyIndexWrap | utils/droplet_utils.py:120 | a negative index names the same element as that index plus the length |
| InitialPH.CondDict | utils/droplet_utils.py:118-119 | only a condition string can fail to become a dictionary, and then only with a malformed segment or a token that is not a number |
| InitialPH.StockDose | utils/droplet_utils.py:125 | the acid in a non-negative Tris stock lies between that of water at the stock's pH and that plus the stock's concentration |
| InitialPH.StockDoseIsCalHClAdded | utils/droplet_utils.py:125 | `cal_HCl_added(Tris=conc, pH=pH)` always succeeds, and its dose is the charge balance of the Tris stock alone at its pH |
| InitialPH.StockDoseDecreasing | utils/droplet_utils.py:125 | a stock titrated to a lower pH holds strictly more acid |
| InitialPH.PreDose | utils/droplet_utils.py:120-126 | a pre-dose needs both `sol_C` and `Tris` in the condition, and fails with a KeyError naming `sol_C` without it |
| InitialPH.PreAddedHCl | utils/droplet_utils.py:117-126 | a pre-dose needs a condition that becomes a dictionary holding both `sol_C` and `Tris`; a dictionary without `sol_C` raises its KeyError |
| InitialPH.SolCDose | utils/droplet_utils.py:120 | sol C brings -8e-5 M acid (its NaOH), its absence none |
| InitialPH.PreDoseWithoutTris | utils/droplet_utils.py:120-121 | without Tris the stock parameters are not consulted; the pre-dose fails with a KeyError without `sol_C`, succeeds exactly when `int(sol_C)` is a valid index of the dose list, and is then the element at that index |
| InitialPH.PreDoseTrisNeedsStock | utils/droplet_utils.py:121-126 | with Tris the pre-dose fails exactly when a stock parameter is missing or the stock concentration is 0, and a missing one raises the ValueError |
| InitialPH.PreDoseWithTris | utils/droplet_utils.py:120-126 | with Tris the pre-dose is the sol C dose plus the stock's acid times Tris over the stock concentration |
| InitialPH.PreDoseDecreasingInStockPH | utils/droplet_utils.py:121-126 | a more acidic Tris stock leaves strictly more acid in the medium |
| InitialPH.PreAddedSolCOnly | utils/droplet_utils.py:118-126 | a medium with sol C and no Tris holds exactly the sol C NaOH |
| InitialPH.PreAddedHClStringOrMapping | utils/droplet_utils.py:111-119 | a condition string that parses predicts the same pre-dose as the dictionary it parses to; one that does not fails with its parse error, a malformed segment or a token that is not a number |
| InitialPH.PreAddedHClExampleNeedsStock | utils/droplet_utils.py:118-123 | the documented example string contains Tris, so it is refused without a Tris stock |

## Left out

- `cal_pH` (lines 42-53) solves the charge balance for pH with `scipy.optimize.fsolve`. A numerical root finder is not modelled. `ChargeBalanceIncreasing` and `ChargeBalanceInjective` state what makes the inverse well defined: at most one H for any dose.
- `cal_pH`'s list branch (line 50) calls itself without the medium's keyword arguments. It lies outside this model with the rest of `cal_pH`.
- The rest of `predict_initial_pH` (lines 128-138) is not modelled: the call to `cal_pH` and the linear correction fitted with scikit-learn on a CSV file. It reads a file, fits a regression, and `pd` is never imported in the file.
- The commented-out CO2 correction (lines 28-35) is not modelled. The pKa entries `pKa_CO2_1` and `pKa_CO2_2` are kept in the default table only.
- `10 ** x` is the parameter `pow10`, and `float()` is the parameter `parseFloat`. No decimal parsing or exponentiation is modelled.
- Floating point is not modelled. Sums, products and quotients are exact reals, so rounding, the non-associativity of float addition, overflow, and division by zero at extreme pH are not captured.
- Numpy arrays are not modelled. `cal_HCl_added` accepts an array of pH values and evaluates elementwise; the model takes one pH.
- Keyword values other than booleans and numbers are not modelled. A string value, for example, makes Python raise `TypeError` in the additions.
- CalHClAdded: a missing pH is reported as `MissingPH`, where Python fails with a `TypeError` on `-None`.
- Condition strings with a Tris concentration that is nonzero but negative need no stock parameters. The code tests `Tris > 0` (line 121), not nonzero, and the model follows the code.
