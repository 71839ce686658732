/**
 * The condition-string parser `parse_cond`: "key=value;key=value;..." in
 * millimolar becomes a dictionary in molar, except `sol_C`, which becomes a
 * boolean flag.
 */
module ConditionParser {
  import opened Wrappers
  import opened Kwargs

  /** Millimolar to molar. */
  const MilliToMolar: real := 1e-3

  /** The number of occurrences of `c` in `s`. */
  function Count(s: string, c: char): nat
  {
    if s == [] then 0 else (if s[0] == c then 1 else 0) + Count(s[1..], c)
  }

  /** `sep.join(parts)` */
  function Join(parts: seq<string>, sep: char): string
    requires |parts| >= 1
  {
    if |parts| == 1 then parts[0] else parts[0] + [sep] + Join(parts[1..], sep)
  }

  /** `s.split(sep)`: the pieces of `s` between the separators. */
  function Split(s: string, sep: char): (parts: seq<string>)
    ensures |parts| >= 1
  {
    if s == [] then [""]
    else
      var rest := Split(s[1..], sep);
      if s[0] == sep then [""] + rest
      else [[s[0]] + rest[0]] + rest[1..]
  }

  /** There is one more piece than there are separators. */
  lemma {:induction false} SplitCount(s: string, sep: char)
    ensures |Split(s, sep)| == Count(s, sep) + 1
  {
    if s != [] {
      SplitCount(s[1..], sep);
    }
  }

  /** No piece contains the separator, and joining the pieces gives `s` back. */
  lemma {:induction false} SplitJoin(s: string, sep: char)
    ensures forall i :: 0 <= i < |Split(s, sep)| ==> sep !in Split(s, sep)[i]
    ensures Join(Split(s, sep), sep) == s
  {
    if s != [] {
      var rest := Split(s[1..], sep);
      SplitJoin(s[1..], sep);
      var parts := Split(s, sep);
      if s[0] == sep {
        assert parts[1..] == rest;
      } else {
        assert parts[1..] == rest[1..];
        assert forall i :: 1 <= i < |parts| ==> parts[i] == rest[i];
        assert s == [s[0]] + s[1..];
      }
    }
  }

  /** `Split` is the only way to cut `s` into separator-free pieces that join back to `s`. */
  lemma {:induction false} SplitUnique(s: string, sep: char, parts: seq<string>)
    requires |parts| >= 1
    requires forall i :: 0 <= i < |parts| ==> sep !in parts[i]
    requires Join(parts, sep) == s
    ensures parts == Split(s, sep)
    decreases |s|
  {
    if s == [] {
    } else if s[0] == sep {
      assert |parts| > 1;
      assert s[1..] == Join(parts[1..], sep);
      SplitUnique(s[1..], sep, parts[1..]);
      assert parts == [""] + parts[1..];
    } else {
      var head := parts[0][1..];
      var parts' := [head] + parts[1..];
      assert parts'[1..] == parts[1..];
      if |parts| == 1 {
        assert Join(parts', sep) == s[1..];
      } else {
        assert parts[0] + [sep] + Join(parts[1..], sep) == [s[0]] + (head + [sep] + Join(parts[1..], sep));
        assert Join(parts', sep) == s[1..];
      }
      SplitUnique(s[1..], sep, parts');
      assert parts[0] == [s[0]] + head;
    }
  }

  /**
   * One segment `k=v`: exactly one '=' or the unpacking fails; `sol_C` becomes
   * a flag that is false exactly for the token "False"; any other key maps
   * "False" to 0 and otherwise the number, converted from mM to M.
   */
  function ParseSegment(segment: string, parseFloat: string -> Option<real>): (r: Result<Entry, Error>)
    ensures r.Failure? ==> r.error == MalformedSegment(segment) || r.error.NotANumber?
    ensures r.Success? ==> (r.value.0 == "sol_C" <==> r.value.1.Flag?)
    ensures r.Success? ==> '=' !in r.value.0
  {
    SplitJoin(segment, '=');
    var parts := Split(segment, '=');
    if |parts| != 2 then Failure(MalformedSegment(segment))
    else
      var k, v := parts[0], parts[1];
      if k == "sol_C" then Success((k, Flag(v != "False")))
      else if v == "False" then Success((k, Num(0.0)))
      else
        match parseFloat(v)
        case None => Failure(NotANumber(v))
        case Some(x) => Success((k, Num(x * MilliToMolar)))
  }

  /** A segment without exactly one '=' is malformed. */
  lemma SegmentMalformed(segment: string, parseFloat: string -> Option<real>)
    requires Count(segment, '=') != 1
    ensures ParseSegment(segment, parseFloat) == Failure(MalformedSegment(segment))
  {
    SplitCount(segment, '=');
  }

  /** The text `k=v` with no other '=' parses by its key and its token alone. */
  lemma SegmentOf(segment: string, k: string, tok: string, parseFloat: string -> Option<real>)
    requires '=' !in k && '=' !in tok
    requires segment == k + "=" + tok
    ensures ParseSegment(segment, parseFloat) ==
      if k == "sol_C" then Success((k, Flag(tok != "False")))
      else if tok == "False" then Success((k, Num(0.0)))
      else if parseFloat(tok).Some? then Success((k, Num(parseFloat(tok).value * MilliToMolar)))
      else Failure(NotANumber(tok))
  {
    assert Join([k, tok], '=') == segment;
    SplitUnique(segment, '=', [k, tok]);
  }

  /** The position of the first segment that fails, or |segments| when none does. */
  function FirstBadSegment(segments: seq<string>, parseFloat: string -> Option<real>): (i: nat)
    ensures i <= |segments|
    ensures forall j :: 0 <= j < i ==> ParseSegment(segments[j], parseFloat).Success?
    ensures i < |segments| ==> ParseSegment(segments[i], parseFloat).Failure?
  {
    if segments == [] || ParseSegment(segments[0], parseFloat).Failure? then 0
    else 1 + FirstBadSegment(segments[1..], parseFloat)
  }

  /** The entries the segments parse to, in order. */
  function Parsed(segments: seq<string>, parseFloat: string -> Option<real>): (es: seq<Entry>)
    requires forall j :: 0 <= j < |segments| ==> ParseSegment(segments[j], parseFloat).Success?
    ensures |es| == |segments|
    ensures forall j :: 0 <= j < |segments| ==> es[j] == ParseSegment(segments[j], parseFloat).value
  {
    if segments == [] then []
    else
      var init := segments[..|segments| - 1];
      Parsed(init, parseFloat) + [ParseSegment(segments[|segments| - 1], parseFloat).value]
  }

  /** The dictionary built by assigning the entries one after another. */
  function Dictify(es: seq<Entry>): (d: seq<Entry>)
    ensures DistinctKeys(d)
  {
    if es == [] then [] else Put(Dictify(es[..|es| - 1]), es[|es| - 1].0, es[|es| - 1].1)
  }

  /** A key is bound to the value of its last assignment. */
  lemma {:induction false} DictifyLookup(es: seq<Entry>, k: string)
    ensures LastValue(Dictify(es), k) == LastValue(es, k)
  {
    if es != [] {
      var init, e := es[..|es| - 1], es[|es| - 1];
      var d := Dictify(init);
      assert Dictify(es) == Put(d, e.0, e.1);
      DictifyLookup(init, k);
      PutLookup(d, e.0, e.1, k);
      assert es == init + [e];
      LastValueSnoc(init, e, k);
    }
  }

  /** Entries with distinct keys become the dictionary as they stand, in order. */
  lemma {:induction false} DictifyDistinct(es: seq<Entry>)
    requires DistinctKeys(es)
    ensures Dictify(es) == es
  {
    if es != [] {
      var init, e := es[..|es| - 1], es[|es| - 1];
      assert DistinctKeys(init);
      DictifyDistinct(init);
      assert !HasKey(init, e.0) by {
        forall i | 0 <= i < |init| ensures init[i].0 != e.0 {
          assert init[i] == es[i];
        }
      }
      assert Dictify(es) == Put(init, e.0, e.1);
      assert Put(init, e.0, e.1) == init + [(e.0, e.1)];
      assert es == init + [e];
    }
  }

  /** Every segment parses. */
  predicate AllParse(segments: seq<string>, parseFloat: string -> Option<real>)
  {
    forall j :: 0 <= j < |segments| ==> ParseSegment(segments[j], parseFloat).Success?
  }

  lemma DictifySnoc(es: seq<Entry>, e: Entry)
    ensures Dictify(es + [e]) == Put(Dictify(es), e.0, e.1)
  {
    assert (es + [e])[..|es|] == es;
  }

  lemma AllParseSnoc(segments: seq<string>, i: nat, parseFloat: string -> Option<real>)
    requires i < |segments|
    requires AllParse(segments[..i], parseFloat)
    ensures AllParse(segments[..i + 1], parseFloat) <==> ParseSegment(segments[i], parseFloat).Success?
  {
    var next := segments[..i + 1];
    assert next == segments[..i] + [segments[i]];
    if ParseSegment(segments[i], parseFloat).Success? {
      forall j | 0 <= j < |next| ensures ParseSegment(next[j], parseFloat).Success? {
        if j < i {
          assert next[j] == segments[..i][j];
        }
      }
    } else {
      assert next[i] == segments[i];
    }
  }

  lemma FirstBadSegmentAt(segments: seq<string>, i: nat, parseFloat: string -> Option<real>)
    requires i < |segments|
    requires AllParse(segments[..i], parseFloat)
    requires ParseSegment(segments[i], parseFloat).Failure?
    ensures FirstBadSegment(segments, parseFloat) == i
  {
    assert forall j :: 0 <= j < i ==> ParseSegment(segments[j], parseFloat).Success? by {
      forall j | 0 <= j < i ensures ParseSegment(segments[j], parseFloat).Success? {
        assert segments[..i][j] == segments[j];
      }
    }
  }

  lemma ParsedSnoc(segments: seq<string>, i: nat, parseFloat: string -> Option<real>)
    requires i < |segments|
    requires AllParse(segments[..i + 1], parseFloat)
    ensures Parsed(segments[..i + 1], parseFloat) ==
      Parsed(segments[..i], parseFloat) + [ParseSegment(segments[i], parseFloat).value]
  {
    assert segments[..i + 1][..i] == segments[..i];
  }

  /** What `parse_cond(s)` returns, `float` being `parseFloat`. */
  function ParseCondSpec(s: string, parseFloat: string -> Option<real>): (r: Result<seq<Entry>, Error>)
    ensures r.Success? <==> AllParse(Split(s, ';'), parseFloat)
    ensures r.Failure? ==> exists j :: 0 <= j < |Split(s, ';')| && ParseSegment(Split(s, ';')[j], parseFloat) == Failure(r.error)
  {
    var segments := Split(s, ';');
    var i := FirstBadSegment(segments, parseFloat);
    if i < |segments| then
      assert ParseSegment(segments[i], parseFloat).Failure?;
      Failure(ParseSegment(segments[i], parseFloat).error)
    else Success(Dictify(Parsed(segments, parseFloat)))
  }

  /** `parse_cond`: split on ';' and assign each parsed segment into a fresh dictionary. */
  method ParseCond(s: string, parseFloat: string -> Option<real>) returns (r: Result<seq<Entry>, Error>)
    ensures r == ParseCondSpec(s, parseFloat)
  {
    var segments := Split(s, ';');
    var paras: seq<Entry> := [];
    for i := 0 to |segments|
      invariant AllParse(segments[..i], parseFloat)
      invariant paras == Dictify(Parsed(segments[..i], parseFloat))
    {
      var entry := ParseSegment(segments[i], parseFloat);
      AllParseSnoc(segments, i, parseFloat);
      if entry.Failure? {
        FirstBadSegmentAt(segments, i, parseFloat);
        return Failure(entry.error);
      }
      ParsedSnoc(segments, i, parseFloat);
      DictifySnoc(Parsed(segments[..i], parseFloat), entry.value);
      paras := Put(paras, entry.value.0, entry.value.1);
    }
    assert segments[..|segments|] == segments;
    return Success(paras);
  }

  /** A later segment with the same key overwrites an earlier one. */
  lemma ParseCondLookup(s: string, parseFloat: string -> Option<real>, k: string)
    requires ParseCondSpec(s, parseFloat).Success?
    ensures LastValue(ParseCondSpec(s, parseFloat).value, k) ==
      LastValue(Parsed(Split(s, ';'), parseFloat), k)
  {
    DictifyLookup(Parsed(Split(s, ';'), parseFloat), k);
  }

  /** Segments with distinct keys give one entry per segment, in the order written. */
  lemma ParseCondOnePerSegment(s: string, parseFloat: string -> Option<real>)
    requires ParseCondSpec(s, parseFloat).Success?
    requires DistinctKeys(Parsed(Split(s, ';'), parseFloat))
    ensures var d := ParseCondSpec(s, parseFloat).value;
      && |d| == |Split(s, ';')| == Count(s, ';') + 1
      && forall j :: 0 <= j < |d| ==> d[j] == ParseSegment(Split(s, ';')[j], parseFloat).value
  {
    var segments := Split(s, ';');
    SplitCount(s, ';');
    var es := Parsed(segments, parseFloat);
    DictifyDistinct(es);
    assert ParseCondSpec(s, parseFloat).value == es;
  }

  lemma ExampleKeysDistinct(es: seq<Entry>)
    requires |es| == 5
    requires es[0].0 == "sol_C" && es[1].0 == "Tris" && es[2].0 == "C" && es[3].0 == "NH4" && es[4].0 == "P_mix"
    ensures DistinctKeys(es)
  {
    assert forall i :: 0 <= i < 5 ==> es[i].0[0] == "sTCNP"[i];
  }

  lemma ExampleSplit(s: string)
    requires s == "sol_C=False;Tris=5;C=10;NH4=0.85;P_mix=4"
    ensures Split(s, ';') == ["sol_C=False", "Tris=5", "C=10", "NH4=0.85", "P_mix=4"]
  {
    var segments := ["sol_C=False", "Tris=5", "C=10", "NH4=0.85", "P_mix=4"];
    assert Join(segments, ';') == s;
    SplitUnique(s, ';', segments);
  }

  lemma ExampleSegment(segment: string, k: string, tok: string, x: real, parseFloat: string -> Option<real>)
    requires '=' !in k && '=' !in tok && segment == k + "=" + tok
    requires k != "sol_C" && tok != "False" && parseFloat(tok) == Some(x)
    ensures ParseSegment(segment, parseFloat) == Success((k, Num(x * MilliToMolar)))
  {
    SegmentOf(segment, k, tok, parseFloat);
  }

  lemma ExampleParsed(segments: seq<string>, parseFloat: string -> Option<real>)
    requires segments == ["sol_C=False", "Tris=5", "C=10", "NH4=0.85", "P_mix=4"]
    requires parseFloat("5") == Some(5.0) && parseFloat("10") == Some(10.0)
    requires parseFloat("0.85") == Some(0.85) && parseFloat("4") == Some(4.0)
    ensures AllParse(segments, parseFloat)
    ensures Parsed(segments, parseFloat) ==
      [("sol_C", Flag(false)), ("Tris", Num(5e-3)), ("C", Num(1e-2)), ("NH4", Num(8.5e-4)), ("P_mix", Num(4e-3))]
  {
    var es := [("sol_C", Flag(false)), ("Tris", Num(5e-3)), ("C", Num(1e-2)),
               ("NH4", Num(8.5e-4)), ("P_mix", Num(4e-3))];
    forall j | 0 <= j < 5 ensures ParseSegment(segments[j], parseFloat) == Success(es[j]) {
      if j == 0 {
        SegmentOf(segments[0], "sol_C", "False", parseFloat);
      } else if j == 1 {
        ExampleSegment(segments[1], "Tris", "5", 5.0, parseFloat);
      } else if j == 2 {
        ExampleSegment(segments[2], "C", "10", 10.0, parseFloat);
      } else if j == 3 {
        ExampleSegment(segments[3], "NH4", "0.85", 0.85, parseFloat);
      } else {
        ExampleSegment(segments[4], "P_mix", "4", 4.0, parseFloat);
      }
    }
  }

  /** The worked example of the condition format, for any `float` that reads these four numerals. */
  lemma ParseCondExample(s: string, parseFloat: string -> Option<real>)
    requires s == "sol_C=False;Tris=5;C=10;NH4=0.85;P_mix=4"
    requires parseFloat("5") == Some(5.0) && parseFloat("10") == Some(10.0)
    requires parseFloat("0.85") == Some(0.85) && parseFloat("4") == Some(4.0)
    ensures ParseCondSpec(s, parseFloat) ==
      Success([("sol_C", Flag(false)), ("Tris", Num(5e-3)), ("C", Num(1e-2)),
               ("NH4", Num(8.5e-4)), ("P_mix", Num(4e-3))])
  {
    var es := [("sol_C", Flag(false)), ("Tris", Num(5e-3)), ("C", Num(1e-2)),
               ("NH4", Num(8.5e-4)), ("P_mix", Num(4e-3))];
    ExampleSplit(s);
    ExampleParsed(Split(s, ';'), parseFloat);
    ExampleKeysDistinct(es);
    DictifyDistinct(es);
  }
}
