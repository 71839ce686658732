/**
 * Keyword arguments and insertion-ordered dictionaries as the buffer helpers
 * use them: a dictionary is a sequence of (key, value) entries in insertion
 * order, and the values are the booleans and numbers the helpers accept.
 */
module Kwargs {
  import opened Wrappers

  /** A keyword-argument value: a boolean flag or a number. */
  datatype Value = Flag(b: bool) | Num(x: real)

  type Entry = (string, Value)

  /** The exceptions the helpers raise, one constructor per raise site. */
  datatype Error =
    | Unsupported(key: string, value: Value)   // NotImplementedError from get_paras
    | MissingPH                                // TypeError: -None in cal_HCl_added
    | MalformedSegment(segment: string)        // ValueError: unpacking a segment without exactly one '='
    | NotANumber(token: string)                // ValueError from float(v)
    | MissingKey(key: string)                  // KeyError on a condition lookup
    | SolCIndexOutOfRange(index: int)          // IndexError on the two-entry pre-dose list
    | MissingTrisStock                         // ValueError: Tris present but no stock parameters
    | ZeroTrisStock                            // ZeroDivisionError: stock concentration 0

  /** The number a value stands for in arithmetic: `True` is 1 and `False` is 0. */
  function AsReal(v: Value): real
  {
    match v
    case Flag(b) => if b then 1.0 else 0.0
    case Num(x) => x
  }

  /** Truthiness of a value in a condition: nonzero, with `True` as 1. */
  predicate Truthy(v: Value): (b: bool)
    ensures b <==> AsReal(v) != 0.0
  {
    match v
    case Flag(b) => b
    case Num(x) => x != 0.0
  }

  predicate HasKey(d: seq<Entry>, k: string)
  {
    exists i :: 0 <= i < |d| && d[i].0 == k
  }

  /** A dictionary binds each key at most once. */
  predicate DistinctKeys(d: seq<Entry>)
  {
    forall i, j :: 0 <= i < j < |d| ==> d[i].0 != d[j].0
  }

  /**
   * The value the last entry with key `k` carries: a later assignment to a
   * key overwrites an earlier one. On a dictionary this is lookup.
   */
  function LastValue(d: seq<Entry>, k: string): (r: Option<Value>)
    ensures r.None? <==> !HasKey(d, k)
    ensures r.Some? ==> (k, r.value) in d
  {
    if d == [] then None
    else
      var rest := LastValue(d[1..], k);
      if rest.Some? then
        assert (k, rest.value) in d[1..];
        rest
      else if d[0].0 == k then Some(d[0].1)
      else
        assert forall i :: 1 <= i < |d| ==> d[i] == d[1..][i - 1];
        None
  }

  lemma {:induction false} LastValueSnoc(d: seq<Entry>, e: Entry, k: string)
    ensures LastValue(d + [e], k) == if e.0 == k then Some(e.1) else LastValue(d, k)
  {
    if d == [] {
      assert (d + [e])[1..] == [];
    } else {
      assert (d + [e])[1..] == d[1..] + [e];
      LastValueSnoc(d[1..], e, k);
    }
  }

  /** In a dictionary, lookup finds exactly the bound entries. */
  lemma LastValueDistinct(d: seq<Entry>, k: string, v: Value)
    requires DistinctKeys(d)
    ensures LastValue(d, k) == Some(v) <==> (k, v) in d
  {
    if (k, v) in d {
      var i :| 0 <= i < |d| && d[i] == (k, v);
      var w := LastValue(d, k).value;
      var j :| 0 <= j < |d| && d[j] == (k, w);
      assert i == j;
    }
  }

  /** The position of key `k` in a dictionary that binds it. */
  function KeyIndex(d: seq<Entry>, k: string): (i: nat)
    requires HasKey(d, k)
    ensures i < |d| && d[i].0 == k
  {
    if d[0].0 == k then 0
    else
      assert HasKey(d[1..], k) by {
        var j :| 0 <= j < |d| && d[j].0 == k;
        assert d[1..][j - 1].0 == k;
      }
      1 + KeyIndex(d[1..], k)
  }

  /**
   * Assignment `d[k] = v` on an insertion-ordered dictionary: an existing key
   * keeps its position and takes the new value, a new key is appended.
   */
  function Put(d: seq<Entry>, k: string, v: Value): (r: seq<Entry>)
    requires DistinctKeys(d)
    ensures DistinctKeys(r)
    ensures forall k' :: HasKey(r, k') <==> HasKey(d, k') || k' == k
    ensures HasKey(d, k) ==> |r| == |d| && forall i :: 0 <= i < |d| ==> r[i] == if d[i].0 == k then (k, v) else d[i]
    ensures !HasKey(d, k) ==> r == d + [(k, v)]
  {
    if HasKey(d, k) then
      var r := d[KeyIndex(d, k) := (k, v)];
      assert forall i :: 0 <= i < |d| ==> r[i].0 == d[i].0;
      assert forall k' :: HasKey(r, k') <==> HasKey(d, k') by {
        forall k' | HasKey(d, k') ensures HasKey(r, k') {
          var j :| 0 <= j < |d| && d[j].0 == k';
          assert r[j].0 == k';
        }
      }
      r
    else
      var r := d + [(k, v)];
      assert r[|d|].0 == k;
      assert forall k' :: HasKey(r, k') <==> HasKey(d, k') || k' == k by {
        forall k' | HasKey(r, k') ensures HasKey(d, k') || k' == k {
          var j :| 0 <= j < |r| && r[j].0 == k';
          if j < |d| { assert d[j].0 == k'; }
        }
        forall k' | HasKey(d, k') ensures HasKey(r, k') {
          var j :| 0 <= j < |d| && d[j].0 == k';
          assert r[j].0 == k';
        }
      }
      r
  }

  /** After `d[k] = v`, looking up `k` gives `v` and every other key is unaffected. */
  lemma PutLookup(d: seq<Entry>, k: string, v: Value, k': string)
    requires DistinctKeys(d)
    ensures LastValue(Put(d, k, v), k') == if k' == k then Some(v) else LastValue(d, k')
  {
    var r := Put(d, k, v);
    if k' == k {
      assert (k, v) in r by {
        if HasKey(d, k) {
          var i := KeyIndex(d, k);
          assert r[i] == (k, v);
        } else {
          assert r[|d|] == (k, v);
        }
      }
      LastValueDistinct(r, k, v);
    } else if LastValue(d, k').Some? {
      var w := LastValue(d, k').value;
      assert (k', w) in r by {
        var i :| 0 <= i < |d| && d[i] == (k', w);
        assert r[i] == d[i];
      }
      LastValueDistinct(r, k', w);
    }
  }

  /** Reordering a dictionary does not change any lookup. */
  lemma LastValuePermutation(a: seq<Entry>, b: seq<Entry>, k: string)
    requires multiset(a) == multiset(b)
    requires DistinctKeys(a) && DistinctKeys(b)
    ensures LastValue(a, k) == LastValue(b, k)
  {
    assert forall x :: x in a <==> x in b by {
      forall x ensures x in a <==> x in b {
        assert x in a <==> x in multiset(a);
        assert x in b <==> x in multiset(b);
      }
    }
    match LastValue(a, k)
    case Some(v) =>
      LastValueDistinct(b, k, v);
    case None =>
  }
}
