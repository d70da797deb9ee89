/** `get_biogeography` (BiogeographyAnalyzer.py lines 14-58): the bottom-up propagation of leaf
    locations through a rooted tree. A leaf contributes its location with
    probability 1; an internal node with `n` children adds `p / n` for every
    `(location, p)` of every child, rounds each value, stores a copy sorted by
    descending probability, and returns the unsorted rounded mapping, which is
    what its parent aggregates. The rounding is a parameter: `Round2` is what
    the analyzer does, `Identity` is the exact computation. */
module Propagation {
  import opened Labels
  import opened OrderedMaps
  import opened Rounding
  import opened StableSort

  /** An ete3 node; a node without children is a leaf. Internal node names are
      kept but never read. */
  datatype Tree = Tree(name: string, children: seq<Tree>)

  /** Every leaf label contains `_`, without which the backward scan of
      lines 25-27 runs off the front of the string and raises IndexError. */
  predicate WellLabelled(t: Tree)
    decreases t
  {
    if |t.children| == 0 then '_' in t.name
    else forall i :: 0 <= i < |t.children| ==> WellLabelled(t.children[i])
  }

  /** The mapping `get_biogeography` returns for `t`. */
  function Biogeo(t: Tree, rnd: real -> real): OMap
    requires WellLabelled(t)
    decreases t, 1
  {
    if |t.children| == 0 then [(Location(t.name), 1.0)]
    else RoundValues(Aggregate(ChildMaps(t, rnd)), rnd)
  }

  /** The children's mappings, in child order. */
  function ChildMaps(t: Tree, rnd: real -> real): (ms: seq<OMap>)
    requires WellLabelled(t)
    ensures |ms| == |t.children|
    decreases t, 0
  {
    seq(|t.children|, i requires 0 <= i < |t.children| => Biogeo(t.children[i], rnd))
  }

  /** Lines 40-50: the accumulation over all children, each weighted `1 / n`. */
  function Aggregate(ms: seq<OMap>): OMap
    requires |ms| > 0
  {
    AggregateFrom([], ms, |ms|)
  }

  function AggregateFrom(acc: OMap, ms: seq<OMap>, n: nat): OMap
    requires n > 0
    decreases |ms|
  {
    if |ms| == 0 then acc else AggregateFrom(AddAll(acc, ms[0], n), ms[1..], n)
  }

  /** Lines 53-54: every value replaced by its rounding, keys and order unchanged. */
  function RoundValues(m: OMap, rnd: real -> real): (r: OMap)
    ensures Keys(r) == Keys(m)
    ensures forall k :: k in Keys(m) ==> Get(r, k) == rnd(Get(m, k))
  {
    var r := seq(|m|, i requires 0 <= i < |m| => (m[i].0, rnd(m[i].1)));
    GetMapped(m, r, rnd);
    r
  }

  /** Entry `i` of the rounded map is entry `i` of `m` with its value rounded. */
  lemma RoundValuesEntries(m: OMap, rnd: real -> real)
    ensures |RoundValues(m, rnd)| == |m|
    ensures forall i :: 0 <= i < |m| ==> RoundValues(m, rnd)[i] == (m[i].0, rnd(m[i].1))
  {
  }

  /** An entry-by-entry image of `m` under `rnd` answers every lookup of a
      key of `m` with the rounded value. */
  lemma {:induction false} GetMapped(m: OMap, r: OMap, rnd: real -> real)
    requires |r| == |m|
    requires forall i :: 0 <= i < |m| ==> r[i] == (m[i].0, rnd(m[i].1))
    ensures forall k :: k in Keys(m) ==> Get(r, k) == rnd(Get(m, k))
    decreases |m|
  {
    if |m| > 0 {
      GetMapped(m[1..], r[1..], rnd);
      assert Keys(m) == [m[0].0] + Keys(m[1..]);
    }
  }

  /** The leaf locations of `t`, left to right, with repetitions. */
  function Locations(t: Tree): seq<string>
    requires WellLabelled(t)
    decreases t, 1
  {
    if |t.children| == 0 then [Location(t.name)]
    else Concat(ChildLocations(t))
  }

  function ChildLocations(t: Tree): (ls: seq<seq<string>>)
    requires WellLabelled(t)
    ensures |ls| == |t.children|
    decreases t, 0
  {
    seq(|t.children|, i requires 0 <= i < |t.children| => Locations(t.children[i]))
  }

  // ---------------------------------------------------------------------
  // The aggregation step

  /** The `n`-weighted sum over the children of one key's value. */
  function Share(ms: seq<OMap>, k: string, n: nat): real
    requires n > 0
    decreases |ms|
  {
    if |ms| == 0 then 0.0 else Get(ms[0], k) / n as real + Share(ms[1..], k, n)
  }

  function TotalSum(ms: seq<OMap>): real
    decreases |ms|
  {
    if |ms| == 0 then 0.0 else Total(ms[0]) + TotalSum(ms[1..])
  }

  function KeySeqs(ms: seq<OMap>): seq<seq<string>>
  {
    seq(|ms|, i requires 0 <= i < |ms| => Keys(ms[i]))
  }

  lemma {:induction false} AggregateFromKeys(acc: OMap, ms: seq<OMap>, n: nat)
    requires n > 0
    ensures Keys(AggregateFrom(acc, ms, n)) == AppendNew(Keys(acc), Concat(KeySeqs(ms)))
    decreases |ms|
  {
    if |ms| > 0 {
      AddAllKeys(acc, ms[0], n);
      AggregateFromKeys(AddAll(acc, ms[0], n), ms[1..], n);
      assert KeySeqs(ms)[1..] == KeySeqs(ms[1..]);
      AppendNewConcat(Keys(acc), Keys(ms[0]), Concat(KeySeqs(ms[1..])));
    }
  }

  /** The parent's keys are the children's keys, each once, in the order in
      which the loop over children and their entries first meets them; so the
      key set is exactly the union of the children's key sets. */
  lemma AggregateKeys(ms: seq<OMap>)
    requires |ms| > 0
    ensures Keys(Aggregate(ms)) == Dedup(Concat(KeySeqs(ms)))
    ensures DistinctKeys(Aggregate(ms))
    ensures forall k :: k in Keys(Aggregate(ms)) <==> exists i :: 0 <= i < |ms| && k in Keys(ms[i])
  {
    AggregateFromKeys([], ms, |ms|);
    DedupSpec(Concat(KeySeqs(ms)));
    ConcatElements(KeySeqs(ms));
    assert forall i :: 0 <= i < |ms| ==> KeySeqs(ms)[i] == Keys(ms[i]);
  }

  lemma {:induction false} AggregateFromGet(acc: OMap, ms: seq<OMap>, n: nat, k: string)
    requires n > 0
    requires forall i :: 0 <= i < |ms| ==> DistinctKeys(ms[i])
    ensures Get(AggregateFrom(acc, ms, n), k) == Get(acc, k) + Share(ms, k, n)
    decreases |ms|
  {
    if |ms| > 0 {
      AddAllGet(acc, ms[0], n, k);
      AggregateFromGet(AddAll(acc, ms[0], n), ms[1..], n, k);
    }
  }

  /** Before rounding, each key's value is the sum over the children of
      `child[key] / num_child`, a child without the key contributing 0. */
  lemma AggregateValue(ms: seq<OMap>, k: string)
    requires |ms| > 0
    requires forall i :: 0 <= i < |ms| ==> DistinctKeys(ms[i])
    ensures Get(Aggregate(ms), k) == Share(ms, k, |ms|)
  {
    AggregateFromGet([], ms, |ms|, k);
  }

  lemma {:induction false} AggregateFromTotal(acc: OMap, ms: seq<OMap>, n: nat)
    requires n > 0
    ensures Total(AggregateFrom(acc, ms, n)) == Total(acc) + TotalSum(ms) / n as real
    decreases |ms|
  {
    if |ms| > 0 {
      AddAllTotal(acc, ms[0], n);
      AggregateFromTotal(AddAll(acc, ms[0], n), ms[1..], n);
      DivAdd(Total(ms[0]), TotalSum(ms[1..]), n as real);
    }
  }

  lemma {:induction false} TotalSumOfDistributions(ms: seq<OMap>)
    requires forall i :: 0 <= i < |ms| ==> Total(ms[i]) == 1.0
    ensures TotalSum(ms) == |ms| as real
    decreases |ms|
  {
    if |ms| > 0 {
      TotalSumOfDistributions(ms[1..]);
    }
  }

  /** Equal-weight averaging of distributions is a distribution. */
  lemma AggregateNormalised(ms: seq<OMap>)
    requires |ms| > 0
    requires forall i :: 0 <= i < |ms| ==> Total(ms[i]) == 1.0
    ensures Total(Aggregate(ms)) == 1.0
  {
    var n := |ms| as real;
    AggregateFromTotal([], ms, |ms|);
    TotalSumOfDistributions(ms);
    assert Total([]) == 0.0;
    assert TotalSum(ms) / n == n / n == 1.0;
  }

  /** With a single child the accumulated mapping is the child's mapping. */
  lemma AggregateSingle(m: OMap)
    requires DistinctKeys(m)
    ensures Aggregate([m]) == m
  {
    AddAllFresh([], m);
    assert [] + m == m;
    assert [m][1..] == [];
    assert AggregateFrom([], [m], 1) == AggregateFrom(AddAll([], m, 1), [], 1);
  }

  // ---------------------------------------------------------------------
  // The annotated tree

  /** A node after `get_biogeography` has run: its (possibly renamed) name,
      its `biogeo` feature, and its annotated children. */
  datatype Annotated = Annotated(name: string, biogeo: OMap, children: seq<Annotated>)

  /** The side effects of `get_biogeography`: a leaf is renamed to its display
      name and stores its one-entry mapping; an internal node keeps its name and
      stores its mapping sorted by descending probability. */
  function Annotate(t: Tree, rnd: real -> real): (a: Annotated)
    requires WellLabelled(t)
    ensures |a.children| == |t.children|
    ensures SortedDesc(a.biogeo)
    ensures multiset(a.biogeo) == multiset(Biogeo(t, rnd))
    ensures forall v :: WithValue(a.biogeo, v) == WithValue(Biogeo(t, rnd), v)
    decreases t
  {
    if |t.children| == 0 then
      Annotated(DisplayName(t.name), Biogeo(t, rnd), [])
    else
      Annotated(t.name, SortDesc(Biogeo(t, rnd)),
                seq(|t.children|, i requires 0 <= i < |t.children| => Annotate(t.children[i], rnd)))
  }

  /** `p` holds of the stored mapping of every node. */
  predicate EveryNode(a: Annotated, p: OMap -> bool)
    decreases a
  {
    p(a.biogeo) && forall i :: 0 <= i < |a.children| ==> EveryNode(a.children[i], p)
  }

  // ---------------------------------------------------------------------
  // Properties of the propagation over whole trees

  /** A leaf maps its location, the field after the last `_`, to 1. */
  lemma LeafMapping(prefix: string, loc: string, rnd: real -> real)
    requires '_' !in loc
    ensures WellLabelled(Tree(prefix + "_" + loc, []))
    ensures Biogeo(Tree(prefix + "_" + loc, []), rnd) == [(loc, 1.0)]
  {
    assert (prefix + "_" + loc)[|prefix|] == '_';
    LocationOfLabel(prefix, loc);
  }

  lemma {:induction false} AggregateFromKeysDedup(acc: OMap, ms: seq<OMap>, n: nat, ls: seq<seq<string>>)
    requires n > 0
    requires |ls| == |ms|
    requires forall i :: 0 <= i < |ms| ==> Keys(ms[i]) == Dedup(ls[i])
    ensures Keys(AggregateFrom(acc, ms, n)) == AppendNew(Keys(acc), Concat(ls))
    decreases |ms|
  {
    if |ms| > 0 {
      AddAllKeys(acc, ms[0], n);
      AppendNewDedup(Keys(acc), ls[0]);
      AggregateFromKeysDedup(AddAll(acc, ms[0], n), ms[1..], n, ls[1..]);
      AppendNewConcat(Keys(acc), ls[0], Concat(ls[1..]));
    }
  }

  /** Every node's keys are the locations of the leaves below it, each once,
      in left-to-right order of first occurrence; whatever the rounding. */
  lemma {:induction false} BiogeoKeys(t: Tree, rnd: real -> real)
    requires WellLabelled(t)
    ensures Keys(Biogeo(t, rnd)) == Dedup(Locations(t))
    ensures DistinctKeys(Biogeo(t, rnd))
    decreases t
  {
    if |t.children| == 0 {
      var x := Location(t.name);
      assert [x][1..] == [];
      assert AppendNew([], [x]) == AppendNew([x], []);
    } else {
      var ms := ChildMaps(t, rnd);
      var ls := ChildLocations(t);
      forall i | 0 <= i < |ms|
        ensures Keys(ms[i]) == Dedup(ls[i])
      {
        BiogeoKeys(t.children[i], rnd);
      }
      AggregateFromKeysDedup([], ms, |ms|, ls);
      var agg := Aggregate(ms);
      assert Keys(RoundValues(agg, rnd)) == Keys(agg);
    }
    DedupSpec(Locations(t));
  }

  /** Without rounding every node's mapping sums to exactly 1. */
  lemma {:induction false} ExactNormalised(t: Tree)
    requires WellLabelled(t)
    ensures Total(Biogeo(t, Identity)) == 1.0
    decreases t
  {
    if |t.children| > 0 {
      var ms := ChildMaps(t, Identity);
      forall i | 0 <= i < |ms|
        ensures Total(ms[i]) == 1.0
      {
        ExactNormalised(t.children[i]);
      }
      AggregateNormalised(ms);
      var agg := Aggregate(ms);
      RoundValuesEntries(agg, Identity);
      assert RoundValues(agg, Identity) == agg;
    }
  }

  /** Every value the analyzer returns has at most two decimals. */
  lemma RoundedOnGrid(t: Tree)
    requires WellLabelled(t)
    ensures forall i :: 0 <= i < |Biogeo(t, Round2)| ==> OnGrid(Biogeo(t, Round2)[i].1)
  {
    if |t.children| == 0 {
      assert (1.0 * 100.0).Floor == 100;
    } else {
      RoundValuesEntries(Aggregate(ChildMaps(t, Round2)), Round2);
    }
  }

  /** A node with one child returns exactly the child's mapping. */
  lemma SingleChildExact(name: string, c: Tree)
    requires WellLabelled(c)
    ensures WellLabelled(Tree(name, [c]))
    ensures Biogeo(Tree(name, [c]), Identity) == Biogeo(c, Identity)
  {
    var t := Tree(name, [c]);
    var m := Biogeo(c, Identity);
    assert ChildMaps(t, Identity) == [m];
    BiogeoKeys(c, Identity);
    AggregateSingle(m);
    assert RoundValues(m, Identity) == m;
  }

  /** The same holds with the analyzer's rounding, because the child's values
      are already rounded to two decimals and rounding them again changes nothing. */
  lemma SingleChildRounded(name: string, c: Tree)
    requires WellLabelled(c)
    ensures WellLabelled(Tree(name, [c]))
    ensures Biogeo(Tree(name, [c]), Round2) == Biogeo(c, Round2)
  {
    var t := Tree(name, [c]);
    var m := Biogeo(c, Round2);
    assert ChildMaps(t, Round2) == [m];
    BiogeoKeys(c, Round2);
    AggregateSingle(m);
    RoundedOnGrid(c);
    assert RoundValues(m, Round2) == m;
  }

  lemma {:induction false} ShareBounded(ms: seq<OMap>, k: string, n: nat)
    requires n > 0
    requires forall i :: 0 <= i < |ms| ==> InUnit(ms[i])
    ensures 0.0 <= Share(ms, k, n) <= |ms| as real / n as real
    decreases |ms|
  {
    if |ms| > 0 {
      var d := n as real;
      GetInUnit(ms[0], k);
      DivMono(0.0, Get(ms[0], k), d);
      DivMono(Get(ms[0], k), 1.0, d);
      ShareBounded(ms[1..], k, n);
      DivAdd(1.0, (|ms| - 1) as real, d);
    }
  }

  /** Averaging mappings whose values are probabilities gives probabilities. */
  lemma AggregateInUnit(ms: seq<OMap>)
    requires |ms| > 0
    requires forall i :: 0 <= i < |ms| ==> DistinctKeys(ms[i]) && InUnit(ms[i])
    ensures InUnit(Aggregate(ms))
  {
    var agg := Aggregate(ms);
    AggregateKeys(ms);
    forall i | 0 <= i < |agg|
      ensures 0.0 <= agg[i].1 <= 1.0
    {
      GetEntry(agg, i);
      AggregateValue(ms, agg[i].0);
      ShareBounded(ms, agg[i].0, |ms|);
    }
  }

  /** Every value of every node lies in [0, 1], for any rounding that keeps
      [0, 1] in place, the analyzer's among them. */
  lemma {:induction false} BiogeoInUnit(t: Tree, rnd: real -> real)
    requires WellLabelled(t)
    requires forall x :: 0.0 <= x <= 1.0 ==> 0.0 <= rnd(x) <= 1.0
    ensures InUnit(Biogeo(t, rnd))
    decreases t
  {
    if |t.children| > 0 {
      var ms := ChildMaps(t, rnd);
      forall i | 0 <= i < |ms|
        ensures DistinctKeys(ms[i]) && InUnit(ms[i])
      {
        BiogeoKeys(t.children[i], rnd);
        BiogeoInUnit(t.children[i], rnd);
      }
      AggregateInUnit(ms);
    }
  }

  lemma RoundedInUnit(t: Tree)
    requires WellLabelled(t)
    ensures InUnit(Biogeo(t, Round2))
  {
    BiogeoInUnit(t, Round2);
  }

  // ---------------------------------------------------------------------
  // Rounding drift

  /** The number of edges on the longest path from `t` down to a leaf. */
  function Height(t: Tree): nat
    decreases t, 1
  {
    if |t.children| == 0 then 0 else 1 + MaxHeight(t.children)
  }

  function MaxHeight(cs: seq<Tree>): (h: nat)
    ensures forall i :: 0 <= i < |cs| ==> Height(cs[i]) <= h
    decreases cs, 0
  {
    if |cs| == 0 then 0
    else
      var a := Height(cs[0]);
      var b := MaxHeight(cs[1..]);
      if a >= b then a else b
  }

  /** Rounding `m` moves its total by at most half a hundredth per entry. */
  lemma {:induction false} RoundValuesDrift(m: OMap)
    ensures -(|m| as real) / 200.0 <= Total(RoundValues(m, Round2)) - Total(m) <= (|m| as real) / 200.0
    decreases |m|
  {
    if |m| > 0 {
      assert RoundValues(m, Round2)[1..] == RoundValues(m[1..], Round2);
      RoundValuesDrift(m[1..]);
    }
  }

  /** `n` copies of `b` added up: `n * b` written without multiplication, so
      that bounds accumulated child by child stay linear. */
  function Spread(n: nat, b: real): (r: real)
    ensures r == n as real * b
  {
    if n == 0 then 0.0 else Spread(n - 1, b) + b
  }

  lemma {:induction false} TotalSumWithin(ms: seq<OMap>, b: real)
    requires forall i :: 0 <= i < |ms| ==> -b <= Total(ms[i]) - 1.0 <= b
    ensures -Spread(|ms|, b) <= TotalSum(ms) - |ms| as real <= Spread(|ms|, b)
    decreases |ms|
  {
    if |ms| > 0 {
      TotalSumWithin(ms[1..], b);
      assert -b <= Total(ms[0]) - 1.0 <= b;
      assert |ms[1..]| + 1 == |ms|;
    }
  }

  /** Equal-weight averaging never moves a total further from 1 than the
      furthest child. */
  lemma AggregateWithin(ms: seq<OMap>, b: real)
    requires |ms| > 0
    requires forall i :: 0 <= i < |ms| ==> -b <= Total(ms[i]) - 1.0 <= b
    ensures -b <= Total(Aggregate(ms)) - 1.0 <= b
  {
    var n := |ms| as real;
    var sum := TotalSum(ms);
    assert Total(Aggregate(ms)) == sum / n by {
      AggregateFromTotal([], ms, |ms|);
      assert Total([]) == 0.0;
    }
    assert -(n * b) <= sum - n <= n * b by {
      TotalSumWithin(ms, b);
    }
    AverageBound(sum, n, b);
  }

  lemma AverageBound(sum: real, n: real, b: real)
    requires n > 0.0
    requires -(n * b) <= sum - n <= n * b
    ensures -b <= sum / n - 1.0 <= b
  {
    var q := sum / n;
    assert sum == q * n;
    assert sum - n == n * (q - 1.0);
    if q - 1.0 > b {
      MulStrict(n, q - 1.0, b);
      assert false;
    }
    if q - 1.0 < -b {
      assert n * (-b) == -(n * b);
      MulStrict(n, -b, q - 1.0);
      assert false;
    }
  }

  lemma MulStrict(n: real, x: real, y: real)
    requires n > 0.0 && x > y
    ensures n * x > n * y
  {
    assert n * x - n * y == n * (x - y);
  }

  lemma MulMono(a: nat, b: nat, c: nat, d: nat)
    requires a <= c && b <= d
    ensures a * b <= c * d
  {
    assert a * b <= c * b;
  }

  /** The drift bound of a child, weakened to the parent's height and leaf count. */
  lemma ChildWithin(t: Tree, i: nat)
    requires WellLabelled(t) && i < |t.children|
    ensures -((Height(t) - 1) * |Locations(t)|) as real / 200.0
            <= Total(ChildMaps(t, Round2)[i]) - 1.0
            <= ((Height(t) - 1) * |Locations(t)|) as real / 200.0
    decreases t, 0
  {
    var c := t.children[i];
    var h, l := Height(t), |Locations(t)|;
    var hc, lc := Height(c), |Locations(c)|;
    assert hc <= h - 1;
    assert lc <= l by {
      assert ChildLocations(t)[i] == Locations(c);
    }
    var bc := (hc * lc) as real / 200.0;
    var bt := ((h - 1) * l) as real / 200.0;
    assert bc <= bt by {
      MulMono(hc, lc, h - 1, l);
      DivMono((hc * lc) as real, ((h - 1) * l) as real, 200.0);
    }
    var x := Total(ChildMaps(t, Round2)[i]) - 1.0;
    assert -bc <= x <= bc by {
      assert ChildMaps(t, Round2)[i] == Biogeo(c, Round2);
      RoundedDrift(c);
    }
    assert -bt <= x <= bt;
  }

  lemma DriftStep(x: real, y: real, k: nat, h: nat, l: nat)
    requires h > 0 && k <= l
    requires -((h - 1) * l) as real / 200.0 <= y - 1.0 <= ((h - 1) * l) as real / 200.0
    requires -(k as real) / 200.0 <= x - y <= (k as real) / 200.0
    ensures -(h * l) as real / 200.0 <= x - 1.0 <= (h * l) as real / 200.0
  {
    assert (h * l) as real == ((h - 1) * l) as real + l as real;
  }

  /** With the analyzer's rounding a node's total drifts from 1 by at most
      half a hundredth per key per level: at most `height * leaves / 200`. */
  lemma {:induction false} RoundedDrift(t: Tree)
    requires WellLabelled(t)
    ensures -(Height(t) * |Locations(t)|) as real / 200.0
            <= Total(Biogeo(t, Round2)) - 1.0
            <= (Height(t) * |Locations(t)|) as real / 200.0
    decreases t, 1
  {
    if |t.children| > 0 {
      var h := Height(t);
      var l := |Locations(t)|;
      var ms := ChildMaps(t, Round2);
      var b := ((h - 1) * l) as real / 200.0;
      forall i | 0 <= i < |ms|
        ensures -b <= Total(ms[i]) - 1.0 <= b
      {
        ChildWithin(t, i);
      }
      AggregateWithin(ms, b);
      var agg := Aggregate(ms);
      RoundValuesDrift(agg);
      BiogeoKeys(t, Round2);
      DedupSpec(Locations(t));
      assert |agg| == |Keys(Biogeo(t, Round2))|;
      DriftStep(Total(Biogeo(t, Round2)), Total(agg), |agg|, h, l);
    }
  }

  // ---------------------------------------------------------------------
  // Small trees

  lemma {:induction false} AggregateFromSingletons(acc: OMap, ms: seq<OMap>, n: nat, ks: seq<string>)
    requires n > 0 && |ks| == |ms| && NoDup(ks)
    requires forall i :: 0 <= i < |ms| ==> ms[i] == [(ks[i], 1.0)]
    requires forall i :: 0 <= i < |ks| ==> ks[i] !in Keys(acc)
    ensures AggregateFrom(acc, ms, n)
            == acc + seq(|ks|, i requires 0 <= i < |ks| => (ks[i], 1.0 / n as real))
    decreases |ms|
  {
    if |ms| == 0 {
      assert acc + [] == acc;
    } else {
      var v := 1.0 / n as real;
      var acc' := acc + [(ks[0], v)];
      assert ms[0][1..] == [];
      AddFresh(acc, ks[0], v);
      assert AddAll(acc, ms[0], n) == acc';
      AddKeys(acc, ks[0], v);
      forall i | 0 <= i < |ks[1..]|
        ensures ks[1..][i] !in Keys(acc')
      {
        assert ks[1..][i] == ks[i + 1] != ks[0];
      }
      AggregateFromSingletons(acc', ms[1..], n, ks[1..]);
      assert acc' + seq(|ks| - 1, i requires 0 <= i < |ks| - 1 => (ks[1..][i], v))
             == acc + seq(|ks|, i requires 0 <= i < |ks| => (ks[i], v));
    }
  }

  /** Leaves with pairwise different locations directly below one node share
      the probability equally: each location gets the rounding of `1 / n`. */
  lemma FlatSplit(name: string, leaves: seq<Tree>, rnd: real -> real)
    requires |leaves| > 0
    requires forall i :: 0 <= i < |leaves| ==> |leaves[i].children| == 0 && '_' in leaves[i].name
    requires forall i, j :: 0 <= i < j < |leaves| ==> Location(leaves[i].name) != Location(leaves[j].name)
    ensures WellLabelled(Tree(name, leaves))
    ensures Biogeo(Tree(name, leaves), rnd)
            == seq(|leaves|, i requires 0 <= i < |leaves| => (Location(leaves[i].name), rnd(1.0 / |leaves| as real)))
  {
    var t := Tree(name, leaves);
    assert WellLabelled(t);
    var n := |leaves|;
    var ks := seq(n, i requires 0 <= i < n => Location(leaves[i].name));
    var ms := ChildMaps(t, rnd);
    forall i | 0 <= i < n
      ensures ms[i] == [(ks[i], 1.0)]
    {
      assert ms[i] == Biogeo(leaves[i], rnd);
    }
    assert NoDup(ks);
    AggregateFromSingletons([], ms, n, ks);
    var agg := Aggregate(ms);
    assert agg == seq(n, i requires 0 <= i < n => (ks[i], 1.0 / n as real));
    assert Biogeo(t, rnd) == RoundValues(agg, rnd);
  }

  /** A map whose values are all `v` totals `|m| * v`. */
  lemma {:induction false} TotalUniform(m: OMap, v: real)
    requires forall i :: 0 <= i < |m| ==> m[i].1 == v
    ensures Total(m) == Spread(|m|, v)
    decreases |m|
  {
    if |m| > 0 {
      TotalUniform(m[1..], v);
    }
  }

  /** Six leaves of six different locations: each gets `round(1/6, 2) = 0.17`,
      so the root's values sum to 1.02. */
  lemma SixWayDrift(name: string, leaves: seq<Tree>)
    requires |leaves| == 6
    requires forall i :: 0 <= i < |leaves| ==> |leaves[i].children| == 0 && '_' in leaves[i].name
    requires forall i, j :: 0 <= i < j < |leaves| ==> Location(leaves[i].name) != Location(leaves[j].name)
    ensures WellLabelled(Tree(name, leaves))
    ensures Total(Biogeo(Tree(name, leaves), Round2)) == 1.02
  {
    FlatSplit(name, leaves, Round2);
    var m := Biogeo(Tree(name, leaves), Round2);
    assert 1.0 / |leaves| as real == 1.0 / 6.0;
    RoundSixth();
    assert forall i :: 0 <= i < |m| ==> m[i].1 == 0.17;
    TotalUniform(m, 0.17);
  }

  /** Two leaves of different locations give 0.5 each. */
  lemma BinarySplit(name: string, a: Tree, b: Tree)
    requires |a.children| == 0 && '_' in a.name && |b.children| == 0 && '_' in b.name
    requires Location(a.name) != Location(b.name)
    ensures WellLabelled(Tree(name, [a, b]))
    ensures Biogeo(Tree(name, [a, b]), Round2) == [(Location(a.name), 0.5), (Location(b.name), 0.5)]
  {
    var t := Tree(name, [a, b]);
    assert WellLabelled(t);
    var x, y := Location(a.name), Location(b.name);
    var ms := ChildMaps(t, Round2);
    assert ms == [[(x, 1.0)], [(y, 1.0)]] by {
      assert ms[0] == Biogeo(a, Round2);
      assert ms[1] == Biogeo(b, Round2);
    }
    AggregatePair(x, y);
    RoundHalf();
  }

  lemma AggregatePair(x: string, y: string)
    requires x != y
    ensures Aggregate([[(x, 1.0)], [(y, 1.0)]]) == [(x, 1.0 / 2.0), (y, 1.0 / 2.0)]
  {
    var ms := [[(x, 1.0)], [(y, 1.0)]];
    AggregateFromSingletons([], ms, 2, [x, y]);
  }

  /** Three children, two of them sharing a location: the shared location
      accumulates 1/3 + 1/3 and rounds to 0.67, the other rounds to 0.33. */
  lemma ThreeWaySplit(name: string, a: Tree, b: Tree, c: Tree)
    requires |a.children| == 0 && '_' in a.name
    requires |b.children| == 0 && '_' in b.name
    requires |c.children| == 0 && '_' in c.name
    requires Location(a.name) == Location(b.name) != Location(c.name)
    ensures WellLabelled(Tree(name, [a, b, c]))
    ensures Biogeo(Tree(name, [a, b, c]), Round2) == [(Location(a.name), 0.67), (Location(c.name), 0.33)]
  {
    var t := Tree(name, [a, b, c]);
    assert WellLabelled(t);
    var x, y := Location(a.name), Location(c.name);
    var ms := ChildMaps(t, Round2);
    assert ms == [[(x, 1.0)], [(x, 1.0)], [(y, 1.0)]] by {
      assert ms[0] == Biogeo(a, Round2);
      assert ms[1] == Biogeo(b, Round2);
      assert ms[2] == Biogeo(c, Round2);
    }
    AggregateTriple(x, y);
    var agg := [(x, 2.0 / 3.0), (y, 1.0 / 3.0)];
    assert Biogeo(t, Round2) == RoundValues(agg, Round2);
    RoundTwoThirds();
    assert RoundValues(agg, Round2) == [(x, 0.67), (y, 0.33)];
  }

  lemma AggregateTriple(x: string, y: string)
    requires x != y
    ensures Aggregate([[(x, 1.0)], [(x, 1.0)], [(y, 1.0)]]) == [(x, 2.0 / 3.0), (y, 1.0 / 3.0)]
  {
    var third := 1.0 / 3.0;
    var one: OMap := [(x, 1.0)];
    var last: OMap := [(y, 1.0)];
    var ms := [one, one, last];
    assert one[1..] == [] && last[1..] == [];
    var s1 := Add([], x, third);
    assert AddAll([], one, 3) == s1;
    var s2 := Add(s1, x, third);
    assert AddAll(s1, one, 3) == s2 == [(x, 2.0 / 3.0)];
    var s3 := Add(s2, y, third);
    assert AddAll(s2, last, 3) == s3;
    AddFresh(s2, y, third);
    assert ms[1..] == [one, last] && ms[1..][1..] == [last] && ms[1..][1..][1..] == [];
    assert AggregateFrom([], ms, 3) == AggregateFrom(s1, ms[1..], 3);
    assert AggregateFrom(s1, ms[1..], 3) == AggregateFrom(s2, ms[1..][1..], 3);
    assert AggregateFrom(s2, ms[1..][1..], 3) == AggregateFrom(s3, [], 3);
  }

  // ---------------------------------------------------------------------
  // Properties of the annotated tree

  /** A leaf following the naming convention is renamed `Genus species` and
      stores its location with probability 1. */
  lemma AnnotateLeaf(genus: string, species: string, accession: string, loc: string, rnd: real -> real)
    requires '_' !in genus && '_' !in species && '_' !in loc
    ensures WellLabelled(Tree(genus + "_" + species + "_" + accession + "_" + loc, []))
    ensures Annotate(Tree(genus + "_" + species + "_" + accession + "_" + loc, []), rnd)
            == Annotated(genus + " " + species, [(loc, 1.0)], [])
  {
    ConventionalLabel(genus, species, accession, loc);
  }

  /** Every stored mapping in the annotated tree is sorted by non-increasing probability. */
  lemma {:induction false} AnnotatedSorted(t: Tree, rnd: real -> real)
    requires WellLabelled(t)
    ensures EveryNode(Annotate(t, rnd), m => SortedDesc(m))
    decreases t
  {
    var a := Annotate(t, rnd);
    forall i | 0 <= i < |t.children|
      ensures EveryNode(a.children[i], m => SortedDesc(m))
    {
      AnnotatedSorted(t.children[i], rnd);
    }
  }

  /** Without rounding, every stored mapping in the annotated tree sums to 1. */
  lemma {:induction false} AnnotatedExactNormalised(t: Tree)
    requires WellLabelled(t)
    ensures EveryNode(Annotate(t, Identity), m => Total(m) == 1.0)
    decreases t
  {
    var a := Annotate(t, Identity);
    ExactNormalised(t);
    if |t.children| > 0 {
      assert a.biogeo == SortDesc(Biogeo(t, Identity));
    }
    forall i | 0 <= i < |t.children|
      ensures EveryNode(a.children[i], m => Total(m) == 1.0)
    {
      AnnotatedExactNormalised(t.children[i]);
    }
  }
}
