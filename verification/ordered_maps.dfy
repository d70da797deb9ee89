/** Python dictionaries as the analyzer uses them: association lists that keep
    keys in insertion order; adding to a present key updates it in place and a
    fresh key is appended at the end. */
module OrderedMaps {

  type Entry = (string, real)
  type OMap = seq<Entry>

  /** The keys of a map, in iteration order. */
  function Keys(m: OMap): (ks: seq<string>)
    ensures |ks| == |m|
    ensures forall i :: 0 <= i < |m| ==> ks[i] == m[i].0
  {
    if |m| == 0 then [] else [m[0].0] + Keys(m[1..])
  }

  predicate NoDup(s: seq<string>)
  {
    forall i, j :: 0 <= i < j < |s| ==> s[i] != s[j]
  }

  /** A well-formed dictionary: no key occurs twice. */
  predicate DistinctKeys(m: OMap)
  {
    NoDup(Keys(m))
  }

  /** `d[k] if k in d else 0`. */
  function Get(m: OMap, k: string): real
  {
    if |m| == 0 then 0.0
    else if m[0].0 == k then m[0].1
    else Get(m[1..], k)
  }

  /** The sum of all values of a map. */
  function Total(m: OMap): real
  {
    if |m| == 0 then 0.0 else m[0].1 + Total(m[1..])
  }

  /** One step of lines 47-50: `d[k] += v` when `k` is present, else `d[k] = v`. */
  function Add(m: OMap, k: string, v: real): (r: OMap)
  {
    if |m| == 0 then [(k, v)]
    else if m[0].0 == k then [(k, m[0].1 + v)] + m[1..]
    else [m[0]] + Add(m[1..], k, v)
  }

  /** Lines 46-50 for one child: every `(k, v)` of `m`, in order, adds `v / n` into `acc`. */
  function AddAll(acc: OMap, m: OMap, n: nat): OMap
    requires n > 0
    decreases |m|
  {
    if |m| == 0 then acc
    else AddAll(Add(acc, m[0].0, m[0].1 / n as real), m[1..], n)
  }

  /** Appends to `a`, in order, each element of `s` not seen so far. */
  function AppendNew(a: seq<string>, s: seq<string>): seq<string>
    decreases |s|
  {
    if |s| == 0 then a
    else AppendNew(if s[0] in a then a else a + [s[0]], s[1..])
  }

  /** The distinct elements of `s` in order of first occurrence. */
  function Dedup(s: seq<string>): seq<string>
  {
    AppendNew([], s)
  }

  // ---------------------------------------------------------------------
  // One update

  lemma {:induction false} AddKeys(m: OMap, k: string, v: real)
    ensures Keys(Add(m, k, v)) == if k in Keys(m) then Keys(m) else Keys(m) + [k]
  {
    if |m| > 0 && m[0].0 != k {
      AddKeys(m[1..], k, v);
      assert Keys(m) == [m[0].0] + Keys(m[1..]);
    }
  }

  lemma {:induction false} AddGet(m: OMap, k: string, v: real, q: string)
    ensures Get(Add(m, k, v), q) == Get(m, q) + (if q == k then v else 0.0)
  {
    if |m| > 0 && m[0].0 != k {
      AddGet(m[1..], k, v, q);
    }
  }

  lemma {:induction false} AddTotal(m: OMap, k: string, v: real)
    ensures Total(Add(m, k, v)) == Total(m) + v
  {
    if |m| > 0 {
      if m[0].0 == k {
        assert ([(k, m[0].1 + v)] + m[1..])[1..] == m[1..];
      } else {
        AddTotal(m[1..], k, v);
        assert ([m[0]] + Add(m[1..], k, v))[1..] == Add(m[1..], k, v);
      }
    }
  }

  /** Adding a key not yet present appends it at the end. */
  lemma {:induction false} AddFresh(m: OMap, k: string, v: real)
    requires k !in Keys(m)
    ensures Add(m, k, v) == m + [(k, v)]
  {
    if |m| > 0 {
      assert Keys(m) == [m[0].0] + Keys(m[1..]);
      AddFresh(m[1..], k, v);
      assert m == [m[0]] + m[1..];
    }
  }

  // ---------------------------------------------------------------------
  // Accumulating one child

  /** Keys enter the accumulator in first-encountered order. */
  lemma {:induction false} AddAllKeys(acc: OMap, m: OMap, n: nat)
    requires n > 0
    ensures Keys(AddAll(acc, m, n)) == AppendNew(Keys(acc), Keys(m))
    decreases |m|
  {
    if |m| > 0 {
      var acc' := Add(acc, m[0].0, m[0].1 / n as real);
      AddKeys(acc, m[0].0, m[0].1 / n as real);
      AddAllKeys(acc', m[1..], n);
      assert Keys(m) == [m[0].0] + Keys(m[1..]);
    }
  }

  /** Each key of the child contributes its value divided by `n`; shared keys accumulate. */
  lemma {:induction false} AddAllGet(acc: OMap, m: OMap, n: nat, q: string)
    requires n > 0
    requires DistinctKeys(m)
    ensures Get(AddAll(acc, m, n), q) == Get(acc, q) + Get(m, q) / n as real
    decreases |m|
  {
    if |m| > 0 {
      var acc' := Add(acc, m[0].0, m[0].1 / n as real);
      assert DistinctKeys(m[1..]) by {
        assert Keys(m[1..]) == Keys(m)[1..];
      }
      AddGet(acc, m[0].0, m[0].1 / n as real, q);
      AddAllGet(acc', m[1..], n, q);
      if m[0].0 == q {
        assert q !in Keys(m[1..]) by {
          assert Keys(m[1..]) == Keys(m)[1..];
        }
        GetAbsent(m[1..], q);
      }
    }
  }

  lemma {:induction false} AddAllTotal(acc: OMap, m: OMap, n: nat)
    requires n > 0
    ensures Total(AddAll(acc, m, n)) == Total(acc) + Total(m) / n as real
    decreases |m|
  {
    if |m| > 0 {
      var d := n as real;
      var acc' := Add(acc, m[0].0, m[0].1 / d);
      AddTotal(acc, m[0].0, m[0].1 / d);
      AddAllTotal(acc', m[1..], n);
      DivAdd(m[0].1, Total(m[1..]), d);
    }
  }

  lemma DivMono(x: real, y: real, d: real)
    requires d > 0.0 && x <= y
    ensures x / d <= y / d
  {
  }

  lemma DivAdd(x: real, y: real, d: real)
    requires d > 0.0
    ensures x / d + y / d == (x + y) / d
  {
  }

  /** With divisor 1 and keys not yet present, accumulating a child just appends it. */
  lemma AddAllFresh(acc: OMap, m: OMap)
    requires DistinctKeys(m)
    requires forall i :: 0 <= i < |m| ==> m[i].0 !in Keys(acc)
    ensures AddAll(acc, m, 1) == acc + m
  {
    UnsharedOf(acc, m);
    AddAllUnshared(acc, m);
  }

  /** Each entry of `m`, in turn, has a key not in the accumulator so far. */
  predicate Unshared(acc: OMap, m: OMap)
    decreases |m|
  {
    |m| == 0 || (m[0].0 !in Keys(acc) && Unshared(acc + [m[0]], m[1..]))
  }

  lemma {:induction false} AddAllUnshared(acc: OMap, m: OMap)
    requires Unshared(acc, m)
    ensures AddAll(acc, m, 1) == acc + m
    decreases |m|
  {
    if |m| > 0 {
      assert m[0].1 / 1 as real == m[0].1;
      AddFresh(acc, m[0].0, m[0].1);
      AddAllUnshared(acc + [m[0]], m[1..]);
      assert acc + [m[0]] + m[1..] == acc + m;
    }
  }

  lemma {:induction false} UnsharedOf(acc: OMap, m: OMap)
    requires DistinctKeys(m)
    requires forall i :: 0 <= i < |m| ==> m[i].0 !in Keys(acc)
    ensures Unshared(acc, m)
    decreases |m|
  {
    if |m| > 0 {
      FreshTail(acc, m);
      UnsharedOf(acc + [m[0]], m[1..]);
    }
  }

  /** Moving the first entry of `m` into the accumulator keeps the rest fresh. */
  lemma FreshTail(acc: OMap, m: OMap)
    requires |m| > 0 && DistinctKeys(m)
    requires forall i :: 0 <= i < |m| ==> m[i].0 !in Keys(acc)
    ensures DistinctKeys(m[1..])
    ensures forall i :: 0 <= i < |m[1..]| ==> m[1..][i].0 !in Keys(acc + [m[0]])
  {
    var rest := m[1..];
    AddFresh(acc, m[0].0, m[0].1);
    AddKeys(acc, m[0].0, m[0].1);
    assert Keys(acc + [m[0]]) == Keys(acc) + [m[0].0];
    forall i | 0 <= i < |rest|
      ensures rest[i].0 !in Keys(acc + [m[0]])
    {
      assert rest[i] == m[i + 1];
      assert Keys(m)[0] != Keys(m)[i + 1];
    }
    assert forall i :: 0 <= i < |rest| ==> Keys(rest)[i] == Keys(m)[i + 1];
  }

  lemma {:induction false} GetAbsent(m: OMap, q: string)
    requires q !in Keys(m)
    ensures Get(m, q) == 0.0
  {
    if |m| > 0 {
      assert Keys(m) == [m[0].0] + Keys(m[1..]);
      GetAbsent(m[1..], q);
    }
  }

  /** Every value lies in [0, 1]. */
  predicate InUnit(m: OMap)
  {
    forall i :: 0 <= i < |m| ==> 0.0 <= m[i].1 <= 1.0
  }

  /** In a dictionary, looking up an entry's key yields that entry's value. */
  lemma {:induction false} GetEntry(m: OMap, i: nat)
    requires DistinctKeys(m) && i < |m|
    ensures Get(m, m[i].0) == m[i].1
  {
    if i > 0 {
      assert m[0].0 == Keys(m)[0] != Keys(m)[i] == m[i].0;
      assert DistinctKeys(m[1..]) by {
        assert Keys(m[1..]) == Keys(m)[1..];
      }
      GetEntry(m[1..], i - 1);
    }
  }

  lemma {:induction false} GetInUnit(m: OMap, k: string)
    requires InUnit(m)
    ensures 0.0 <= Get(m, k) <= 1.0
  {
    if |m| > 0 {
      GetInUnit(m[1..], k);
    }
  }

  // ---------------------------------------------------------------------
  // First-encountered key order

  lemma {:induction false} AppendNewPrefix(a: seq<string>, s: seq<string>)
    ensures |a| <= |AppendNew(a, s)| <= |a| + |s|
    ensures AppendNew(a, s)[..|a|] == a
    decreases |s|
  {
    if |s| > 0 {
      var a' := if s[0] in a then a else a + [s[0]];
      AppendNewPrefix(a', s[1..]);
      assert a'[..|a|] == a;
    }
  }

  /** The elements of `AppendNew(a, s)` are those of `a` and `s`. */
  lemma {:induction false} AppendNewElements(a: seq<string>, s: seq<string>)
    ensures forall x :: x in AppendNew(a, s) <==> x in a || x in s
    decreases |s|
  {
    if |s| > 0 {
      var a' := if s[0] in a then a else a + [s[0]];
      AppendNewElements(a', s[1..]);
      assert s == [s[0]] + s[1..];
    }
  }

  lemma {:induction false} AppendNewNoDup(a: seq<string>, s: seq<string>)
    requires NoDup(a)
    ensures NoDup(AppendNew(a, s))
    decreases |s|
  {
    if |s| > 0 {
      var a' := if s[0] in a then a else a + [s[0]];
      AppendNewNoDup(a', s[1..]);
    }
  }

  lemma {:induction false} AppendNewConcat(a: seq<string>, s: seq<string>, t: seq<string>)
    ensures AppendNew(a, s + t) == AppendNew(AppendNew(a, s), t)
    decreases |s|
  {
    if |s| > 0 {
      var a' := if s[0] in a then a else a + [s[0]];
      assert (s + t)[0] == s[0] && (s + t)[1..] == s[1..] + t;
      AppendNewConcat(a', s[1..], t);
    } else {
      assert s + t == t;
    }
  }

  /** Feeding only the elements that `AppendNew(c, s)` added to `c` into an
      accumulator that already holds all of `c` has the same effect as `s`. */
  lemma {:induction false} AppendNewSkipSeen(a: seq<string>, c: seq<string>, s: seq<string>)
    requires forall x :: x in c ==> x in a
    ensures |c| <= |AppendNew(c, s)|
    ensures AppendNew(a, AppendNew(c, s)[|c|..]) == AppendNew(a, s)
    decreases |s|
  {
    AppendNewPrefix(c, s);
    if |s| == 0 {
      assert AppendNew(c, s)[|c|..] == [];
    } else if s[0] in c {
      AppendNewSkipSeen(a, c, s[1..]);
    } else {
      var c' := c + [s[0]];
      var a' := if s[0] in a then a else a + [s[0]];
      AppendNewPrefix(c', s[1..]);
      AppendNewSkipSeen(a', c', s[1..]);
      var d := AppendNew(c', s[1..]);
      assert d[..|c'|] == c';
      assert d[|c|..] == [s[0]] + d[|c'|..];
    }
  }

  /** Deduplicating first does not change what is appended. */
  lemma AppendNewDedup(a: seq<string>, s: seq<string>)
    ensures AppendNew(a, Dedup(s)) == AppendNew(a, s)
  {
    AppendNewSkipSeen(a, [], s);
    assert AppendNew([], s)[0..] == Dedup(s);
  }

  /** `Dedup` lists each element of `s` exactly once. */
  lemma DedupSpec(s: seq<string>)
    ensures NoDup(Dedup(s))
    ensures forall x :: x in Dedup(s) <==> x in s
    ensures |Dedup(s)| <= |s|
  {
    AppendNewNoDup([], s);
    AppendNewElements([], s);
    AppendNewPrefix([], s);
  }

  // ---------------------------------------------------------------------
  // Concatenation of key sequences

  function Concat(ss: seq<seq<string>>): (r: seq<string>)
    ensures forall i :: 0 <= i < |ss| ==> |ss[i]| <= |r|
    decreases |ss|
  {
    if |ss| == 0 then [] else ss[0] + Concat(ss[1..])
  }

  lemma {:induction false} ConcatElements(ss: seq<seq<string>>)
    ensures forall x :: x in Concat(ss) <==> exists i :: 0 <= i < |ss| && x in ss[i]
    decreases |ss|
  {
    if |ss| > 0 {
      ConcatElements(ss[1..]);
      assert Concat(ss) == ss[0] + Concat(ss[1..]);
      forall x
        ensures x in Concat(ss) <==> exists i :: 0 <= i < |ss| && x in ss[i]
      {
        if x in ss[0] {
          assert x in Concat(ss);
        } else if x in Concat(ss[1..]) {
          var j :| 0 <= j < |ss[1..]| && x in ss[1..][j];
          assert x in ss[j + 1];
        } else {
          forall i | 0 <= i < |ss|
            ensures x !in ss[i]
          {
            if i > 0 {
              assert ss[i] == ss[1..][i - 1];
            }
          }
        }
      }
    }
  }

}
