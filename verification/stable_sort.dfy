/** The copy of a node's mapping that BiogeographyAnalyzer.py line 57 stores:
    the entries sorted by non-increasing value. Python's `sorted` is
    stable also with `reverse=True`, so entries with equal values keep their
    insertion order. */
module StableSort {
  import opened OrderedMaps

  predicate SortedDesc(m: OMap)
  {
    forall i, j :: 0 <= i < j < |m| ==> m[i].1 >= m[j].1
  }

  /** The entries of `m` whose value is `v`, in their order in `m`. */
  function WithValue(m: OMap, v: real): OMap
  {
    if |m| == 0 then []
    else (if m[0].1 == v then [m[0]] else []) + WithValue(m[1..], v)
  }

  /** Places `e` in front of the first entry whose value does not exceed its own. */
  function Insert(e: Entry, r: OMap): (s: OMap)
    ensures multiset(s) == multiset(r) + multiset{e}
  {
    if |r| == 0 then [e]
    else if r[0].1 <= e.1 then [e] + r
    else
      assert r == [r[0]] + r[1..];
      [r[0]] + Insert(e, r[1..])
  }

  lemma {:induction false} InsertSorted(e: Entry, r: OMap)
    requires SortedDesc(r)
    ensures SortedDesc(Insert(e, r))
  {
    if |r| > 0 && r[0].1 > e.1 {
      InsertSorted(e, r[1..]);
      var t := Insert(e, r[1..]);
      forall x: Entry | x in multiset(t)
        ensures x.1 <= r[0].1
      {
        assert x in multiset(r[1..]) + multiset{e};
        if x in multiset(r[1..]) {
          var j :| 0 <= j < |r[1..]| && r[1..][j] == x;
          assert r[j + 1] == x;
        }
      }
      forall j | 0 <= j < |t|
        ensures t[j].1 <= r[0].1
      {
        assert t[j] in multiset(t);
      }
    }
  }

  lemma {:induction false} InsertTotal(e: Entry, r: OMap)
    ensures Total(Insert(e, r)) == e.1 + Total(r)
  {
    if |r| > 0 {
      if r[0].1 <= e.1 {
        assert ([e] + r)[1..] == r;
      } else {
        InsertTotal(e, r[1..]);
        assert ([r[0]] + Insert(e, r[1..]))[1..] == Insert(e, r[1..]);
      }
    }
  }

  /** Inserting `e` puts it first among the entries of equal value. */
  lemma InsertWithValue(e: Entry, r: OMap, v: real)
    ensures WithValue(Insert(e, r), v) == (if e.1 == v then [e] else []) + WithValue(r, v)
  {
    if e.1 == v {
      InsertWithOwnValue(e, r);
    } else {
      InsertWithOtherValue(e, r, v);
      assert [] + WithValue(r, v) == WithValue(r, v);
    }
  }

  lemma {:induction false} InsertWithOwnValue(e: Entry, r: OMap)
    ensures WithValue(Insert(e, r), e.1) == [e] + WithValue(r, e.1)
  {
    if |r| > 0 {
      if r[0].1 <= e.1 {
        assert ([e] + r)[1..] == r;
      } else {
        var t := Insert(e, r[1..]);
        InsertWithOwnValue(e, r[1..]);
        assert ([r[0]] + t)[1..] == t;
      }
    }
  }

  lemma {:induction false} InsertWithOtherValue(e: Entry, r: OMap, v: real)
    requires e.1 != v
    ensures WithValue(Insert(e, r), v) == WithValue(r, v)
  {
    if |r| > 0 {
      if r[0].1 <= e.1 {
        assert ([e] + r)[1..] == r;
      } else {
        var t := Insert(e, r[1..]);
        InsertWithOtherValue(e, r[1..], v);
        assert ([r[0]] + t)[1..] == t;
      }
    }
  }

  /** The stored copy of a node's mapping: sorted by non-increasing value, the
      same entries, and every value class in its original order (stability). */
  function SortDesc(m: OMap): (s: OMap)
    ensures SortedDesc(s)
    ensures multiset(s) == multiset(m)
    ensures Total(s) == Total(m)
    ensures forall v :: WithValue(s, v) == WithValue(m, v)
  {
    if |m| == 0 then []
    else
      var t := SortDesc(m[1..]);
      assert m == [m[0]] + m[1..];
      InsertSorted(m[0], t);
      InsertTotal(m[0], t);
      assert forall v :: WithValue(Insert(m[0], t), v) == WithValue(m, v) by {
        forall v
          ensures WithValue(Insert(m[0], t), v) == WithValue(m, v)
        {
          InsertWithValue(m[0], t, v);
        }
      }
      Insert(m[0], t)
  }
}
