/** Colour selection from a node's mapping (BiogeographyAnalyzer.py lines 60-97). The palette
    `NODE_COLORS` is a parameter: any total map from key to colour. */
module Colors {
  import opened Wrappers
  import opened OrderedMaps

  /** Entry `i` has a positive value that no entry exceeds and that every
      earlier entry falls short of: the entry a strict `>` scan ends on. */
  predicate IsFirstMax(m: OMap, i: int)
  {
    && 0 <= i < |m|
    && m[i].1 > 0.0
    && (forall j :: 0 <= j < |m| ==> m[j].1 <= m[i].1)
    && (forall j :: 0 <= j < i ==> m[j].1 < m[i].1)
  }

  /** At most one entry is the first maximum. */
  lemma FirstMaxUnique(m: OMap, i: int, j: int)
    requires IsFirstMax(m, i) && IsFirstMax(m, j)
    ensures i == j
  {
  }

  /** Lines 66-71: `max` starts at 0 and `loc` at `''`; each entry whose value
      is strictly greater than `max` becomes the selection. `best` is the index
      of the selected entry, or -1 when no value exceeds 0. */
  method SelectLocation(m: OMap) returns (loc: string, best: int)
    ensures best == -1 <==> forall j :: 0 <= j < |m| ==> m[j].1 <= 0.0
    ensures best != -1 ==> IsFirstMax(m, best) && loc == m[best].0
    ensures best == -1 ==> loc == ""
  {
    var max := 0.0;
    loc := "";
    best := -1;
    var i := 0;
    while i < |m|
      invariant 0 <= i <= |m|
      invariant -1 <= best < i
      invariant best == -1 ==> max == 0.0 && loc == "" && forall j :: 0 <= j < i ==> m[j].1 <= 0.0
      invariant best != -1 ==> max == m[best].1 && max > 0.0 && loc == m[best].0
      invariant best != -1 ==> forall j :: 0 <= j < i ==> m[j].1 <= max
      invariant best != -1 ==> forall j :: 0 <= j < best ==> m[j].1 < max
    {
      if m[i].1 > max {
        loc := m[i].0;
        max := m[i].1;
        best := i;
      }
      i := i + 1;
    }
  }

  /** `get_color`: the colour of the first most probable location, or of `''`
      when no probability is positive. */
  method GetColor(m: OMap, palette: string -> string) returns (color: string)
    ensures (forall j :: 0 <= j < |m| ==> m[j].1 <= 0.0) ==> color == palette("")
    ensures (exists j :: 0 <= j < |m| && m[j].1 > 0.0) ==>
              exists i :: IsFirstMax(m, i) && color == palette(m[i].0)
  {
    var loc, best := SelectLocation(m);
    color := palette(loc);
  }

  /** The broad regions, in the order of the dict literal of line 95. */
  const Groups: seq<string> := ["asian-pacific", "americas", "africa"]

  /** Lines 82-92: the broad scores SEA+OC, SA+NA and AF+MAD, an absent code counting 0. */
  function GroupScores(m: OMap): (s: seq<real>)
    ensures |s| == |Groups|
  {
    [Get(m, "SEA") + Get(m, "OC"), Get(m, "SA") + Get(m, "NA"), Get(m, "AF") + Get(m, "MAD")]
  }

  /** Lookup in a dict built from a literal: when keys repeat, the last value
      written under the key is the one kept. */
  function DictLookup(entries: seq<(real, string)>, key: real): Option<string>
  {
    if |entries| == 0 then None
    else if entries[|entries| - 1].0 == key then Some(entries[|entries| - 1].1)
    else DictLookup(entries[..|entries| - 1], key)
  }

  function Max3(a: real, b: real, c: real): real
  {
    var ab := if b > a then b else a;
    if c > ab then c else ab
  }

  /** Looking up a three-entry literal checks the entries from the last one back. */
  lemma LookupThree(entries: seq<(real, string)>, key: real)
    requires |entries| == 3
    ensures DictLookup(entries, key)
            == if entries[2].0 == key then Some(entries[2].1)
               else if entries[1].0 == key then Some(entries[1].1)
               else if entries[0].0 == key then Some(entries[0].1)
               else None
  {
    var two := entries[..2];
    var one := two[..1];
    assert two[1] == entries[1] && one[0] == entries[0];
    assert one[..0] == [];
    assert DictLookup(one, key) == if entries[0].0 == key then Some(entries[0].1) else DictLookup([], key);
    assert DictLookup(two, key) == if entries[1].0 == key then Some(entries[1].1) else DictLookup(one, key);
  }

  /** Lines 95-96: the group with the highest score, where equal scores
      collapse onto one dict key and the later group in `Groups` wins. */
  function BroadRegion(m: OMap): (r: string)
    ensures r in Groups
    ensures forall w :: 0 <= w < |Groups| && Groups[w] == r ==>
              && (forall j :: 0 <= j < |Groups| ==> GroupScores(m)[j] <= GroupScores(m)[w])
              && (forall j :: w < j < |Groups| ==> GroupScores(m)[j] < GroupScores(m)[w])
  {
    var s := GroupScores(m);
    var entries := [(s[0], Groups[0]), (s[1], Groups[1]), (s[2], Groups[2])];
    LookupThree(entries, Max3(s[0], s[1], s[2]));
    DictLookup(entries, Max3(s[0], s[1], s[2])).value
  }

  /** `get_color_broad`. */
  function GetColorBroad(m: OMap, palette: string -> string): string
  {
    palette(BroadRegion(m))
  }
}
