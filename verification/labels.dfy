/** Decoding of leaf labels of the form `<Genus>_<species>_<accession>_<location>`:
    the location code is the text after the last `_`, and the display name is
    the first field, a space, and the second field, computed with Python's
    `str.find` and slicing exactly as the analyzer does. */
module Labels {
  import opened Wrappers

  /** Python's `s.find(c)`: the index of the first `c`, or -1 when there is none. */
  function Find(s: string, c: char): (r: int)
    ensures -1 <= r < |s|
    ensures r == -1 <==> c !in s
    ensures r >= 0 ==> s[r] == c && c !in s[..r]
  {
    if |s| == 0 then -1
    else if s[0] == c then 0
    else
      var k := Find(s[1..], c);
      assert s[1..][..k + 1] == s[1..k + 2] by { if k >= 0 { assert k + 1 < |s|; } }
      if k == -1 then -1 else k + 1
  }

  /** Python's `s[:k]`, including the meaning of a negative bound
      (count from the end) and clamping to the string. */
  function PyPrefix(s: string, k: int): (r: string)
    ensures |r| <= |s| && r == s[..|r|]
    ensures 0 <= k <= |s| ==> r == s[..k]
    ensures -|s| <= k < 0 ==> r == s[..|s| + k]
  {
    if k >= 0 then (if k <= |s| then s[..k] else s)
    else if -k <= |s| then s[..|s| + k]
    else []
  }

  /** Python's `s[i]` for an index that may count from the end. */
  function PyIndex(s: string, i: int): char
    requires -|s| <= i < |s|
  {
    if i >= 0 then s[i] else s[|s| + i]
  }

  /** The position of the last `c` in `s`. */
  function LastIndex(s: string, c: char): (r: nat)
    requires c in s
    ensures r < |s| && s[r] == c && c !in s[r + 1..]
  {
    var n := |s| - 1;
    if s[n] == c then n
    else
      assert s == s[..n] + [s[n]];
      LastIndex(s[..n], c)
  }

  /** The backward scan of BiogeographyAnalyzer.py lines 25-27: the index starts at
      the last position and moves left until it reaches a `_`. Python's negative indices let the
      scan wrap around once; past `-len(name)` it raises IndexError, which is
      the `None` result. */
  method ScanLastUnderscore(name: string) returns (r: Option<nat>)
    ensures r.None? <==> '_' !in name
    ensures r.Some? ==> r.value < |name| && name[r.value] == '_' && '_' !in name[r.value + 1..]
    ensures r.Some? ==> name[r.value + 1..] == Location(name)
  {
    var index: int := |name| - 1;
    while true
      invariant -|name| - 1 <= index <= |name| - 1
      invariant index >= -1 ==> '_' !in name[index + 1..]
      invariant index < 0 ==> '_' !in name
      decreases index + |name| + 1
    {
      if index < -|name| {
        return None;
      }
      if PyIndex(name, index) == '_' {
        break;
      }
      index := index - 1;
    }
    r := Some(index);
    LastIndexUnique(name, index, LastIndex(name, '_'));
  }

  /** Only one position holds a `_` with none after it. */
  lemma LastIndexUnique(s: string, i: nat, j: nat)
    requires i < |s| && s[i] == '_' && '_' !in s[i + 1..]
    requires j < |s| && s[j] == '_' && '_' !in s[j + 1..]
    ensures i == j
  {
  }

  /** The location code of a leaf: everything after the last `_`. */
  function Location(name: string): (loc: string)
    requires '_' in name
    ensures '_' !in loc
    ensures |loc| < |name| && name[|name| - |loc| - 1] == '_'
    ensures name[|name| - |loc|..] == loc
  {
    name[LastIndex(name, '_') + 1..]
  }

  /** The display name of BiogeographyAnalyzer.py lines 33-35: the text before the
      first `_`, a space, then the text after it cut at the position that `find`
      reports for the next `_` (which is -1, "all but the last character", when
      there is no second `_`). */
  function DisplayName(name: string): string
    requires '_' in name
  {
    var space := Find(name, '_');
    var rest := name[space + 1..];
    name[..space] + " " + PyPrefix(rest, Find(rest, '_'))
  }

  lemma FindAfterField(field: string, tail: string)
    requires '_' !in field
    ensures Find(field + "_" + tail, '_') == |field|
  {
    var s := field + "_" + tail;
    assert s[|field|] == '_';
    assert s[..|field|] == field;
  }

  /** The location is exactly the last `_`-separated field, whatever precedes it. */
  lemma LocationOfLabel(prefix: string, loc: string)
    requires '_' !in loc
    ensures Location(prefix + "_" + loc) == loc
  {
    var s := prefix + "_" + loc;
    assert s[|prefix|] == '_';
    assert s[|prefix| + 1..] == loc;
  }

  /** A conventional label `Genus_species_accession_loc` is decoded into its
      display name and its location. */
  lemma ConventionalLabel(genus: string, species: string, accession: string, loc: string)
    requires '_' !in genus && '_' !in species && '_' !in loc
    ensures '_' in genus + "_" + species + "_" + accession + "_" + loc
    ensures DisplayName(genus + "_" + species + "_" + accession + "_" + loc) == genus + " " + species
    ensures Location(genus + "_" + species + "_" + accession + "_" + loc) == loc
  {
    var lbl := genus + "_" + species + "_" + accession + "_" + loc;
    assert lbl == genus + "_" + species + "_" + (accession + "_" + loc);
    DisplayNameOfLabel(genus, species, accession + "_" + loc);
    LocationOfLabel(genus + "_" + species + "_" + accession, loc);
    assert lbl[|genus|] == '_';
  }

  /** A label following the naming convention yields `Genus species`. */
  lemma DisplayNameOfLabel(genus: string, species: string, tail: string)
    requires '_' !in genus && '_' !in species
    ensures DisplayName(genus + "_" + species + "_" + tail) == genus + " " + species
  {
    var s := genus + "_" + species + "_" + tail;
    assert s == genus + "_" + (species + "_" + tail);
    FindAfterField(genus, species + "_" + tail);
    var rest := s[|genus| + 1..];
    assert rest == species + "_" + tail;
    FindAfterField(species, tail);
    assert s[..|genus|] == genus;
    assert rest[..|species|] == species;
  }

  /** With a single `_`, `find` on the remainder returns -1 and the slice
      `[:-1]` drops the last character of the second field. */
  lemma DisplayNameSingleUnderscore(genus: string, second: string)
    requires '_' !in genus && '_' !in second
    ensures DisplayName(genus + "_" + second)
            == genus + " " + (if |second| == 0 then "" else second[..|second| - 1])
  {
    var s := genus + "_" + second;
    FindAfterField(genus, second);
    assert s[..|genus|] == genus;
    assert s[|genus| + 1..] == second;
  }

  /** The location code of a conventional label. */
  lemma PantheraLocation()
    ensures Location("Panthera_leo_AB123_AF") == "AF"
  {
    assert "Panthera_leo_AB123_AF" == "Panthera_leo_AB123" + "_" + "AF";
    LocationOfLabel("Panthera_leo_AB123", "AF");
  }
}
