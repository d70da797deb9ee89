# Biogeography analyzer: a Dafny model of `get_biogeography`

The analyzer reconstructs ancestral locations on a phylogenetic tree. Each
leaf label is `<Genus>_<species>_<accession>_<location>`. A leaf has
probability 1 of coming from its location. An internal node averages its
children's mappings with equal weight per child and rounds every value to
two decimals. It stores a copy sorted by descending probability and returns
the unsorted mapping to its parent. Two small functions then pick a node
colour from a mapping.

The model has these modules:

- `Labels` (`labels.dfy`): leaf-label decoding. Python's `str.find`,
  negative slicing, negative indexing and the backward scan for the last
  `_` are written out explicitly.
- `OrderedMaps` (`ordered_maps.dfy`): Python dicts as association lists
  that keep insertion order.
- `Rounding` (`rounding.dfy`): two-decimal rounding, ties to even, on exact
  reals.
- `StableSort` (`stable_sort.dfy`): the stable sort by non-increasing value.
- `Propagation` (`propagation.dfy`): an immutable ete3-style tree
  `Tree(name, children)` (a node without children is a leaf), the
  propagation `Biogeo(t, rnd)`, and the annotated tree that models the
  in-place `biogeo` feature and leaf renaming.
- `Colors` (`colors.dfy`): `get_color` and `get_color_broad`, with the
  palette as a parameter.

Probabilities are `real`, so arithmetic is exact. The rounding function is a
parameter of the propagation:

- `Biogeo(t, Round2)` is what the analyzer computes.
- `Biogeo(t, Identity)` is the same propagation without rounding.

At its edges the code behaves as follows:

- A label fails only when it has no `_` at all. The backward scan then runs
  off the front of the string and Python raises IndexError. Labels with one
  or two `_` are accepted. A label with a single `_` gets a display name
  that drops the last character of its second field (`DisplayNameSingleUnderscore`).
- ete3 has no "internal node without children": such a node is a leaf.
- After rounding, the values do not always sum to within 0.01 of 1. Six
  leaves of six different locations give 6 × 0.17 = 1.02 (`SixWayDrift`).
  What does hold is a bound that grows with height and leaf count
  (`RoundedDrift`). The exact propagation sums to 1 at every node.

## Model

| member | source | states |
|---|---|---|
| Labels.DisplayName | BiogeographyAnalyzer.py:33-35 | the renaming of a leaf: first field, a space, then `rest[:rest.find('_')]`; its meaning is stated by `Labels.DisplayNameOfLabel` (two or more `_`) and `Labels.DisplayNameSingleUnderscore` (exactly one) |
| Labels.Find | BiogeographyAnalyzer.py:33-34 | `str.find`: -1 exactly when the character is absent; otherwise the index of a match with no match before it |
| Labels.PyPrefix | BiogeographyAnalyzer.py:35 | Python's `s[:k]` is a prefix of `s`; a non-negative bound cuts at `k`, a negative one counts from the end |
| Labels.LastIndex | BiogeographyAnalyzer.py:25-27 | the position found is a `_` and no `_` follows it |
| Labels.ScanLastUnderscore | BiogeographyAnalyzer.py:25-27 | the backward scan, including Python's wrap-around to negative indices, fails (IndexError) exactly when the label has no `_`; otherwise it stops at the last `_`, and the text after it is the leaf's location |
| Labels.Location | BiogeographyAnalyzer.py:25-30 | the location contains no `_`, is a suffix of the label, and is preceded by a `_` |
| Labels.LocationOfLabel | BiogeographyAnalyzer.py:25-30 | for any prefix, the location of `prefix_loc` is `loc` when `loc` has no `_` |
| Labels.DisplayNameOfLabel | BiogeographyAnalyzer.py:33-35 | a label with at least two `_` is renamed to its first field, one space, and its second field, whatever follows |
| Labels.DisplayNameSingleUnderscore | BiogeographyAnalyzer.py:33-35 | with exactly one `_`, `find` returns -1 and the `[:-1]` slice drops the last character of the second field |
| Labels.ConventionalLabel | BiogeographyAnalyzer.py:24-35 | a label `Genus_species_accession_loc` with no `_` inside genus, species or location is accepted, its location is `loc` and its display name is `Genus species` |
| Labels.PantheraLocation | BiogeographyAnalyzer.py:24-30 | the location of `Panthera_leo_AB123_AF` is `AF` |
| OrderedMaps.Add | BiogeographyAnalyzer.py:47-50 | one `d[k] += v` / `d[k] = v` step; stated by `AddKeys` (a present key keeps its place, a fresh key is appended), `AddGet` (only `k` grows, by `v`) and `AddTotal` (the total grows by `v`) |
| OrderedMaps.AddAll | BiogeographyAnalyzer.py:46-50 | the inner loop over one child's entries; stated by `OrderedMaps.AddAllKeys`, `OrderedMaps.AddAllGet`, `OrderedMaps.AddAllTotal` and `OrderedMaps.AddAllFresh` below |
| OrderedMaps.AddAllKeys | BiogeographyAnalyzer.py:46-50 | accumulating one child appends its keys not yet present, in the child's order; present keys keep their place |
| OrderedMaps.AddAllGet | BiogeographyAnalyzer.py:46-50 | after accumulating one child, each key's value has grown by the child's value divided by the number of children; absent keys grow by 0 |
| OrderedMaps.AddAllTotal | BiogeographyAnalyzer.py:46-50 | accumulating one child adds the child's total divided by the number of children |
| OrderedMaps.AddAllFresh | BiogeographyAnalyzer.py:41-50 | with one child and no shared keys, accumulation appends the child's entries unchanged |
| OrderedMaps.GetEntry | BiogeographyAnalyzer.py:46-48 | in a map with distinct keys, looking up an entry's key gives that entry's value |
| OrderedMaps.AppendNewDedup | BiogeographyAnalyzer.py:44-50 | appending the first occurrences of a sequence has the same effect as appending the whole sequence |
| OrderedMaps.DedupSpec | BiogeographyAnalyzer.py:44-50 | first-occurrence order lists every element exactly once and nothing else |
| Rounding.Round2 | BiogeographyAnalyzer.py:53-54 | the result is within 0.005 of the input and has at most two decimals; a value with at most two decimals is unchanged; [0, 1] maps into [0, 1] |
| Rounding.RoundSixth | BiogeographyAnalyzer.py:53-54 | 1/6 rounds to 0.17, the value behind the six-way drift |
| Rounding.RoundTwoThirds | BiogeographyAnalyzer.py:53-54 | 2/3 rounds to 0.67 and 1/3 to 0.33 |
| StableSort.Insert | BiogeographyAnalyzer.py:57 | one insertion step of the stable sort: the result holds the old entries plus the new one; sortedness and stability are `StableSort.InsertSorted`, `StableSort.InsertWithOwnValue` and `StableSort.InsertWithOtherValue` |
| StableSort.SortDesc | BiogeographyAnalyzer.py:56-57 | the stored copy is sorted by non-increasing value and is a permutation of the mapping with the same total; entries of equal value keep their original relative order (stable) |
| StableSort.InsertWithValue | BiogeographyAnalyzer.py:57 | an inserted entry comes first among entries of equal value, which is what makes the sort stable |
| StableSort.InsertWithOwnValue | BiogeographyAnalyzer.py:57 | among the entries whose value equals the inserted entry's, the inserted entry comes first and the others keep their order |
| StableSort.InsertWithOtherValue | BiogeographyAnalyzer.py:57 | inserting an entry leaves the ordered list of entries of every other value unchanged |
| StableSort.InsertSorted | BiogeographyAnalyzer.py:57 | inserting into a sorted mapping keeps it sorted |
| Propagation.RoundValues | BiogeographyAnalyzer.py:53-54 | the rounded mapping has the same keys in the same order, and looking up any of its keys gives the rounding of the value it had before |
| Propagation.Aggregate | BiogeographyAnalyzer.py:40-50 | the accumulation over all children, each weighted `1 / num_child`; stated by `Propagation.AggregateKeys`, `Propagation.AggregateValue`, `Propagation.AggregateNormalised`, `Propagation.AggregateSingle` and `Propagation.AggregateWithin` below |
| Propagation.AggregateKeys | BiogeographyAnalyzer.py:40-50 | the parent's keys are the children's keys, each once, in first-encountered order; the parent's key set is exactly the union of the children's key sets |
| Propagation.AggregateValue | BiogeographyAnalyzer.py:40-50 | before rounding, each key's value is the sum over children of `child[key] / num_child`, so shared keys accumulate instead of being overwritten |
| Propagation.AggregateNormalised | BiogeographyAnalyzer.py:41-50 | if every child's values sum to 1, so do the parent's values before rounding |
| Propagation.AggregateSingle | BiogeographyAnalyzer.py:41-50 | with a single child, the parent's mapping before rounding equals the child's |
| Propagation.AggregateWithin | BiogeographyAnalyzer.py:41-50 | averaging never moves the total further from 1 than the furthest child |
| Propagation.Biogeo | BiogeographyAnalyzer.py:14-58 | the mapping `get_biogeography` returns; stated by `Propagation.LeafMapping`, `Propagation.BiogeoKeys`, `Propagation.ExactNormalised`, `Propagation.RoundedDrift`, `Propagation.RoundedOnGrid` and `Propagation.BiogeoInUnit` below |
| Propagation.LeafMapping | BiogeographyAnalyzer.py:22-37 | a leaf's mapping has exactly one entry: its location, with value 1 |
| Propagation.BiogeoKeys | BiogeographyAnalyzer.py:22-58 | for any rounding, a node's keys are the locations of the leaves below it, once each, in left-to-right order of first occurrence |
| Propagation.ExactNormalised | BiogeographyAnalyzer.py:22-58 | without rounding, every node's values sum to exactly 1 |
| Propagation.RoundedOnGrid | BiogeographyAnalyzer.py:53-58 | every value the analyzer returns has at most two decimals |
| Propagation.SingleChildExact | BiogeographyAnalyzer.py:41-58 | without rounding, a node with one child returns the child's mapping unchanged |
| Propagation.SingleChildRounded | BiogeographyAnalyzer.py:41-58 | with the analyzer's rounding, a node with one child also returns the child's mapping unchanged, since re-rounding two-decimal values is a no-op |
| Propagation.BiogeoInUnit | BiogeographyAnalyzer.py:22-58 | for any rounding that maps [0, 1] into itself, every value at every node lies in [0, 1] |
| Propagation.RoundedInUnit | BiogeographyAnalyzer.py:22-58 | every value the analyzer returns lies in [0, 1] |
| Propagation.RoundedDrift | BiogeographyAnalyzer.py:40-58 | with the analyzer's rounding, a node's total is within height × leaves / 200 of 1 |
| Propagation.FlatSplit | BiogeographyAnalyzer.py:40-58 | n leaves with pairwise different locations under one node each get the rounding of 1/n, in child order |
| Propagation.BinarySplit | BiogeographyAnalyzer.py:40-58 | two leaves with different locations give 0.5 and 0.5 |
| Propagation.ThreeWaySplit | BiogeographyAnalyzer.py:40-58 | three leaves, two sharing a location, give 0.67 for the shared location and 0.33 for the other, in first-encountered order |
| Propagation.SixWayDrift | BiogeographyAnalyzer.py:52-54 | six leaves with six different locations give a root total of 1.02, not 1 |
| Propagation.Annotate | BiogeographyAnalyzer.py:30-57 | the annotated node has the tree's shape; its stored mapping is sorted by non-increasing probability, has the same entries as the returned mapping, and keeps equal values in insertion order |
| Propagation.AnnotateLeaf | BiogeographyAnalyzer.py:29-37 | a conventional leaf `G_s_acc_loc` is renamed `G s` and stores `{loc: 1}` |
| Propagation.AnnotatedSorted | BiogeographyAnalyzer.py:56-57 | every node of the annotated tree stores a mapping sorted by non-increasing probability |
| Propagation.AnnotatedExactNormalised | BiogeographyAnalyzer.py:56-57 | without rounding, every stored mapping in the annotated tree sums to 1 |
| Colors.SelectLocation | BiogeographyAnalyzer.py:66-71 | the selected key belongs to the first entry holding the greatest value; if no value exceeds 0, the key stays `''` |
| Colors.GetColor | BiogeographyAnalyzer.py:66-72 | the colour is the palette's colour for the first most probable location, or for `''` when no probability is positive |
| Colors.FirstMaxUnique | BiogeographyAnalyzer.py:66-71 | at most one entry can be the first maximum, so the selection is determined |
| Colors.GetColorBroad | BiogeographyAnalyzer.py:74-97 | the palette's colour for the winning broad region; which region wins is stated by `Colors.BroadRegion` and `Colors.LookupThree` |
| Colors.LookupThree | BiogeographyAnalyzer.py:95-96 | a three-entry dict literal keyed by scores gives the value of the last entry whose score matches |
| Colors.BroadRegion | BiogeographyAnalyzer.py:82-96 | the winner is one of asian-pacific, americas and africa; its score (SEA+OC, SA+NA, AF+MAD, absent codes counting 0) is the maximum, and every group after it in that order scores strictly less, so ties go to the later group |

## Left out

- Tree loading, ladderizing, the ete3 node API, `color_nodes`, node and tree
  styles, and the GUI (BiogeographyAnalyzer.py:99-136). These are file I/O,
  foreign library calls and rendering. The in-place `add_feature` and renaming
  are modelled as the pure `Propagation.Annotate`.
- Binary floating point. Values are exact reals. `Rounding.Round2` rounds the
  exact value half-to-even, as Python does for an exactly representable value.
  A decimal such as 0.675 has no exact binary form, so Python may round it the
  other way.
- The concrete `NODE_COLORS` palette and its KeyError for an unknown key
  (including `''` when no probability is positive). The palette is a total
  function passed in as a parameter.
- Labels without any `_`. `Propagation.Biogeo` requires every leaf label to
  contain `_`. Such a label makes Python raise IndexError and abort the whole
  call, which `Labels.ScanLastUnderscore` models by returning `None`.
- The integer `1` a leaf returns versus the floats of internal nodes. Both are
  the real 1.0 here.
- Recursion depth and stack limits of very deep trees.
