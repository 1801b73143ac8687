# Phase diagram construction (pymatgen `pdmaker`), modelled in Dafny

This project models the bookkeeping half of pymatgen's `PhaseDiagram` and
`GrandPotentialPhaseDiagram` (pymatgen/phasediagram/pdmaker.py). It covers:

- the choice of elemental references;
- formation energies measured against those references;
- the filter that decides which entries enter the convex hull, and the hull
  input rows built from them;
- the filter that removes vertical and all-element facets from the hull
  backend's output;
- the stable and unstable entry sets;
- the preprocessing of the grand potential diagram, which drops pure entries
  of open elements and removes open elements from the basis.

Energies, amounts and fractions are Dafny `real`, so the arithmetic is exact.
An element is identified by its atomic number. The model uses ascending
atomic number only for its own deterministic choices: the order of sums and
the order in which references are appended. The order Python's `sorted`
gives elements is a parameter (`ElementRank`). A composition is
a map from elements to amounts above the amount tolerance (1e-8). An entry is a record of an identity
(standing for Python object identity), a composition and a total energy.

The convex-hull routine is a parameter of type
`seq<seq<real>> -> seq<seq<nat>>`. It stands for scipy's `Delaunay` or the
external `qconvex` program, and it is total: it always returns facets. The grand-potential wrapper `GrandPotPDEntry` is
also a parameter. The verticality determinant is computed exactly, by
cofactor expansion, on the facet matrix whose last column is set to one. The
two thresholds keep the source's values: 1e-11 for formation energy and
1e-8 for verticality.

Error paths are modelled as values, not exceptions:

- A `KeyError` for an element without a reference becomes
  `Failure(MissingReference(entry))`. Like the source, the model reports the
  first entry, in input order, that lacks a reference.
- A facet of the wrong length (numpy raises while filling the facet
  matrix) or with an out-of-range vertex (the Python list lookup of its hull
  row raises `IndexError`) becomes `Failure(MalformedFacet(facet))`. When
  every element has a reference, this is the only error construction can
  report.

Files:

| file | module | contents |
|---|---|---|
| compositions.dfy | Compositions | elements, compositions, ordered sums, `num_atoms`, `get_atomic_fraction` |
| entries.dfy | Entries | entries, energy per atom, pure-element entries |
| results.dfy | Results | `Result` and `Option`, and the build errors |
| sequences.dfy | Sequences | order-preserving subsequences, `range(n)` |
| references.dfy | References | elemental references, formation energy |
| hull_data.dfy | HullData | hull-entry filter, hull input rows |
| facets.dfy | Facets | determinant, verticality, facet filter, facet vertices |
| phase_diagrams.dfy | PhaseDiagrams | the whole construction, stable and unstable entries |
| grand_potential.dfy | GrandPotential | grand-potential preprocessing |

## Model

| member | source | states |
|---|---|---|
| Compositions.SumRemove | pymatgen/phasediagram/pdmaker.py:189 | a sum over a composition splits off any one element's value, so the number of atoms, summed here in ascending atomic-number order, does not depend on that order |
| Compositions.NumAtoms | pymatgen/phasediagram/pdmaker.py:189 | the number of atoms of a well-formed composition is positive, so energies per atom are defined |
| Compositions.AmountAtMostNumAtoms | pymatgen/phasediagram/pdmaker.py:209 | no element has more atoms than the whole formula, which keeps every atomic fraction of a hull row at most one |
| Compositions.AtomicFraction | pymatgen/phasediagram/pdmaker.py:209 | an atomic fraction lies in [0, 1], is positive exactly for the elements present, and multiplied by the number of atoms gives back the element's amount |
| Entries.EnergyPerAtomScales | pymatgen/phasediagram/pdmaker.py:206 | energy per atom times the number of atoms is the entry's energy |
| Entries.PureMeansOneSignificant | pymatgen/phasediagram/pdmaker.py:234-237 | an entry is pure exactly when one element has an amount above the amount tolerance, and then that element is the entry's sole element, the one the tolerance loop stops at |
| Entries.PureNumAtoms | pymatgen/phasediagram/pdmaker.py:234-238 | a pure entry's number of atoms is the amount of its single element |
| References.ElRefs | pymatgen/phasediagram/pdmaker.py:232-242 | the references cover exactly the elements that have a pure entry; each reference is a pure entry of its element taken from the input; no pure entry of that element is lower in energy per atom; every pure entry of that element before the chosen one is strictly higher, so the earliest entry wins a tie |
| References.LowestPure | pymatgen/phasediagram/pdmaker.py:232-242 | the scan, for any ranking of entries, keeps for each element with a pure entry one such entry from the input, of lowest rank, and the earliest of those |
| References.RecordLowest | pymatgen/phasediagram/pdmaker.py:239-242 | one step of the scan (insert when absent, replace on strictly greater energy per atom) keeps every reference at or below all pure entries seen so far |
| References.RecordEarliest | pymatgen/phasediagram/pdmaker.py:241-242 | one step of the scan keeps each reference ahead of every pure entry of its element with equal energy per atom |
| References.FormEnergy | pymatgen/phasediagram/pdmaker.py:160-174 | the formation energy exists exactly when every element of the entry has a reference; otherwise the result is the missing-reference error for that entry |
| References.FormEnergyPerAtom | pymatgen/phasediagram/pdmaker.py:176-189 | the per-atom formation energy fails exactly when the formation energy does, and times the number of atoms gives the formation energy |
| References.ReferenceFormEnergyIsZero | pymatgen/phasediagram/pdmaker.py:172-174 | an elemental reference has formation energy exactly zero |
| References.PureFormEnergy | pymatgen/phasediagram/pdmaker.py:172-174 | a pure entry's formation energy is its energy less its atoms at the reference energy per atom |
| References.PureAboveReference | pymatgen/phasediagram/pdmaker.py:172-174 | a pure entry no lower in energy per atom than its reference has non-negative formation energy |
| References.PureFormEnergyNonNegative | pymatgen/phasediagram/pdmaker.py:232-247 | with references chosen from the entries, no pure input entry has negative formation energy |
| References.FormEnergyLocal | pymatgen/phasediagram/pdmaker.py:173 | the formation energy depends only on the references of the entry's own elements |
| HullData.NegativeFormationEntries | pymatgen/phasediagram/pdmaker.py:244-249 | the kept entries form an order-preserving subsequence of the input and are exactly the entries with formation energy at most -1e-11, each kept as many times as it occurs in the input; the result is a failure exactly when some entry lacks a reference, and then it names the first such entry, as the source's loop raises on it |
| HullData.ReferenceList | pymatgen/phasediagram/pdmaker.py:250 | the appended references list each reference once and nothing else |
| HullData.HullInput | pymatgen/phasediagram/pdmaker.py:243-252 | the hull entries are the kept input entries in input order followed by the references; the input entries among them are exactly those at or below -1e-11, each with its input multiplicity; failure means some entry lacks a reference |
| HullData.HullEntryKind | pymatgen/phasediagram/pdmaker.py:243-252 | a hull entry that is not a reference is an input entry with formation energy at most -1e-11 |
| HullData.ReferencesAvailableMeansCovered | pymatgen/phasediagram/pdmaker.py:232-246 | every entry has a reference for each of its elements exactly when every element that occurs has some pure entry |
| HullData.QhullEntriesFromOwnReferences | pymatgen/phasediagram/pdmaker.py:232-252 | with references taken from the entries, the hull input exists exactly when every occurring element has a pure entry, and it contains only input entries |
| HullData.HullRow | pymatgen/phasediagram/pdmaker.py:203-211 | a row has `dim` cells (one cell, the energy, for an empty basis); cell i-1 is the atomic fraction of `elements[i]` for i >= 1; the last cell is the energy per atom; the fractions lie in [0, 1] |
| HullData.HullRows | pymatgen/phasediagram/pdmaker.py:203-212 | the rows match the entries one to one and in order |
| Facets.Det2 | pymatgen/phasediagram/pdmaker.py:286 | the determinant of a 2x2 matrix is ad - bc |
| Facets.FacetMatrix | pymatgen/phasediagram/pdmaker.py:277-283 | the facet matrix has one row per vertex, copies that vertex's hull row, and has ones in the last column |
| Facets.FilterFacets | pymatgen/phasediagram/pdmaker.py:275-290 | the surviving facets are an order-preserving subsequence of the backend's facets; a facet survives exactly when it is not vertical (abs(det) > 1e-8) and some vertex has more than one element, and then every copy of it survives |
| Facets.BinaryVerticalFacet | pymatgen/phasediagram/pdmaker.py:277-286 | in a two-element diagram, a facet is vertical exactly when its two vertices' fractions differ by at most 1e-8 |
| Facets.VerticalIgnoresEnergy | pymatgen/phasediagram/pdmaker.py:281-282 | the verticality test does not depend on the energy column |
| Facets.VertexEntries | pymatgen/phasediagram/pdmaker.py:292-295 | the stable set contains the entry of every vertex of every surviving facet, and only hull entries |
| PhaseDiagrams.Triangulate | pymatgen/phasediagram/pdmaker.py:260-290 | with exactly `dim` hull rows the facets are `[range(dim)]`; otherwise they are the backend's facets, filtered, with every copy of a kept facet. The result is a failure exactly when some backend facet is malformed, and it then names a backend facet that does not index `dim` hull rows. Every vertex indexes a hull entry |
| PhaseDiagrams.Build | pymatgen/phasediagram/pdmaker.py:68-78 | construction succeeds exactly when every occurring element has a pure entry and the backend's facets are well formed; a missing reference reports an input entry. On success the diagram is consistent: rows match hull entries, vertices index hull entries, stable entries are hull entries, and hull entries are input entries |
| PhaseDiagrams.BuildFailure | pymatgen/phasediagram/pdmaker.py:243-290 | a failed construction reports the first entry, in input order, that lacks a reference; when every element has a reference it reports a malformed facet, which is one the backend returned and which does not index `dim` hull rows |
| PhaseDiagrams.SingleSimplex | pymatgen/phasediagram/pdmaker.py:262-263 | when there are exactly `dim` hull rows, the only facet is `range(dim)` and the stable entries are exactly the hull entries |
| PhaseDiagrams.SimplexVertices | pymatgen/phasediagram/pdmaker.py:292-295 | the vertex entries of the single simplex are all the hull entries |
| PhaseDiagrams.UnstableEntries | pymatgen/phasediagram/pdmaker.py:128-134 | the unstable entries are the input entries, in order, that are not stable, each with its input multiplicity |
| PhaseDiagrams.StableUnstablePartition | pymatgen/phasediagram/pdmaker.py:128-134 | every input entry is stable or unstable, and never both |
| PhaseDiagrams.HullEntriesAreReferencesOrNegative | pymatgen/phasediagram/pdmaker.py:244-252 | every hull entry is either a reference or an entry with formation energy at most -1e-11, never both |
| PhaseDiagrams.PureHullEntriesAreReferences | pymatgen/phasediagram/pdmaker.py:232-252 | a pure-element hull entry is always its element's reference |
| PhaseDiagrams.PureHullEntries | pymatgen/phasediagram/pdmaker.py:244-252 | when the references are pure entries of their elements and no pure input entry is a hull candidate, the only pure hull entries are the references |
| GrandPotential.ClosedEntries | pymatgen/phasediagram/pdmaker.py:354-357 | an entry is dropped exactly when it is a pure entry of an open element; the others are kept in order |
| GrandPotential.ClosedEntriesMultiplicity | pymatgen/phasediagram/pdmaker.py:354-357 | every copy of a kept entry survives the filter, and no copy of a dropped one |
| GrandPotential.GrandEntries | pymatgen/phasediagram/pdmaker.py:354-357 | each kept entry yields exactly one wrapped entry, in input order |
| GrandPotential.ClosedElements | pymatgen/phasediagram/pdmaker.py:359-362 | the closed elements are the given elements that are not open, in order and with their multiplicity |
| GrandPotential.SortElements | pymatgen/phasediagram/pdmaker.py:363 | the sorted basis is ordered by the element rank and is a rearrangement of its input |
| GrandPotential.GrandElements | pymatgen/phasediagram/pdmaker.py:359-363 | the basis is sorted by rank and contains each closed element as often as it was given, and no open element |
| GrandPotential.BuildGrand | pymatgen/phasediagram/pdmaker.py:351-364 | the grand diagram is built exactly when every element of the wrapped entries has a pure wrapped entry as reference and the backend's facets are readable; otherwise a missing reference names a wrapped entry. A built diagram keeps the chemical potentials and is consistent; its basis is the closed elements sorted by rank, each as often as given, and no open element; its entries are the wrapped entries of the inputs that are not pure entries of open elements, one each and in input order; and it is the ordinary diagram built from those entries over that basis, so its references, hull input, facets and stable entries are those of the ordinary construction |
| GrandPotential.ClosedEntriesAppend | pymatgen/phasediagram/pdmaker.py:355-357 | the open-entry filter judges each entry on its own, so it distributes over concatenation |
| GrandPotential.ClosedEntriesIdempotent | pymatgen/phasediagram/pdmaker.py:355-357 | filtering twice drops nothing more |

## Left out

- Hull backends: scipy's `Delaunay` and the external `qconvex` call (pymatgen/phasediagram/pdmaker.py:265-271) are foreign code and a subprocess. The model takes the backend as a total function parameter and proves nothing about its geometry. Their own failures are therefore not modelled: `Delaunay` raising on too few or degenerate rows (for example fewer than dim + 1 rows when an element has no entry of its own), and a failing `qconvex` call.
- Floating point: numpy's LU-based determinant and IEEE rounding are replaced by an exact cofactor determinant over reals. Comparisons against 1e-8 and 1e-11 therefore hold exactly, with no rounding error.
- `GrandPotPDEntry`: its energy formula lives in a file that is not part of this model. The wrapper is a parameter.
- GrandPotential.GrandEntries: the wrapper is a function, so two copies of the same input entry wrap to the same value, where pymatgen creates a distinct `GrandPotPDEntry` object for each (pymatgen/phasediagram/pdmaker.py:357). With the same pure entry given twice and another element open, pymatgen keeps the first wrapped copy as the reference and lists the second as unstable; the model's two copies are one value, so it lists neither as unstable.
- GrandPotential.BuildGrand: the wrapper returns an `Entry`, whose composition has at least one element. A non-pure entry made only of open elements (Li2O with Li and O both open) would get an empty composition in pymatgen, and its energy per atom and atomic fractions would divide by zero (pymatgen/phasediagram/pdmaker.py:206, 209). The model cannot express that case and does not model the resulting `ZeroDivisionError`.
- Element-set inference: when `elements` is `None`, the source gathers the elements through a `map` side effect into a set whose iteration order is unspecified (pymatgen/phasediagram/pdmaker.py:68-70, 351-353). The model always takes `elements` as a given sequence.
- Element ordering: the comparison Python's `sorted` applies to elements (pymatgen/phasediagram/pdmaker.py:363) is defined by pymatgen's `Element` class, which is not part of this model. The model takes it as a rank parameter. The rank decides `elements[0]`, the element whose fraction every hull row leaves implicit, and so the columns of `qhullData`. Python's sort is stable; the contracts do not state how ties are ordered.
- Order of `el_refs.values()`: Python 2 dict order is unspecified. The references are appended in ascending atomic-number order, and the contracts about the hull input speak about membership in the appended block, not its order.
- Facets of the wrong shape: the source fills a k x k numpy matrix from a facet of length k. With a one-element or empty basis a hull row has at most one cell, which numpy broadcasts across the k-wide matrix row instead of raising. An out-of-range vertex raises `IndexError` from the Python list lookup `self._qhull_data[vertex]`. The model reports every facet that is not empty and not of length `dim` with in-range vertices as `MalformedFacet`. An empty facet is dropped, as in the source, because the determinant of the 0x0 matrix is one and the facet counts as all-element.
- `Composition.amount_tolerance` (pymatgen/phasediagram/pdmaker.py:235-237): a well-formed composition holds only amounts above the tolerance (1e-8), so the model does not represent an element present in negligible amount. `Composition` itself is not part of this model; the model assumes a composition with one significant amount has one key, as the tolerance loop at pymatgen/phasediagram/pdmaker.py:234-237 presumes when it looks for that amount inside an `is_element` composition. Under that assumption the tolerance loop stops at the sole element (`Entries.PureMeansOneSignificant`) and is not modelled step by step.
- `CompoundPhaseDiagram` and its helpers: they rely on matrix inversion, rounding and a reaction-balancing routine. They also use names that the file never imports.
- Logging, `__str__`/`__repr__`, the `all_entries_hulldata` property and the `use_external_qhull` flag: these are output or a backend switch, and have no bookkeeping content.
- References.ReferenceEnergy: the sum runs in ascending atomic-number order, where the source follows dict order. `Compositions.SumRemove` shows that the order does not matter for a plain sum; the same statement for the reference-weighted sum is not proved.
- Facets.VertexEntries: its contract states that the set contains every vertex entry and only hull entries. That the set holds nothing except vertex entries is stated separately by `Facets.VertexEntriesExact`.
