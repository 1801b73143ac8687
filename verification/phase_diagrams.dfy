/** Construction of a phase diagram (pymatgen/phasediagram/pdmaker.py,
    `PhaseDiagram.__init__`, `_make_phasediagram` and the
    `unstable_entries` property).

    The hull computation itself (scipy's Delaunay triangulation or the
    external qconvex program) is a parameter: a function from the hull
    input rows to index tuples into those rows. */
module PhaseDiagrams {
  import opened Compositions
  import opened Entries
  import opened Results
  import opened Sequences
  import opened References
  import opened HullData
  import opened Facets

  datatype PhaseDiagram = PhaseDiagram(
    elements: seq<Element>,
    allEntries: seq<Entry>,
    elRefs: map<Element, Entry>,
    qhullEntries: seq<Entry>,
    qhullData: seq<seq<real>>,
    facets: seq<seq<nat>>,
    stableEntries: set<Entry>)

  /** The convex-hull routine: rows in, facets (row index tuples) out. It
      is total, so a backend that raises is not represented. */
  type HullBackend = seq<seq<real>> -> seq<seq<nat>>

  /** The first facet, if any, that does not index rows of the hull
      input as the facet filter needs. */
  function FirstMalformed(facets: seq<seq<nat>>, rows: seq<seq<real>>, dim: nat): (r: Option<seq<nat>>)
    ensures r.None? <==> forall i :: 0 <= i < |facets| ==> ValidFacet(facets[i], rows, dim)
    ensures r.Some? ==>
              exists i :: 0 <= i < |facets| && facets[i] == r.value && !ValidFacet(r.value, rows, dim) &&
                forall j :: 0 <= j < i ==> ValidFacet(facets[j], rows, dim)
    decreases |facets|
  {
    if |facets| == 0 then None
    else if !ValidFacet(facets[0], rows, dim) then Some(facets[0])
    else
      var rest := facets[1..];
      assert forall i :: 1 <= i < |facets| ==> facets[i] == rest[i - 1];
      FirstMalformed(rest, rows, dim)
  }

  /** The structural invariants of a built diagram: the hull rows match
      the hull entries one to one, every facet vertex indexes a hull entry,
      and stable entries are hull entries, which are input entries. */
  ghost predicate Consistent(pd: PhaseDiagram) {
    && |pd.qhullData| == |pd.qhullEntries|
    && (forall i, j :: 0 <= i < |pd.facets| && 0 <= j < |pd.facets[i]| ==> pd.facets[i][j] < |pd.qhullEntries|)
    && (forall e :: e in pd.stableEntries ==> e in pd.qhullEntries)
    && (forall e :: e in pd.qhullEntries ==> e in pd.allEntries)
  }

  /** The hull input of the entries, which exists when references are. */
  function QhullOf(entries: seq<Entry>): (q: seq<Entry>)
    requires ReferencesAvailable(entries)
    ensures HullInput(entries, ElRefs(entries)) == Success(q)
    ensures forall e :: e in q ==> e in entries
  {
    QhullEntriesFromOwnReferences(entries);
    HullInput(entries, ElRefs(entries)).value
  }

  /** When the hull backend is consulted, all of its facets can be read. */
  ghost predicate BackendFacetsValid(qhull: seq<Entry>, elements: seq<Element>, hull: HullBackend) {
    var rows := HullRows(qhull, elements);
    |rows| == |elements| ||
      forall i :: 0 <= i < |hull(rows)| ==> ValidFacet(hull(rows)[i], rows, |elements|)
  }

  /** The facets of the diagram for hull entries `qhull`: the single
      simplex of all rows when there are exactly `dim` of them, otherwise
      the backend's facets without the vertical and all-element ones. */
  function Triangulate(qhull: seq<Entry>, elements: seq<Element>, hull: HullBackend): (r: Result<seq<seq<nat>>>)
    ensures r.Success? <==> BackendFacetsValid(qhull, elements, hull)
    ensures r.Failure? ==> r.error.MalformedFacet?
    ensures r.Failure? ==>
              var rows := HullRows(qhull, elements);
              r.error.facet in hull(rows) && !ValidFacet(r.error.facet, rows, |elements|)
    ensures r.Success? ==>
              forall i, j :: 0 <= i < |r.value| && 0 <= j < |r.value[i]| ==> r.value[i][j] < |qhull|
    ensures r.Success? && |qhull| == |elements| ==> r.value == [Range(|elements|)]
    ensures r.Success? && |qhull| != |elements| ==>
              var rows := HullRows(qhull, elements);
              var candidates := hull(rows);
              && IsSubsequence(r.value, candidates)
              && (forall f :: multiset(r.value)[f] == if Kept(qhull, rows, f, |elements|) then multiset(candidates)[f] else 0)
              && (forall i :: 0 <= i < |candidates| ==>
                    ValidFacet(candidates[i], rows, |elements|) &&
                    (candidates[i] in r.value <==> KeepFacet(qhull, rows, candidates[i], |elements|)))
  {
    var rows := HullRows(qhull, elements);
    var dim := |elements|;
    if |rows| == dim then
      Success([Range(dim)])
    else
      var candidates := hull(rows);
      match FirstMalformed(candidates, rows, dim)
      case Some(f) => Failure(MalformedFacet(f))
      case None =>
        var facets := FilterFacets(candidates, qhull, rows, dim);
        assert forall i, j :: 0 <= i < |facets| && 0 <= j < |facets[i]| ==> facets[i][j] < |qhull| by {
          forall i, j | 0 <= i < |facets| && 0 <= j < |facets[i]|
            ensures facets[i][j] < |qhull|
          {
            assert ValidFacet(facets[i], rows, dim);
          }
        }
        Success(facets)
  }

  /** Builds the phase diagram of `entries` over the basis `elements`. */
  function Build(entries: seq<Entry>, elements: seq<Element>, hull: HullBackend): (r: Result<PhaseDiagram>)
    ensures r.Success? <==> ReferencesAvailable(entries) && BackendFacetsValid(QhullOf(entries), elements, hull)
    ensures !ReferencesAvailable(entries) ==> r.Failure? && r.error.MissingReference? && r.error.entry in entries
    ensures r.Success? ==>
              var pd := r.value;
              && Consistent(pd)
              && pd.elements == elements
              && pd.allEntries == entries
              && pd.elRefs == ElRefs(entries)
              && pd.qhullEntries == QhullOf(entries)
              && pd.qhullData == HullRows(pd.qhullEntries, elements)
              && pd.facets == Triangulate(pd.qhullEntries, elements, hull).value
              && pd.stableEntries == VertexEntries(pd.facets, pd.qhullEntries)
  {
    var refs := ElRefs(entries);
    QhullEntriesFromOwnReferences(entries);
    match HullInput(entries, refs)
    case Failure(err) => Failure(err)
    case Success(qhull) =>
      assert qhull == QhullOf(entries);
      match Triangulate(qhull, elements, hull)
      case Failure(err) => Failure(err)
      case Success(facets) =>
        var rows := HullRows(qhull, elements);
        var pd := PhaseDiagram(elements, entries, refs, qhull, rows, facets, VertexEntries(facets, qhull));
        AssembledConsistent(pd);
        Success(pd)
  }

  /** Which error a failed construction reports: the first entry, in input
      order, that lacks a reference; or, when every element has a
      reference, a malformed backend facet. */
  lemma BuildFailure(entries: seq<Entry>, elements: seq<Element>, hull: HullBackend)
    requires Build(entries, elements, hull).Failure?
    ensures !ReferencesAvailable(entries) ==> FirstMissing(entries, ElRefs(entries), Build(entries, elements, hull).error)
    ensures ReferencesAvailable(entries) ==> Build(entries, elements, hull).error.MalformedFacet?
    ensures ReferencesAvailable(entries) ==>
              var rows := HullRows(QhullOf(entries), elements);
              var f := Build(entries, elements, hull).error.facet;
              f in hull(rows) && !ValidFacet(f, rows, |elements|)
  {
    var refs := ElRefs(entries);
    QhullEntriesFromOwnReferences(entries);
    match HullInput(entries, refs)
    case Failure(err) =>
    case Success(qhull) =>
      assert ReferencesAvailable(entries);
  }

  /** A diagram whose rows are those of its hull entries, whose facets
      index hull entries, whose stable entries are the facet vertices and
      whose hull entries are input entries is consistent. */
  lemma AssembledConsistent(pd: PhaseDiagram)
    requires pd.qhullData == HullRows(pd.qhullEntries, pd.elements)
    requires forall i, j :: 0 <= i < |pd.facets| && 0 <= j < |pd.facets[i]| ==> pd.facets[i][j] < |pd.qhullEntries|
    requires pd.stableEntries == VertexEntries(pd.facets, pd.qhullEntries)
    requires forall e :: e in pd.qhullEntries ==> e in pd.allEntries
    ensures Consistent(pd)
  {
  }

  /** With exactly `dim` hull entries the diagram is one simplex, no hull
      is computed and every hull entry is stable. */
  lemma SingleSimplex(entries: seq<Entry>, elements: seq<Element>, hull: HullBackend)
    requires Build(entries, elements, hull).Success?
    requires |Build(entries, elements, hull).value.qhullData| == |elements|
    ensures var pd := Build(entries, elements, hull).value;
            && pd.facets == [Range(|elements|)]
            && forall e :: e in pd.stableEntries <==> e in pd.qhullEntries
  {
    var pd := Build(entries, elements, hull).value;
    SimplexVertices(pd.qhullEntries);
  }

  /** The single simplex has every hull entry as a vertex. */
  lemma SimplexVertices(qhull: seq<Entry>)
    ensures forall e :: e in VertexEntries([Range(|qhull|)], qhull) <==> e in qhull
  {
    var facet := Range(|qhull|);
    forall e | e in qhull
      ensures e in VertexEntries([facet], qhull)
    {
      var i :| 0 <= i < |qhull| && qhull[i] == e;
      assert [facet][0][i] == i;
    }
  }

  /** The entries, in order, that are not in `stable`. */
  function Outside(entries: seq<Entry>, stable: set<Entry>): (r: seq<Entry>)
    ensures IsSubsequence(r, entries)
    ensures forall e :: e in r <==> e in entries && e !in stable
    ensures forall e :: multiset(r)[e] == if e in stable then 0 else multiset(entries)[e]
    decreases |entries|
  {
    if |entries| == 0 then []
    else
      var rest := Outside(entries[1..], stable);
      assert forall e :: e in entries <==> e == entries[0] || e in entries[1..];
      assert entries == [entries[0]] + entries[1..];
      assert multiset(entries) == multiset{entries[0]} + multiset(entries[1..]);
      assert multiset([entries[0]] + rest) == multiset{entries[0]} + multiset(rest);
      if entries[0] in stable then rest else [entries[0]] + rest
  }

  /** pymatgen's `unstable_entries`: the input entries, in order, that are
      not stable (including those kept out of the hull). */
  function UnstableEntries(pd: PhaseDiagram): (r: seq<Entry>)
    ensures IsSubsequence(r, pd.allEntries)
    ensures forall e :: e in r <==> e in pd.allEntries && e !in pd.stableEntries
    ensures forall e :: multiset(r)[e] == if e in pd.stableEntries then 0 else multiset(pd.allEntries)[e]
  {
    Outside(pd.allEntries, pd.stableEntries)
  }

  /** Every input entry is either stable or unstable, never both. */
  lemma StableUnstablePartition(pd: PhaseDiagram)
    requires Consistent(pd)
    ensures (set e | e in pd.allEntries) == pd.stableEntries + (set e | e in UnstableEntries(pd))
    ensures pd.stableEntries !! (set e | e in UnstableEntries(pd))
  {
    var unstable := UnstableEntries(pd);
    assert forall e :: e in pd.stableEntries ==> e in pd.allEntries;
    assert forall e :: e in unstable ==> e in pd.allEntries;
  }

  /** Every hull entry is either an elemental reference or an entry whose
      formation energy is at most minus the tolerance; no entry is both,
      since references have zero formation energy. */
  lemma HullEntriesAreReferencesOrNegative(entries: seq<Entry>, refs: map<Element, Entry>)
    requires forall el :: el in refs ==> PureOf(refs[el], el)
    requires HullInput(entries, refs).Success?
    ensures forall e :: e in HullInput(entries, refs).value ==>
              IsReferenceValue(refs, e) != IsHullCandidate(refs, e)
  {
    forall e | e in HullInput(entries, refs).value
      ensures IsReferenceValue(refs, e) != IsHullCandidate(refs, e)
    {
      ReferenceOrCandidate(entries, refs, e);
    }
  }

  lemma ReferenceOrCandidate(entries: seq<Entry>, refs: map<Element, Entry>, e: Entry)
    requires forall el :: el in refs ==> PureOf(refs[el], el)
    requires HullInput(entries, refs).Success? && e in HullInput(entries, refs).value
    ensures IsReferenceValue(refs, e) != IsHullCandidate(refs, e)
  {
    if IsReferenceValue(refs, e) {
      var el :| el in refs && refs[el] == e;
      ReferenceFormEnergyIsZero(refs, el);
    } else {
      HullEntryKind(entries, refs, e);
    }
  }

  /** A pure-element entry reaches the hull only as its element's
      reference: every other pure entry has non-negative formation
      energy. */
  lemma PureHullEntriesAreReferences(entries: seq<Entry>)
    requires HullInput(entries, ElRefs(entries)).Success?
    ensures forall e :: e in HullInput(entries, ElRefs(entries)).value && IsPure(e) ==>
              SoleElement(e) in ElRefs(entries) && e == ElRefs(entries)[SoleElement(e)]
  {
    PureEntriesNotCandidates(entries);
    PureHullEntries(entries, ElRefs(entries));
  }

  lemma PureEntriesNotCandidates(entries: seq<Entry>)
    ensures forall e :: e in entries && IsPure(e) ==> !IsHullCandidate(ElRefs(entries), e)
  {
    forall e | e in entries && IsPure(e)
      ensures !IsHullCandidate(ElRefs(entries), e)
    {
      PureEntryNotCandidate(entries, e);
    }
  }

  lemma PureEntryNotCandidate(entries: seq<Entry>, e: Entry)
    requires e in entries && IsPure(e)
    ensures !IsHullCandidate(ElRefs(entries), e)
  {
    var i :| 0 <= i < |entries| && entries[i] == e;
    PureFormEnergyNonNegative(entries, i, SoleElement(e));
  }

  /** For references that are pure entries of their elements and input
      entries of which no pure one is a hull candidate, the only pure hull
      entries are the references. */
  lemma PureHullEntries(entries: seq<Entry>, refs: map<Element, Entry>)
    requires forall el :: el in refs ==> PureOf(refs[el], el)
    requires forall e :: e in entries && IsPure(e) ==> !IsHullCandidate(refs, e)
    requires HullInput(entries, refs).Success?
    ensures forall e :: e in HullInput(entries, refs).value && IsPure(e) ==>
              SoleElement(e) in refs && e == refs[SoleElement(e)]
  {
    forall e | e in HullInput(entries, refs).value && IsPure(e)
      ensures SoleElement(e) in refs && e == refs[SoleElement(e)]
    {
      PureHullEntry(entries, refs, e);
    }
  }

  lemma PureHullEntry(entries: seq<Entry>, refs: map<Element, Entry>, e: Entry)
    requires forall el :: el in refs ==> PureOf(refs[el], el)
    requires HullInput(entries, refs).Success? && e in HullInput(entries, refs).value
    requires IsPure(e) && (e in entries ==> !IsHullCandidate(refs, e))
    ensures SoleElement(e) in refs && e == refs[SoleElement(e)]
  {
    ReferenceOrCandidate(entries, refs, e);
    var x :| x in refs && refs[x] == e;
    PureOfIsPure(e, x);
  }
}
