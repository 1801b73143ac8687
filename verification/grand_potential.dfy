/** Preprocessing of a grand potential phase diagram
    (pymatgen/phasediagram/pdmaker.py, `GrandPotentialPhaseDiagram.__init__`).

    Open elements are those with a fixed chemical potential. Their
    pure-element entries are dropped, every other entry is wrapped as a
    grand-potential entry, and the open elements leave the basis, which is
    then sorted. The wrapper (pymatgen's `GrandPotPDEntry`) and the element
    order are parameters. */
module GrandPotential {
  import opened Compositions
  import opened Entries
  import opened Results
  import opened Sequences
  import opened HullData
  import opened PhaseDiagrams

  /** Chemical potential of each open element. */
  type ChemPots = map<Element, real>

  /** The grand-potential wrapper of an entry. Its result is an `Entry`,
      so every wrapped entry is assumed to keep at least one element. */
  type Wrapper = (Entry, ChemPots) -> Entry

  /** A pure-element entry of an open element. */
  predicate IsOpenPure(e: Entry, chempots: ChemPots) {
    IsPure(e) && SoleElement(e) in chempots
  }

  /** The entries, in order, that are not pure entries of an open element;
      every copy of a kept entry is kept. */
  function ClosedEntries(entries: seq<Entry>, chempots: ChemPots): (r: seq<Entry>)
    ensures IsSubsequence(r, entries)
    ensures forall e :: e in r <==> e in entries && !IsOpenPure(e, chempots)
    decreases |entries|
  {
    if |entries| == 0 then []
    else
      var rest := ClosedEntries(entries[1..], chempots);
      assert entries == [entries[0]] + entries[1..];
      if IsOpenPure(entries[0], chempots) then rest else [entries[0]] + rest
  }

  /** Each entry wrapped, in order. */
  function WrapAll(entries: seq<Entry>, chempots: ChemPots, wrap: Wrapper): (r: seq<Entry>)
    ensures |r| == |entries|
    ensures forall i :: 0 <= i < |entries| ==> r[i] == wrap(entries[i], chempots)
  {
    seq(|entries|, i requires 0 <= i < |entries| => wrap(entries[i], chempots))
  }

  /** The entries the grand potential diagram is built from. */
  function GrandEntries(entries: seq<Entry>, chempots: ChemPots, wrap: Wrapper): (r: seq<Entry>)
    ensures |r| == |ClosedEntries(entries, chempots)|
    ensures forall i :: 0 <= i < |r| ==> r[i] == wrap(ClosedEntries(entries, chempots)[i], chempots)
  {
    WrapAll(ClosedEntries(entries, chempots), chempots, wrap)
  }

  /** The elements of `elements`, in order, that are not open. */
  function ClosedElements(elements: seq<Element>, chempots: ChemPots): (r: seq<Element>)
    ensures IsSubsequence(r, elements)
    ensures forall el :: el in r <==> el in elements && el !in chempots
    ensures forall el :: multiset(r)[el] == if el in chempots then 0 else multiset(elements)[el]
    decreases |elements|
  {
    if |elements| == 0 then []
    else
      var x, rest := elements[0], ClosedElements(elements[1..], chempots);
      assert elements == [x] + elements[1..];
      assert multiset(elements) == multiset{x} + multiset(elements[1..]);
      if x in chempots then rest
      else
        assert ([x] + rest)[1..] == rest;
        assert multiset([x] + rest) == multiset{x} + multiset(rest);
        [x] + rest
  }

  /** Position of an element in the order Python's `sorted` puts
      elements in. That order is defined by pymatgen's `Element` class,
      which is not part of this model, so it is a parameter; it decides
      which element comes first in the basis, and so which fraction the
      hull rows leave implicit. */
  type ElementRank = Element -> real

  predicate SortedBy(s: seq<Element>, rank: ElementRank) {
    forall i, j :: 0 <= i < j < |s| ==> rank(s[i]) <= rank(s[j])
  }

  /** `el` inserted into the sorted `s` before the first element it does
      not follow. */
  function Insert(el: Element, s: seq<Element>, rank: ElementRank): (r: seq<Element>)
    requires SortedBy(s, rank)
    ensures SortedBy(r, rank)
    ensures multiset(r) == multiset(s) + multiset{el}
    decreases |s|
  {
    if |s| == 0 || rank(el) <= rank(s[0]) then
      SortedCons(el, s, rank);
      [el] + s
    else
      var rest := Insert(el, s[1..], rank);
      HeadBelow(s, el, rest, rank);
      SortedCons(s[0], rest, rank);
      assert s == [s[0]] + s[1..];
      [s[0]] + rest
  }

  lemma SortedCons(x: Element, t: seq<Element>, rank: ElementRank)
    requires SortedBy(t, rank)
    requires |t| > 0 ==> rank(x) <= rank(t[0])
    ensures SortedBy([x] + t, rank)
  {
  }

  lemma HeadBelow(s: seq<Element>, el: Element, rest: seq<Element>, rank: ElementRank)
    requires SortedBy(s, rank) && |s| > 0 && rank(s[0]) < rank(el)
    requires multiset(rest) == multiset(s[1..]) + multiset{el}
    ensures |rest| > 0 && rank(s[0]) <= rank(rest[0])
  {
    assert rest[0] in multiset(rest);
    if rest[0] != el {
      assert rest[0] in multiset(s[1..]);
      var k :| 1 <= k < |s| && s[k] == rest[0];
    }
  }

  /** Python's `sorted` on elements: ordered by rank, a rearrangement of
      its input. */
  function SortElements(s: seq<Element>, rank: ElementRank): (r: seq<Element>)
    ensures SortedBy(r, rank)
    ensures multiset(r) == multiset(s)
    decreases |s|
  {
    if |s| == 0 then []
    else
      assert s == [s[0]] + s[1..];
      Insert(s[0], SortElements(s[1..], rank), rank)
  }

  /** The basis of the grand potential diagram. */
  function GrandElements(elements: seq<Element>, chempots: ChemPots, rank: ElementRank): (r: seq<Element>)
    ensures SortedBy(r, rank)
    ensures forall el :: el in r <==> el in elements && el !in chempots
    ensures forall el :: multiset(r)[el] == if el in chempots then 0 else multiset(elements)[el]
  {
    var r := SortElements(ClosedElements(elements, chempots), rank);
    assert forall el :: el in r <==> el in multiset(r);
    r
  }

  /** A grand potential phase diagram: the chemical potentials and the
      ordinary diagram built over the remaining components. */
  datatype GrandPotentialDiagram = GrandPotentialDiagram(chempots: ChemPots, diagram: PhaseDiagram)

  /** pymatgen's `GrandPotentialPhaseDiagram(entries, chempots, elements)`.
      It fails exactly when the wrapped kept entries miss a reference or
      the backend returns an unreadable facet, and a missing reference is
      reported against a wrapped entry. A built diagram keeps the
      chemical potentials, has as its basis the closed elements sorted by
      rank, each as often as it was given, and has one wrapped entry per
      kept input entry, in order; the rest of it (references, hull input,
      facets, stable entries) is the ordinary construction over those. */
  function BuildGrand(entries: seq<Entry>, chempots: ChemPots, elements: seq<Element>,
                      rank: ElementRank, wrap: Wrapper, hull: HullBackend): (r: Result<GrandPotentialDiagram>)
    ensures var grand := GrandEntries(entries, chempots, wrap);
            r.Success? <==>
              ReferencesAvailable(grand) && BackendFacetsValid(QhullOf(grand), GrandElements(elements, chempots, rank), hull)
    ensures var grand := GrandEntries(entries, chempots, wrap);
            !ReferencesAvailable(grand) ==> r.Failure? && r.error.MissingReference? && r.error.entry in grand
    ensures r.Success? ==>
              var pd := r.value.diagram;
              && r.value.chempots == chempots
              && Consistent(pd)
              && GrandShaped(pd, entries, chempots, elements, rank, wrap)
    ensures r.Success? ==>
              var b := Build(GrandEntries(entries, chempots, wrap), GrandElements(elements, chempots, rank), hull);
              b.Success? && b.value == r.value.diagram
  {
    var grand := GrandEntries(entries, chempots, wrap);
    var basis := GrandElements(elements, chempots, rank);
    match Build(grand, basis, hull)
    case Failure(err) => Failure(err)
    case Success(pd) => Success(GrandPotentialDiagram(chempots, pd))
  }

  /** `pd` has as its basis the closed elements of `elements` sorted by
      `rank`, each as often as given, and as its entries the wrapped kept
      entries, in order. */
  ghost predicate GrandShaped(pd: PhaseDiagram, entries: seq<Entry>, chempots: ChemPots, elements: seq<Element>,
                              rank: ElementRank, wrap: Wrapper)
  {
    var kept := ClosedEntries(entries, chempots);
    && SortedBy(pd.elements, rank)
    && (forall el :: el in pd.elements <==> el in elements && el !in chempots)
    && (forall el :: multiset(pd.elements)[el] == if el in chempots then 0 else multiset(elements)[el])
    && |pd.allEntries| == |kept|
    && (forall i :: 0 <= i < |kept| ==> pd.allEntries[i] == wrap(kept[i], chempots))
  }

  /** Every copy of a kept entry survives the filter, and no copy of a
      dropped one. */
  lemma {:induction false} ClosedEntriesMultiplicity(entries: seq<Entry>, chempots: ChemPots)
    ensures forall e :: multiset(ClosedEntries(entries, chempots))[e] ==
              if IsOpenPure(e, chempots) then 0 else multiset(entries)[e]
    decreases |entries|
  {
    if |entries| > 0 {
      ClosedEntriesMultiplicity(entries[1..], chempots);
      assert entries == [entries[0]] + entries[1..];
    }
  }

  /** Filtering commutes with concatenation: entries are judged one at a
      time, independently of their neighbours. */
  lemma {:induction false} ClosedEntriesAppend(a: seq<Entry>, b: seq<Entry>, chempots: ChemPots)
    ensures ClosedEntries(a + b, chempots) == ClosedEntries(a, chempots) + ClosedEntries(b, chempots)
    decreases |a|
  {
    if |a| > 0 {
      assert (a + b)[1..] == a[1..] + b;
      ClosedEntriesAppend(a[1..], b, chempots);
    } else {
      assert a + b == b;
    }
  }

  /** Filtering twice drops nothing more. */
  lemma {:induction false} ClosedEntriesIdempotent(entries: seq<Entry>, chempots: ChemPots)
    ensures ClosedEntries(ClosedEntries(entries, chempots), chempots) == ClosedEntries(entries, chempots)
    decreases |entries|
  {
    if |entries| > 0 {
      ClosedEntriesIdempotent(entries[1..], chempots);
      var rest := ClosedEntries(entries[1..], chempots);
      if !IsOpenPure(entries[0], chempots) {
        assert ([entries[0]] + rest)[1..] == rest;
      }
    }
  }
}
