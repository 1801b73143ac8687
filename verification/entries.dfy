/** Phase-diagram entries: a composition with a total energy.

    pymatgen distinguishes entries by object identity; the `id` field plays
    that role here, so two entries with equal composition and energy but
    different ids are different entries. */
module Entries {
  import opened Compositions

  datatype PDEntry = PDEntry(id: nat, composition: Composition, energy: real)

  /** An entry whose composition has at least one element and amounts
      above the tolerance, so that its energy per atom is defined. */
  type Entry = e: PDEntry | WellFormed(e.composition)
    witness PDEntry(0, map[Element(1) := 1.0], 0.0)

  /** Energy per atom (pymatgen's `energy_per_atom`). */
  function EnergyPerAtom(e: Entry): real {
    e.energy / NumAtoms(e.composition)
  }

  /** Energy per atom times the number of atoms is the total energy. */
  lemma EnergyPerAtomScales(e: Entry)
    ensures EnergyPerAtom(e) * NumAtoms(e.composition) == e.energy
  {
  }

  /** The composition holds exactly one element (pymatgen's `is_element`). */
  predicate IsPure(e: Entry) {
    |e.composition| == 1
  }

  /** `e` is a pure entry of element `el`. */
  predicate PureOf(e: Entry, el: Element) {
    e.composition.Keys == {el}
  }

  /** The single element of a pure entry. */
  function SoleElement(e: Entry): (el: Element)
    requires IsPure(e)
    ensures PureOf(e, el)
  {
    var el := MinElement(e.composition.Keys);
    var rest := e.composition.Keys - {el};
    assert |rest| == 0;
    assert e.composition.Keys == rest + {el};
    el
  }

  /** The elements whose amount in `c` exceeds the amount tolerance. */
  function SignificantElements(c: Composition): set<Element> {
    set el | el in c.Keys && c[el] > AmountTolerance
  }

  /** Purity as a count of elements (the composition has one key) agrees
      with purity as a count of amounts above the tolerance, and the
      element the tolerance test singles out is the sole element. */
  lemma PureMeansOneSignificant(e: Entry)
    ensures IsPure(e) <==> |SignificantElements(e.composition)| == 1
    ensures IsPure(e) ==> SignificantElements(e.composition) == {SoleElement(e)}
  {
    assert SignificantElements(e.composition) == e.composition.Keys;
  }

  lemma PureOfIsPure(e: Entry, el: Element)
    requires PureOf(e, el)
    ensures IsPure(e) && SoleElement(e) == el
  {
    assert |e.composition.Keys| == 1;
  }

  /** A pure entry of `el` has as many atoms as its amount of `el`. */
  lemma PureNumAtoms(e: Entry, el: Element)
    requires PureOf(e, el)
    ensures NumAtoms(e.composition) == e.composition[el]
  {
    var c := e.composition;
    assert c == map[el := c[el]];
    SumSingleton(el, c[el]);
  }
}
