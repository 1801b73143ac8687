/** Elemental references and formation energies
    (pymatgen/phasediagram/pdmaker.py, `_create_convhull_data` and
    `get_form_energy`). */
module References {
  import opened Compositions
  import opened Entries
  import opened Results

  /** One step of the reference scan, ranking entries by `key` (the
      energy per atom in pymatgen): a pure entry becomes the reference of
      its element when the element has none yet, or when the current
      reference has a strictly higher key. */
  function Record(refs: map<Element, Entry>, e: Entry, key: Entry -> real): map<Element, Entry> {
    if !IsPure(e) then refs
    else
      var el := SoleElement(e);
      if el !in refs then refs[el := e]
      else if key(refs[el]) > key(e) then refs[el := e]
      else refs
  }

  /** `refs` lists exactly the elements that have a pure entry in
      `entries`, each mapped to one of those pure entries. */
  ghost predicate CoversPureElements(refs: map<Element, Entry>, entries: seq<Entry>) {
    && (forall el :: el in refs <==> exists i :: 0 <= i < |entries| && PureOf(entries[i], el))
    && (forall el :: el in refs ==> PureOf(refs[el], el) && refs[el] in entries)
  }

  /** No pure entry of an element has a lower key than its reference. */
  ghost predicate IsLowest(refs: map<Element, Entry>, entries: seq<Entry>, key: Entry -> real) {
    forall el, i :: el in refs && 0 <= i < |entries| && PureOf(entries[i], el) ==>
      key(refs[el]) <= key(entries[i])
  }

  /** Each reference occurs at a position before which every pure entry
      of its element has a strictly higher key. */
  ghost predicate IsEarliest(refs: map<Element, Entry>, entries: seq<Entry>, key: Entry -> real) {
    forall el :: el in refs ==> FirstLowestAt(refs[el], entries, el, key)
  }

  /** `r` occurs in `entries` at a position before which every pure entry
      of `el` has a strictly higher key than `r`. */
  ghost predicate FirstLowestAt(r: Entry, entries: seq<Entry>, el: Element, key: Entry -> real) {
    exists i :: 0 <= i < |entries| && entries[i] == r &&
      forall j :: 0 <= j < i && PureOf(entries[j], el) ==> key(entries[j]) > key(r)
  }

  lemma RecordCovers(refs: map<Element, Entry>, prefix: seq<Entry>, e: Entry, key: Entry -> real)
    requires CoversPureElements(refs, prefix)
    ensures CoversPureElements(Record(refs, e, key), prefix + [e])
  {
    var entries := prefix + [e];
    var next := Record(refs, e, key);
    assert forall i :: 0 <= i < |prefix| ==> entries[i] == prefix[i];
    assert entries[|prefix|] == e;
    forall el
      ensures el in next <==> exists i :: 0 <= i < |entries| && PureOf(entries[i], el)
    {
      if el in next && el !in refs {
        assert PureOf(entries[|prefix|], el);
      }
      if exists i :: 0 <= i < |entries| && PureOf(entries[i], el) {
        var i :| 0 <= i < |entries| && PureOf(entries[i], el);
        if i == |prefix| {
          PureOfIsPure(e, el);
        } else {
          assert PureOf(prefix[i], el);
        }
      }
    }
  }

  lemma RecordLowest(refs: map<Element, Entry>, prefix: seq<Entry>, e: Entry, key: Entry -> real)
    requires CoversPureElements(refs, prefix) && IsLowest(refs, prefix, key)
    ensures IsLowest(Record(refs, e, key), prefix + [e], key)
  {
    var entries := prefix + [e];
    var next := Record(refs, e, key);
    forall el, i | el in next && 0 <= i < |entries| && PureOf(entries[i], el)
      ensures key(next[el]) <= key(entries[i])
    {
      if i == |prefix| {
        PureOfIsPure(e, el);
      } else {
        assert entries[i] == prefix[i];
        if IsPure(e) && SoleElement(e) == el {
          assert el in refs;
        }
      }
    }
  }

  /** The earliest-position witness of a reference that `Record` keeps
      still works in the longer list. */
  lemma EarliestKept(refs: map<Element, Entry>, prefix: seq<Entry>, e: Entry, el: Element, key: Entry -> real)
    requires IsEarliest(refs, prefix, key) && el in refs
    ensures FirstLowestAt(refs[el], prefix + [e], el, key)
  {
    var entries := prefix + [e];
    var i :| 0 <= i < |prefix| && prefix[i] == refs[el] &&
      forall j :: 0 <= j < i && PureOf(prefix[j], el) ==> key(prefix[j]) > key(refs[el]);
    assert entries[i] == refs[el];
    assert forall j :: 0 <= j < i ==> entries[j] == prefix[j];
  }

  /** When `Record` installs `e` as a new reference, every earlier pure
      entry of the element has a strictly higher key. */
  lemma EarliestReplaced(refs: map<Element, Entry>, prefix: seq<Entry>, e: Entry, el: Element, key: Entry -> real)
    requires CoversPureElements(refs, prefix) && IsLowest(refs, prefix, key)
    requires el in Record(refs, e, key) && (el in refs ==> Record(refs, e, key)[el] != refs[el])
    ensures Record(refs, e, key)[el] == e
    ensures forall j :: 0 <= j < |prefix| && PureOf(prefix[j], el) ==> key(prefix[j]) > key(e)
  {
  }

  /** An entry below every earlier pure entry of `el` is its own
      earliest-position witness when appended. */
  lemma EarliestAtEnd(prefix: seq<Entry>, e: Entry, el: Element, key: Entry -> real)
    requires forall j :: 0 <= j < |prefix| && PureOf(prefix[j], el) ==> key(prefix[j]) > key(e)
    ensures FirstLowestAt(e, prefix + [e], el, key)
  {
    var entries := prefix + [e];
    var n := |prefix|;
    assert entries[n] == e;
    assert forall j :: 0 <= j < n ==> entries[j] == prefix[j];
  }

  lemma RecordEarliest(refs: map<Element, Entry>, prefix: seq<Entry>, e: Entry, key: Entry -> real)
    requires CoversPureElements(refs, prefix) && IsLowest(refs, prefix, key) && IsEarliest(refs, prefix, key)
    ensures IsEarliest(Record(refs, e, key), prefix + [e], key)
  {
    var entries := prefix + [e];
    var next := Record(refs, e, key);
    forall el | el in next
      ensures FirstLowestAt(next[el], entries, el, key)
    {
      if el in refs && next[el] == refs[el] {
        EarliestKept(refs, prefix, e, el, key);
      } else {
        EarliestReplaced(refs, prefix, e, el, key);
        EarliestAtEnd(prefix, e, el, key);
      }
    }
  }

  /** The scan over `entries`: for each element with a pure entry, the
      pure entry of lowest key, the earliest one on ties. */
  function LowestPure(entries: seq<Entry>, key: Entry -> real): (refs: map<Element, Entry>)
    ensures CoversPureElements(refs, entries)
    ensures IsLowest(refs, entries, key)
    ensures IsEarliest(refs, entries, key)
    decreases |entries|
  {
    if |entries| == 0 then map[]
    else
      var n := |entries| - 1;
      var prefix := entries[..n];
      var before := LowestPure(prefix, key);
      var e := entries[n];
      assert entries == prefix + [e];
      RecordCovers(before, prefix, e, key);
      RecordLowest(before, prefix, e, key);
      RecordEarliest(before, prefix, e, key);
      Record(before, e, key)
  }

  /** The elemental references (pymatgen's `el_refs`): for each element,
      the pure entry of lowest energy per atom, the earliest one on
      ties. */
  function ElRefs(entries: seq<Entry>): (refs: map<Element, Entry>)
    ensures CoversPureElements(refs, entries)
    ensures IsLowest(refs, entries, EnergyPerAtom)
    ensures IsEarliest(refs, entries, EnergyPerAtom)
  {
    LowestPure(entries, EnergyPerAtom)
  }

  /** Energy of the reference mixture with the composition `c`: the sum,
      over the elements of `c`, of amount times the reference energy per
      atom. */
  function ReferenceEnergy(c: Composition, refs: map<Element, Entry>): real
    requires c.Keys <= refs.Keys
    decreases c.Keys
  {
    if c.Keys == {} then 0.0
    else
      var el := MinElement(c.Keys);
      c[el] * EnergyPerAtom(refs[el]) + ReferenceEnergy(c - {el}, refs)
  }

  /** Formation energy of `e` (not normalised), or the missing-reference
      error when some element of `e` has no reference. */
  function FormEnergy(refs: map<Element, Entry>, e: Entry): (r: Result<real>)
    ensures r.Success? <==> e.composition.Keys <= refs.Keys
    ensures r.Failure? ==> r.error == MissingReference(e)
  {
    if e.composition.Keys <= refs.Keys then
      Success(e.energy - ReferenceEnergy(e.composition, refs))
    else
      Failure(MissingReference(e))
  }

  /** Formation energy per atom: the formation energy spread over the
      entry's atoms. */
  function FormEnergyPerAtom(refs: map<Element, Entry>, e: Entry): (r: Result<real>)
    ensures r.Success? <==> FormEnergy(refs, e).Success?
    ensures r.Failure? ==> r.error == MissingReference(e)
    ensures r.Success? ==> r.value * NumAtoms(e.composition) == FormEnergy(refs, e).value
  {
    match FormEnergy(refs, e)
    case Success(f) => Success(f / NumAtoms(e.composition))
    case Failure(err) => Failure(err)
  }

  /** The reference energy of a single-element composition is its amount
      times that element's reference energy per atom. */
  lemma ReferenceEnergyOfPure(c: Composition, refs: map<Element, Entry>, el: Element)
    requires c.Keys == {el} && el in refs
    ensures ReferenceEnergy(c, refs) == c[el] * EnergyPerAtom(refs[el])
  {
    assert MinElement(c.Keys) == el;
    assert (c - {el}).Keys == {};
  }

  /** An entry chosen as a reference has formation energy exactly zero. */
  lemma ReferenceFormEnergyIsZero(refs: map<Element, Entry>, el: Element)
    requires el in refs && PureOf(refs[el], el)
    ensures FormEnergy(refs, refs[el]) == Success(0.0)
  {
    var r := refs[el];
    PureNumAtoms(r, el);
    EnergyPerAtomScales(r);
    ReferenceEnergyOfPure(r.composition, refs, el);
    var a, p := r.composition[el], EnergyPerAtom(r);
    assert p * NumAtoms(r.composition) == r.energy;
    assert a * p == r.energy;
    assert r.energy - ReferenceEnergy(r.composition, refs) == 0.0;
  }

  /** A pure entry whose energy per atom is no lower than its element's
      reference has non-negative formation energy. */
  lemma PureAboveReference(refs: map<Element, Entry>, e: Entry, el: Element)
    requires el in refs && PureOf(e, el)
    requires EnergyPerAtom(refs[el]) <= EnergyPerAtom(e)
    ensures FormEnergy(refs, e).Success? && FormEnergy(refs, e).value >= 0.0
  {
    PureFormEnergy(refs, e, el);
    PureEnergy(e, el);
    ScaledBelow(e.composition[el], EnergyPerAtom(refs[el]), EnergyPerAtom(e), e.energy);
  }

  /** The formation energy of a pure entry of `el`: its energy less its
      atoms at the reference energy per atom. */
  lemma PureFormEnergy(refs: map<Element, Entry>, e: Entry, el: Element)
    requires el in refs && PureOf(e, el)
    ensures FormEnergy(refs, e) == Success(e.energy - e.composition[el] * EnergyPerAtom(refs[el]))
  {
    ReferenceEnergyOfPure(e.composition, refs, el);
  }

  /** A pure entry's energy is its amount times its energy per atom. */
  lemma PureEnergy(e: Entry, el: Element)
    requires PureOf(e, el)
    ensures EnergyPerAtom(e) * e.composition[el] == e.energy
  {
    PureNumAtoms(e, el);
    EnergyPerAtomScales(e);
  }

  /** `a` atoms at the lower energy per atom cost no more than the total
      energy `total` of `a` atoms at the higher one. */
  lemma ScaledBelow(a: real, lo: real, hi: real, total: real)
    requires a > 0.0 && lo <= hi && hi * a == total
    ensures total - a * lo >= 0.0
  {
    assert a * lo <= a * hi;
  }

  /** A pure entry never has negative formation energy against the
      references selected from a list that contains it, so the hull-input
      filter only ever admits a pure entry as a reference. */
  lemma PureFormEnergyNonNegative(entries: seq<Entry>, i: nat, el: Element)
    requires i < |entries| && PureOf(entries[i], el)
    ensures FormEnergy(ElRefs(entries), entries[i]).Success?
    ensures FormEnergy(ElRefs(entries), entries[i]).value >= 0.0
  {
    var refs := ElRefs(entries);
    assert el in refs;
    assert EnergyPerAtom(refs[el]) <= EnergyPerAtom(entries[i]);
    PureAboveReference(refs, entries[i], el);
  }

  /** Formation energy consults only the references of the entry's own
      elements: reference sets that agree there give the same result. */
  lemma FormEnergyLocal(refs: map<Element, Entry>, refs': map<Element, Entry>, e: Entry)
    requires forall el :: el in e.composition ==> (el in refs <==> el in refs')
    requires forall el :: el in e.composition && el in refs ==> refs[el] == refs'[el]
    ensures FormEnergy(refs, e) == FormEnergy(refs', e)
  {
    if e.composition.Keys <= refs.Keys {
      ReferenceEnergyLocal(e.composition, refs, refs');
    }
  }

  lemma {:induction false} ReferenceEnergyLocal(c: Composition, refs: map<Element, Entry>, refs': map<Element, Entry>)
    requires c.Keys <= refs.Keys && c.Keys <= refs'.Keys
    requires forall el :: el in c ==> refs[el] == refs'[el]
    ensures ReferenceEnergy(c, refs) == ReferenceEnergy(c, refs')
    decreases c.Keys
  {
    if c.Keys != {} {
      ReferenceEnergyLocal(c - {MinElement(c.Keys)}, refs, refs');
    }
  }
}
