/** The input handed to the convex-hull backend
    (pymatgen/phasediagram/pdmaker.py, `_create_convhull_data` and
    `_process_entries_qhulldata`). */
module HullData {
  import opened Compositions
  import opened Entries
  import opened Results
  import opened References
  import opened Sequences

  /** Entries whose formation energy is above minus this value are kept out
      of the hull (pymatgen's `FORMATION_ENERGY_TOLERANCE`, 1e-11). */
  const FormationEnergyTolerance: real := 0.00000000001

  predicate HasReferences(refs: map<Element, Entry>, e: Entry) {
    e.composition.Keys <= refs.Keys
  }

  /** `e` is stable enough against the references to enter the hull. */
  predicate IsHullCandidate(refs: map<Element, Entry>, e: Entry) {
    HasReferences(refs, e) && FormEnergy(refs, e).value <= -FormationEnergyTolerance
  }

  /** `kept` holds every copy of each hull candidate of `entries` and
      nothing else. */
  ghost predicate CandidateCopies(kept: seq<Entry>, entries: seq<Entry>, refs: map<Element, Entry>) {
    forall e :: multiset(kept)[e] == if IsHullCandidate(refs, e) then multiset(entries)[e] else 0
  }

  /** `err` reports the entry at position `i`, the first one that lacks a
      reference. */
  predicate FirstMissingAt(entries: seq<Entry>, refs: map<Element, Entry>, err: BuildError, i: int) {
    && 0 <= i < |entries|
    && err == MissingReference(entries[i])
    && !HasReferences(refs, entries[i])
    && forall j :: 0 <= j < i ==> HasReferences(refs, entries[j])
  }

  /** `err` reports the first entry that lacks a reference. */
  ghost predicate FirstMissing(entries: seq<Entry>, refs: map<Element, Entry>, err: BuildError) {
    exists i :: FirstMissingAt(entries, refs, err, i)
  }

  /** The entries, in order, whose formation energy is at most minus the
      tolerance; fails on the first entry that lacks a reference. */
  function NegativeFormationEntries(entries: seq<Entry>, refs: map<Element, Entry>): (r: Result<seq<Entry>>)
    ensures r.Success? <==> forall i :: 0 <= i < |entries| ==> HasReferences(refs, entries[i])
    ensures r.Failure? ==> FirstMissing(entries, refs, r.error)
    ensures r.Success? ==> IsSubsequence(r.value, entries)
    ensures r.Success? ==> forall e :: e in entries ==> (e in r.value <==> IsHullCandidate(refs, e))
    ensures r.Success? ==> CandidateCopies(r.value, entries, refs)
    decreases |entries|
  {
    if |entries| == 0 then Success([])
    else
      var e := entries[0];
      var tail := entries[1..];
      var fe := FormEnergy(refs, e);
      if fe.Failure? then
        assert FirstMissingAt(entries, refs, fe.error, 0);
        Failure(fe.error)
      else
        var next := NegativeFormationEntries(tail, refs);
        TailStep(entries, refs, next);
        if next.Failure? then Failure(next.error)
        else
          KeepStep(refs, e, tail, next.value);
          KeepCopies(refs, e, tail, next.value);
          if fe.value <= -FormationEnergyTolerance then Success([e] + next.value) else Success(next.value)
  }

  lemma TailStep(entries: seq<Entry>, refs: map<Element, Entry>, next: Result<seq<Entry>>)
    requires |entries| > 0 && HasReferences(refs, entries[0])
    requires next.Success? <==> forall i :: 0 <= i < |entries[1..]| ==> HasReferences(refs, entries[1..][i])
    requires next.Failure? ==> FirstMissing(entries[1..], refs, next.error)
    ensures next.Success? <==> forall i :: 0 <= i < |entries| ==> HasReferences(refs, entries[i])
    ensures next.Failure? ==> FirstMissing(entries, refs, next.error)
    ensures entries == [entries[0]] + entries[1..]
  {
    var tail := entries[1..];
    assert forall j :: 0 <= j < |tail| ==> tail[j] == entries[j + 1];
    if next.Failure? {
      var i :| FirstMissingAt(tail, refs, next.error, i);
      assert FirstMissingAt(entries, refs, next.error, i + 1);
    }
  }

  /** One step of the hull-entry filter keeps its order and membership
      promises. */
  lemma KeepStep(refs: map<Element, Entry>, e: Entry, tail: seq<Entry>, rest: seq<Entry>)
    requires HasReferences(refs, e)
    requires IsSubsequence(rest, tail)
    requires forall x :: x in tail ==> (x in rest <==> IsHullCandidate(refs, x))
    ensures var r := if IsHullCandidate(refs, e) then [e] + rest else rest;
            && IsSubsequence(r, [e] + tail)
            && forall x :: x in [e] + tail ==> (x in r <==> IsHullCandidate(refs, x))
  {
    SubsequenceMembers(rest, tail);
    assert ([e] + tail)[1..] == tail;
    assert forall x :: x in [e] + tail <==> x == e || x in tail;
  }

  /** Copies: an entry is kept as often as it occurs when it is a
      candidate, and never otherwise. */
  lemma KeepCopies(refs: map<Element, Entry>, e: Entry, tail: seq<Entry>, rest: seq<Entry>)
    requires CandidateCopies(rest, tail, refs)
    ensures CandidateCopies(if IsHullCandidate(refs, e) then [e] + rest else rest, [e] + tail, refs)
  {
    assert multiset([e] + tail) == multiset{e} + multiset(tail);
    assert multiset([e] + rest) == multiset{e} + multiset(rest);
  }

  /** The elements of `s` in ascending atomic-number order. */
  function SortedElements(s: set<Element>): (r: seq<Element>)
    ensures |r| == |s|
    ensures forall el :: el in r <==> el in s
    ensures forall i, j :: 0 <= i < j < |r| ==> r[i].z < r[j].z
    decreases s
  {
    if s == {} then []
    else
      var m := MinElement(s);
      var rest := SortedElements(s - {m});
      SortedStep(s, m, rest);
      [m] + rest
  }

  lemma SortedStep(s: set<Element>, m: Element, rest: seq<Element>)
    requires m in s && forall x :: x in s ==> m.z <= x.z
    requires |rest| == |s - {m}|
    requires forall el :: el in rest <==> el in s - {m}
    requires forall i, j :: 0 <= i < j < |rest| ==> rest[i].z < rest[j].z
    ensures |[m] + rest| == |s|
    ensures forall el :: el in [m] + rest <==> el in s
    ensures forall i, j :: 0 <= i < j < |[m] + rest| ==> ([m] + rest)[i].z < ([m] + rest)[j].z
  {
    assert s == (s - {m}) + {m};
    forall j | 0 < j < |[m] + rest|
      ensures m.z < ([m] + rest)[j].z
    {
      var el := rest[j - 1];
      assert el in s - {m};
    }
  }

  /** The references of `els`, in the order of `els`. */
  function ReferencesOf(refs: map<Element, Entry>, els: seq<Element>): (r: seq<Entry>)
    requires forall el :: el in els ==> el in refs
    ensures |r| == |els|
    ensures forall i :: 0 <= i < |els| ==> r[i] == refs[els[i]]
  {
    if els == [] then [] else [refs[els[0]]] + ReferencesOf(refs, els[1..])
  }

  /** `e` is the reference of some element. */
  predicate IsReferenceValue(refs: map<Element, Entry>, e: Entry) {
    exists el :: el in refs && refs[el] == e
  }

  /** The reference entries, one per element in ascending element order
      (pymatgen appends `el_refs.values()`, whose order Python 2 leaves
      unspecified). */
  function ReferenceList(refs: map<Element, Entry>): (r: seq<Entry>)
    ensures |r| == |refs|
    ensures forall e :: e in r <==> IsReferenceValue(refs, e)
  {
    var els := SortedElements(refs.Keys);
    var r := ReferencesOf(refs, els);
    forall e | e in r
      ensures IsReferenceValue(refs, e)
    {
      ListedIsReference(refs, els, e);
    }
    forall e | IsReferenceValue(refs, e)
      ensures e in r
    {
      ReferenceIsListed(refs, els, e);
    }
    r
  }

  lemma ListedIsReference(refs: map<Element, Entry>, els: seq<Element>, e: Entry)
    requires forall el :: el in els ==> el in refs
    requires e in ReferencesOf(refs, els)
    ensures IsReferenceValue(refs, e)
  {
    var r := ReferencesOf(refs, els);
    var i :| 0 <= i < |r| && r[i] == e;
    assert els[i] in refs && refs[els[i]] == e;
  }

  lemma ReferenceIsListed(refs: map<Element, Entry>, els: seq<Element>, e: Entry)
    requires forall el :: el in els <==> el in refs
    requires IsReferenceValue(refs, e)
    ensures e in ReferencesOf(refs, els)
  {
    var el :| el in refs && refs[el] == e;
    var i :| 0 <= i < |els| && els[i] == el;
    assert ReferencesOf(refs, els)[i] == e;
  }

  /** Some pure entry of every element occurring in `entries` is present. */
  ghost predicate ReferencesAvailable(entries: seq<Entry>) {
    forall i, el :: 0 <= i < |entries| && el in entries[i].composition ==>
      exists j :: 0 <= j < |entries| && PureOf(entries[j], el)
  }

  lemma ReferencesAvailableMeansCovered(entries: seq<Entry>)
    ensures ReferencesAvailable(entries) <==>
              forall i :: 0 <= i < |entries| ==> HasReferences(ElRefs(entries), entries[i])
  {
    var refs := ElRefs(entries);
    if ReferencesAvailable(entries) {
      forall i | 0 <= i < |entries|
        ensures HasReferences(refs, entries[i])
      {
        forall el | el in entries[i].composition
          ensures el in refs
        {
          assert exists j :: 0 <= j < |entries| && PureOf(entries[j], el);
        }
      }
    } else {
      var i, el :| 0 <= i < |entries| && el in entries[i].composition &&
        !exists j :: 0 <= j < |entries| && PureOf(entries[j], el);
      assert !HasReferences(refs, entries[i]);
    }
  }

  /** The entries fed to the hull given the references: the
      negative-formation-energy entries in input order, followed by the
      references. */
  function HullInput(entries: seq<Entry>, refs: map<Element, Entry>): (r: Result<seq<Entry>>)
    ensures r.Success? <==> forall i :: 0 <= i < |entries| ==> HasReferences(refs, entries[i])
    ensures r.Failure? ==> r.error.MissingReference? && r.error.entry in entries
    ensures r.Failure? ==> FirstMissing(entries, refs, r.error)
    ensures r.Success? ==> |r.value| >= |refs|
    ensures r.Success? ==>
              var n := |r.value| - |refs|;
              && IsSubsequence(r.value[..n], entries)
              && (forall e :: e in entries ==> (e in r.value[..n] <==> IsHullCandidate(refs, e)))
              && CandidateCopies(r.value[..n], entries, refs)
              && (forall e :: e in r.value[n..] <==> IsReferenceValue(refs, e))
    ensures r.Success? ==>
              forall e :: e in r.value ==> e in entries || IsReferenceValue(refs, e)
  {
    match NegativeFormationEntries(entries, refs)
    case Failure(err) => Failure(err)
    case Success(front) =>
      var back := ReferenceList(refs);
      SplitAppend(front, back);
      SubsequenceMembers(front, entries);
      Success(front + back)
  }

  /** A hull entry that is not a reference is a kept input entry. */
  lemma HullEntryKind(entries: seq<Entry>, refs: map<Element, Entry>, e: Entry)
    requires HullInput(entries, refs).Success? && e in HullInput(entries, refs).value
    requires !IsReferenceValue(refs, e)
    ensures e in entries && IsHullCandidate(refs, e)
  {
    var q := HullInput(entries, refs).value;
    var n := |q| - |refs|;
    assert e in entries;
    assert e !in q[n..];
    assert q == q[..n] + q[n..];
    SplitAppend(q[..n], q[n..]);
    assert e in q[..n];
  }

  lemma SplitAppend<T>(front: seq<T>, back: seq<T>)
    ensures (front + back)[..|front|] == front
    ensures (front + back)[|front|..] == back
    ensures forall x :: x in front + back <==> x in front || x in back
  {
  }

  /** With the references chosen from the entries themselves (pymatgen's
      `qhull_entries`), the hull input can be built exactly when every
      element of every entry has some pure entry, and it never introduces
      an entry from outside the input. */
  lemma QhullEntriesFromOwnReferences(entries: seq<Entry>)
    ensures HullInput(entries, ElRefs(entries)).Success? <==> ReferencesAvailable(entries)
    ensures HullInput(entries, ElRefs(entries)).Success? ==>
              forall e :: e in HullInput(entries, ElRefs(entries)).value ==> e in entries
  {
    var refs := ElRefs(entries);
    ReferencesAvailableMeansCovered(entries);
    assert CoversPureElements(refs, entries);
    var r := HullInput(entries, refs);
    if r.Success? {
      forall e | e in r.value
        ensures e in entries
      {
        assert e in entries || IsReferenceValue(refs, e);
      }
    }
  }

  lemma {:induction false} SubsequenceMembers<T>(a: seq<T>, b: seq<T>)
    requires IsSubsequence(a, b)
    ensures forall x :: x in a ==> x in b
    decreases |b|
  {
    if a != [] && b != [] {
      if a[0] == b[0] && IsSubsequence(a[1..], b[1..]) {
        SubsequenceMembers(a[1..], b[1..]);
        assert forall x :: x in a ==> x == a[0] || x in a[1..];
      } else {
        SubsequenceMembers(a, b[1..]);
      }
      assert forall x :: x in b[1..] ==> x in b;
    }
  }

  /** One row of the hull input: the atomic fractions of `elements[1..]`
      followed by the energy per atom. `elements[0]` is left out because
      the fractions of all basis elements sum to one. */
  function HullRow(e: Entry, elements: seq<Element>): (row: seq<real>)
    ensures |row| == if |elements| == 0 then 1 else |elements|
    ensures |row| >= 1 && row[|row| - 1] == EnergyPerAtom(e)
    ensures forall i :: 1 <= i < |elements| ==> row[i - 1] == AtomicFraction(e.composition, elements[i])
    ensures forall i :: 0 <= i < |row| - 1 ==> 0.0 <= row[i] <= 1.0
  {
    var k := if |elements| == 0 then 0 else |elements| - 1;
    seq(k, i requires 0 <= i < k => AtomicFraction(e.composition, elements[i + 1])) + [EnergyPerAtom(e)]
  }

  /** The hull input matrix, one row per entry and in the same order. */
  function HullRows(entries: seq<Entry>, elements: seq<Element>): (rows: seq<seq<real>>)
    ensures |rows| == |entries|
    ensures forall i :: 0 <= i < |entries| ==> rows[i] == HullRow(entries[i], elements)
  {
    seq(|entries|, i requires 0 <= i < |entries| => HullRow(entries[i], elements))
  }
}
