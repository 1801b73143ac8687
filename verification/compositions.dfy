/** Chemical elements, compositions and the sums taken over them.

    A composition maps each element present to its amount, which lies
    above the amount tolerance. Sums over a composition are taken in
    ascending atomic-number order, which makes them deterministic; for the
    plain sum `Sum` the order does not change the value (`SumRemove`). */
module Compositions {

  /** A chemical element, identified (and ordered) by its atomic number. */
  datatype Element = Element(z: nat)

  /** Amount of each element present in a formula. */
  type Composition = map<Element, real>

  /** Every element listed has a strictly positive amount. */
  predicate AllPositive(c: map<Element, real>) {
    forall el :: el in c ==> c[el] > 0.0
  }

  /** pymatgen's `Composition.amount_tolerance`: smaller amounts are
      numerical noise. */
  const AmountTolerance: real := 0.00000001

  /** Every element listed has an amount above the tolerance. */
  predicate AllSignificant(c: map<Element, real>) {
    forall el :: el in c ==> c[el] > AmountTolerance
  }

  /** A composition as the rest of the model expects it: at least one
      element, and no amount at or below the tolerance, so every element
      listed is one that counts. */
  predicate WellFormed(c: Composition) {
    |c| > 0 && AllSignificant(c)
  }

  predicate IsLeast(m: Element, s: set<Element>) {
    m in s && forall x :: x in s ==> m.z <= x.z
  }

  lemma {:induction false} LeastExists(s: set<Element>)
    requires s != {}
    ensures exists m :: IsLeast(m, s)
    decreases s
  {
    var y :| y in s;
    if s == {y} {
      assert IsLeast(y, s);
    } else {
      LeastExists(s - {y});
      var m :| IsLeast(m, s - {y});
      if y.z <= m.z {
        assert IsLeast(y, s);
      } else {
        assert IsLeast(m, s);
      }
    }
  }

  /** The element of `s` with the smallest atomic number. */
  function MinElement(s: set<Element>): (m: Element)
    requires s != {}
    ensures m in s
    ensures forall x :: x in s ==> m.z <= x.z
  {
    LeastExists(s);
    var m :| IsLeast(m, s);
    m
  }

  /** Sum of the values of `m`, taken in ascending element order. */
  function Sum(m: map<Element, real>): real
    decreases m.Keys
  {
    if m.Keys == {} then 0.0
    else
      var k := MinElement(m.Keys);
      m[k] + Sum(m - {k})
  }

  lemma SumSingleton(k: Element, v: real)
    ensures Sum(map[k := v]) == v
  {
    var m := map[k := v];
    assert m.Keys == {k};
    assert (m - {k}).Keys == {};
  }

  lemma {:induction false} SumNonNegative(m: map<Element, real>)
    requires AllPositive(m)
    ensures Sum(m) >= 0.0
    decreases m.Keys
  {
    if m.Keys != {} {
      SumNonNegative(m - {MinElement(m.Keys)});
    }
  }

  /** The order of summation does not matter: taking out any key, not
      just the least one, splits off exactly its value. */
  lemma {:induction false} SumRemove(m: map<Element, real>, k: Element)
    requires k in m
    ensures Sum(m) == m[k] + Sum(m - {k})
    decreases m.Keys
  {
    var j := MinElement(m.Keys);
    if k != j {
      SumRemove(m - {j}, k);
      MinAfterRemove(m.Keys, k);
      assert m - {j} - {k} == m - {k} - {j};
    }
  }

  /** Removing an element other than the least keeps the least. */
  lemma MinAfterRemove(s: set<Element>, k: Element)
    requires s != {} && k != MinElement(s)
    ensures s - {k} != {} && MinElement(s - {k}) == MinElement(s)
  {
    var j := MinElement(s);
    assert j in s - {k};
    var j' := MinElement(s - {k});
    assert j'.z == j.z;
  }

  /** Each amount of a positive map is bounded by the total. */
  lemma {:induction false} ValueAtMostSum(m: map<Element, real>, k: Element)
    requires AllPositive(m)
    requires k in m
    ensures 0.0 < m[k] <= Sum(m)
    decreases m.Keys
  {
    var j := MinElement(m.Keys);
    SumNonNegative(m - {j});
    if k != j {
      ValueAtMostSum(m - {j}, k);
    }
  }

  /** Total number of atoms in the formula (pymatgen's `num_atoms`). */
  function NumAtoms(c: Composition): (n: real)
    requires WellFormed(c)
    ensures n > 0.0
  {
    ValueAtMostSum(c, MinElement(c.Keys));
    Sum(c)
  }

  /** No element has more atoms than the whole formula. */
  lemma AmountAtMostNumAtoms(c: Composition, el: Element)
    requires WellFormed(c) && el in c
    ensures c[el] <= NumAtoms(c)
  {
    ValueAtMostSum(c, el);
  }

  /** Fraction of the atoms of `c` that are `el`; zero when `el` is absent
      (pymatgen's `get_atomic_fraction`). */
  function AtomicFraction(c: Composition, el: Element): (x: real)
    requires WellFormed(c)
    ensures 0.0 <= x <= 1.0
    ensures x > 0.0 <==> el in c
    ensures x * NumAtoms(c) == if el in c then c[el] else 0.0
  {
    if el in c then
      AmountAtMostNumAtoms(c, el);
      c[el] / NumAtoms(c)
    else 0.0
  }
}
