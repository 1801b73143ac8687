/** The degenerate-facet filter of `_make_phasediagram`
    (pymatgen/phasediagram/pdmaker.py): a facet returned by the hull
    backend survives only when it is not vertical and not made entirely of
    pure-element vertices. The determinant is computed exactly over the
    reals. */
module Facets {
  import opened Entries
  import opened Sequences

  /** A facet whose homogeneous determinant is at most this in absolute
      value is vertical (the 1e-8 threshold of the source). */
  const VerticalTolerance: real := 0.00000001

  function Abs(x: real): real {
    if x < 0.0 then -x else x
  }

  predicate IsSquare(m: seq<seq<real>>) {
    forall i :: 0 <= i < |m| ==> |m[i]| == |m|
  }

  /** `m` without its first row and its `k`-th column. */
  function Minor(m: seq<seq<real>>, k: nat): (r: seq<seq<real>>)
    requires IsSquare(m) && k < |m|
    ensures |r| == |m| - 1 && IsSquare(r)
    ensures forall i, j :: 0 <= i < |r| && 0 <= j < |r| ==>
              r[i][j] == if j < k then m[i + 1][j] else m[i + 1][j + 1]
  {
    seq(|m| - 1, i requires 0 <= i < |m| - 1 => m[i + 1][..k] + m[i + 1][k + 1..])
  }

  function Sign(k: nat): real {
    if k % 2 == 0 then 1.0 else -1.0
  }

  /** Determinant by cofactor expansion along the first row; the empty
      matrix has determinant one, as in numpy. */
  function Det(m: seq<seq<real>>): real
    requires IsSquare(m)
    decreases |m|, 1
  {
    if |m| == 0 then 1.0 else Cofactors(m, 0)
  }

  /** Sum of the first-row cofactor terms from column `k` onwards. */
  function Cofactors(m: seq<seq<real>>, k: nat): real
    requires IsSquare(m) && 0 < |m| && k <= |m|
    decreases |m|, 0, |m| - k
  {
    if k == |m| then 0.0
    else Sign(k) * m[0][k] * Det(Minor(m, k)) + Cofactors(m, k + 1)
  }

  lemma Det1(a: real)
    ensures Det([[a]]) == a
  {
    var m := [[a]];
    assert Minor(m, 0) == [];
    assert Det(Minor(m, 0)) == 1.0;
    assert Cofactors(m, 1) == 0.0;
    assert Cofactors(m, 0) == Sign(0) * a * Det(Minor(m, 0)) + Cofactors(m, 1);
  }

  lemma Det2(a: real, b: real, c: real, d: real)
    ensures Det([[a, b], [c, d]]) == a * d - b * c
  {
    var m := [[a, b], [c, d]];
    assert Minor(m, 0)[0] == [d];
    assert Minor(m, 1)[0] == [c];
    assert Minor(m, 0) == [[d]];
    assert Minor(m, 1) == [[c]];
    Det1(c);
    Det1(d);
    assert Cofactors(m, 2) == 0.0;
    assert Cofactors(m, 1) == -1.0 * b * c;
    assert Cofactors(m, 0) == a * d + Cofactors(m, 1);
  }

  /** A facet the hull backend may return for rows of width `dim`: either
      empty (numpy then sees a 0x0 matrix) or `dim` indices of rows of
      width `dim`. */
  predicate ValidFacet(f: seq<nat>, rows: seq<seq<real>>, dim: nat) {
    |f| == 0 || (|f| == dim && forall i :: 0 <= i < |f| ==> f[i] < |rows| && |rows[f[i]]| == dim)
  }

  /** The facet's rows with their last (energy) column replaced by one. */
  function FacetMatrix(rows: seq<seq<real>>, f: seq<nat>, dim: nat): (m: seq<seq<real>>)
    requires ValidFacet(f, rows, dim)
    ensures |m| == |f| && IsSquare(m)
    ensures forall i, j :: 0 <= i < |f| && 0 <= j < |f| - 1 ==> m[i][j] == rows[f[i]][j]
    ensures forall i :: 0 <= i < |f| ==> m[i][|f| - 1] == 1.0
  {
    seq(|f|, i requires 0 <= i < |f| => rows[f[i]][dim - 1 := 1.0])
  }

  /** The facet is degenerate in the energy direction. */
  predicate IsVertical(rows: seq<seq<real>>, f: seq<nat>, dim: nat)
    requires ValidFacet(f, rows, dim)
  {
    Abs(Det(FacetMatrix(rows, f, dim))) <= VerticalTolerance
  }

  /** No vertex of the facet has more than one element. */
  predicate IsElementFacet(entries: seq<Entry>, f: seq<nat>)
    requires forall i :: 0 <= i < |f| ==> f[i] < |entries|
  {
    forall i :: 0 <= i < |f| ==> |entries[f[i]].composition| <= 1
  }

  predicate KeepFacet(entries: seq<Entry>, rows: seq<seq<real>>, f: seq<nat>, dim: nat)
    requires |rows| == |entries| && ValidFacet(f, rows, dim)
  {
    !IsVertical(rows, f, dim) && !IsElementFacet(entries, f)
  }

  /** `f` is a readable facet that the filter keeps. */
  predicate Kept(entries: seq<Entry>, rows: seq<seq<real>>, f: seq<nat>, dim: nat) {
    |rows| == |entries| && ValidFacet(f, rows, dim) && KeepFacet(entries, rows, f, dim)
  }

  /** The facets, in order, that are neither vertical nor all-element. */
  function FilterFacets(facets: seq<seq<nat>>, entries: seq<Entry>, rows: seq<seq<real>>, dim: nat): (kept: seq<seq<nat>>)
    requires |rows| == |entries|
    requires forall i :: 0 <= i < |facets| ==> ValidFacet(facets[i], rows, dim)
    ensures IsSubsequence(kept, facets)
    ensures forall i :: 0 <= i < |kept| ==> ValidFacet(kept[i], rows, dim) && KeepFacet(entries, rows, kept[i], dim)
    ensures forall i :: 0 <= i < |facets| && KeepFacet(entries, rows, facets[i], dim) ==> facets[i] in kept
    ensures forall f :: multiset(kept)[f] == if Kept(entries, rows, f, dim) then multiset(facets)[f] else 0
    decreases |facets|
  {
    if |facets| == 0 then []
    else
      var f := facets[0];
      var rest := FilterFacets(facets[1..], entries, rows, dim);
      assert forall i :: 1 <= i < |facets| ==> facets[i] == facets[1..][i - 1];
      assert facets == [f] + facets[1..];
      assert Kept(entries, rows, f, dim) == KeepFacet(entries, rows, f, dim);
      assert multiset(facets) == multiset{f} + multiset(facets[1..]);
      assert multiset([f] + rest) == multiset{f} + multiset(rest);
      if KeepFacet(entries, rows, f, dim) then [f] + rest else rest
  }

  /** In a two-element diagram a facet joins two vertices, and it is
      vertical exactly when their fractions of the second element are
      within the tolerance of each other. */
  lemma BinaryVerticalFacet(rows: seq<seq<real>>, u: nat, v: nat)
    requires u < |rows| && v < |rows| && |rows[u]| == 2 && |rows[v]| == 2
    ensures ValidFacet([u, v], rows, 2)
    ensures IsVertical(rows, [u, v], 2) <==> Abs(rows[u][0] - rows[v][0]) <= VerticalTolerance
  {
    var f := [u, v];
    assert ValidFacet(f, rows, 2);
    var m := FacetMatrix(rows, f, 2);
    assert m[0] == [rows[u][0], 1.0];
    assert m[1] == [rows[v][0], 1.0];
    assert m == [[rows[u][0], 1.0], [rows[v][0], 1.0]];
    Det2(rows[u][0], 1.0, rows[v][0], 1.0);
  }

  /** The verticality test never looks at the energy column. */
  lemma VerticalIgnoresEnergy(rows: seq<seq<real>>, rows': seq<seq<real>>, f: seq<nat>, dim: nat)
    requires ValidFacet(f, rows, dim) && ValidFacet(f, rows', dim) && 0 < dim
    requires forall i :: 0 <= i < |f| ==> rows[f[i]][..dim - 1] == rows'[f[i]][..dim - 1]
    ensures IsVertical(rows, f, dim) == IsVertical(rows', f, dim)
  {
    if |f| > 0 {
      var m, m' := FacetMatrix(rows, f, dim), FacetMatrix(rows', f, dim);
      forall i | 0 <= i < |f|
        ensures m[i] == m'[i]
      {
        var r, r' := rows[f[i]], rows'[f[i]];
        assert r[..dim - 1] == r'[..dim - 1];
        forall j | 0 <= j < dim - 1
          ensures m[i][j] == m'[i][j]
        {
          assert r[j] == r[..dim - 1][j];
          assert r'[j] == r'[..dim - 1][j];
        }
      }
      assert m == m';
    }
  }

  /** The entries named by some vertex of some facet. */
  function VertexEntries(facets: seq<seq<nat>>, entries: seq<Entry>): (r: set<Entry>)
    requires forall i, j :: 0 <= i < |facets| && 0 <= j < |facets[i]| ==> facets[i][j] < |entries|
    ensures forall e :: e in r ==> e in entries
    ensures forall i, j :: 0 <= i < |facets| && 0 <= j < |facets[i]| ==> entries[facets[i][j]] in r
  {
    set i, j | 0 <= i < |facets| && 0 <= j < |facets[i]| :: entries[facets[i][j]]
  }

  /** Every entry of `VertexEntries` is named by some vertex of some
      facet; with the contract of `VertexEntries` this makes it exactly the
      set of vertex entries. */
  lemma VertexEntriesExact(facets: seq<seq<nat>>, entries: seq<Entry>, e: Entry)
    requires forall i, j :: 0 <= i < |facets| && 0 <= j < |facets[i]| ==> facets[i][j] < |entries|
    requires e in VertexEntries(facets, entries)
    ensures exists i, j :: 0 <= i < |facets| && 0 <= j < |facets[i]| && entries[facets[i][j]] == e
  {
  }
}
