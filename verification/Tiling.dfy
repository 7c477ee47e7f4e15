/**
  Chunks of a heap page as a tiling of its units: a map from the offset of each
  chunk to its size, in which every unit lies in exactly one chunk.
*/
module Tiling {

  type Sizes = map<nat, nat>

  predicate InChunk(m: Sizes, o: nat, u: nat)
    requires o in m
  {
    o <= u < o + m[o]
  }

  ghost predicate Covered(m: Sizes, u: nat) {
    exists o :: o in m && InChunk(m, o, u)
  }

  /** No gap and no overlap between 0 and `total`. */
  ghost predicate Tiles(m: Sizes, total: nat) {
    && (forall o :: o in m ==> m[o] > 0 && o + m[o] <= total)
    && (forall o, p :: o in m && p in m && o < p ==> o + m[o] <= p)
    && (forall u: nat :: u < total ==> Covered(m, u))
  }

  /** Cuts the chunk at `o` after its first `k` units. */
  function Split(m: Sizes, o: nat, k: nat): Sizes
    requires o in m && k <= m[o]
  {
    m[o + k := m[o] - k][o := k]
  }

  lemma SplitTiles(m: Sizes, total: nat, o: nat, k: nat)
    requires Tiles(m, total) && o in m && 0 < k < m[o]
    ensures Tiles(Split(m, o, k), total)
  {
    SplitOrder(m, total, o, k);
    forall u: nat | u < total
      ensures Covered(Split(m, o, k), u)
    {
      SplitCovers(m, total, o, k, u);
    }
  }

  /** The chunks stay inside and do not overlap. */
  lemma SplitOrder(m: Sizes, total: nat, o: nat, k: nat)
    requires Tiles(m, total) && o in m && 0 < k < m[o]
    ensures var m' := Split(m, o, k);
            && (forall p :: p in m' ==> m'[p] > 0 && p + m'[p] <= total)
            && (forall p, q :: p in m' && q in m' && p < q ==> p + m'[p] <= q)
  {
    hide Covered;
    var m' := Split(m, o, k);
    forall p, q | p in m' && q in m' && p < q
      ensures p + m'[p] <= q
    {
      if p == o + k {
        assert o < q;
        assert o + m[o] <= q;
      } else if q == o + k && p < o {
        assert p + m[p] <= o;
      }
    }
  }

  lemma SplitCovers(m: Sizes, total: nat, o: nat, k: nat, u: nat)
    requires Tiles(m, total) && o in m && 0 < k < m[o] && u < total
    ensures Covered(Split(m, o, k), u)
  {
    var m' := Split(m, o, k);
    assert Covered(m, u);
    var p :| p in m && InChunk(m, p, u);
    if p == o && u >= o + k {
      assert InChunk(m', o + k, u);
    } else {
      assert p != o + k;
      assert InChunk(m', p, u);
    }
  }

  /** Joins the chunk at `o` with the one that starts where it ends. */
  function Merge(m: Sizes, o: nat): Sizes
    requires o in m && o + m[o] in m
  {
    (m - {o + m[o]})[o := m[o] + m[o + m[o]]]
  }

  lemma MergeTiles(m: Sizes, total: nat, o: nat)
    requires Tiles(m, total) && o in m && o + m[o] in m
    ensures Tiles(Merge(m, o), total)
  {
    var m' := Merge(m, o);
    MergeOrder(m, total, o);
    forall u: nat | u < total
      ensures Covered(m', u)
    {
      MergeCovers(m, total, o, u);
    }
  }

  /** The chunks stay inside and do not overlap. */
  lemma MergeOrder(m: Sizes, total: nat, o: nat)
    requires Tiles(m, total) && o in m && o + m[o] in m
    ensures var m' := Merge(m, o);
            && (forall p :: p in m' ==> m'[p] > 0 && p + m'[p] <= total)
            && (forall p, q :: p in m' && q in m' && p < q ==> p + m'[p] <= q)
  {
    hide Covered;
    var m', n := Merge(m, o), o + m[o];
    forall p, q | p in m' && q in m' && p < q
      ensures p + m'[p] <= q
    {
      if p == o {
        assert n < q;
        assert n + m[n] <= q;
      }
    }
  }

  lemma MergeCovers(m: Sizes, total: nat, o: nat, u: nat)
    requires Tiles(m, total) && o in m && o + m[o] in m && u < total
    ensures Covered(Merge(m, o), u)
  {
    assert Covered(m, u);
    var p :| p in m && InChunk(m, p, u);
    assert InChunk(Merge(m, o), if p == o + m[o] then o else p, u);
  }

  lemma MergeUndoesSplit(m: Sizes, o: nat, k: nat)
    requires o in m && 0 < k < m[o] && o + k !in m
    ensures o in Split(m, o, k) && o + k in Split(m, o, k)
    ensures Merge(Split(m, o, k), o) == m
  {
    assert Split(m, o, k) - {o + k} == m[o := k];
  }

  /** Unit `u` belongs to an allocated chunk. */
  ghost predicate UnitAllocated(m: Sizes, alloc: set<nat>, u: nat) {
    exists o :: o in alloc && o in m && InChunk(m, o, u)
  }

  /** Unit `u` belongs to a free chunk. */
  ghost predicate UnitFree(m: Sizes, alloc: set<nat>, u: nat) {
    exists o :: o in m && o !in alloc && InChunk(m, o, u)
  }

  /** In a tiling every unit is either free or allocated, never both. */
  lemma FreeOrAllocated(m: Sizes, total: nat, alloc: set<nat>, u: nat)
    requires Tiles(m, total) && u < total
    ensures UnitFree(m, alloc, u) <==> !UnitAllocated(m, alloc, u)
  {
    assert Covered(m, u);
    var p :| p in m && InChunk(m, p, u);
    forall q | q in m && InChunk(m, q, u)
      ensures q == p
    {
    }
  }

  /** Two tilings with the same allocated chunks have the same free units. */
  lemma SameFreeUnits(m: Sizes, m': Sizes, total: nat, alloc: set<nat>, u: nat)
    requires Tiles(m, total) && Tiles(m', total) && u < total
    requires alloc <= m.Keys && alloc <= m'.Keys
    requires forall o :: o in alloc ==> m'[o] == m[o]
    ensures UnitFree(m, alloc, u) <==> UnitFree(m', alloc, u)
  {
    FreeOrAllocated(m, total, alloc, u);
    FreeOrAllocated(m', total, alloc, u);
    if UnitAllocated(m, alloc, u) {
      var o :| o in alloc && o in m && InChunk(m, o, u);
      assert InChunk(m', o, u);
    }
    if UnitAllocated(m', alloc, u) {
      var o :| o in alloc && o in m' && InChunk(m', o, u);
      assert InChunk(m, o, u);
    }
  }

  /** Total size of the listed chunks. */
  function SumOf(m: Sizes, list: seq<nat>): nat {
    if list == [] then 0 else (if list[0] in m then m[list[0]] else 0) + SumOf(m, list[1..])
  }

  lemma {:induction false} SumOfFrame(m: Sizes, m': Sizes, list: seq<nat>)
    requires forall o :: o in list ==> o in m && o in m' && m'[o] == m[o]
    ensures SumOf(m', list) == SumOf(m, list)
  {
    if list != [] {
      SumOfFrame(m, m', list[1..]);
    }
  }

  lemma {:induction false} SumOfConcat(m: Sizes, a: seq<nat>, b: seq<nat>)
    ensures SumOf(m, a + b) == SumOf(m, a) + SumOf(m, b)
  {
    if a == [] {
      assert a + b == b;
    } else {
      assert (a + b)[1..] == a[1..] + b;
      SumOfConcat(m, a[1..], b);
    }
  }
}
