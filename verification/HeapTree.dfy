/**
  The free tree of a heap page as a value: a binary search tree of free chunks
  ordered by size, with the operations that the page performs on it.

  Sizes to the left are at most, and sizes to the right at least, the size of a
  node. Equal sizes are inserted to the left, but promoting a successor can
  leave an equal size on the right, so neither side is strict.
*/
module HeapTree {
  import opened Common
  import opened HeapSort

  datatype Tree = Leaf | Node(left: Tree, off: nat, size: nat, right: Tree)

  function Offs(t: Tree): set<nat> {
    match t
    case Leaf => {}
    case Node(l, o, _, r) => Offs(l) + {o} + Offs(r)
  }

  function Count(t: Tree): nat {
    match t
    case Leaf => 0
    case Node(l, _, _, r) => Count(l) + 1 + Count(r)
  }

  function Total(t: Tree): nat {
    match t
    case Leaf => 0
    case Node(l, _, s, r) => Total(l) + s + Total(r)
  }

  /** `t` contains the chunk of size `s` at offset `o`. */
  predicate Has(t: Tree, o: nat, s: nat) {
    match t
    case Leaf => false
    case Node(l, o', s', r) => (o == o' && s == s') || Has(l, o, s) || Has(r, o, s)
  }

  /** No offset occurs twice. */
  predicate Distinct(t: Tree) {
    match t
    case Leaf => true
    case Node(l, o, _, r) => Distinct(l) && Distinct(r) && o !in Offs(l) && o !in Offs(r) && Offs(l) !! Offs(r)
  }

  predicate AllAtMost(t: Tree, x: nat) {
    match t
    case Leaf => true
    case Node(l, _, s, r) => s <= x && AllAtMost(l, x) && AllAtMost(r, x)
  }

  predicate AllAtLeast(t: Tree, x: nat) {
    match t
    case Leaf => true
    case Node(l, _, s, r) => s >= x && AllAtLeast(l, x) && AllAtLeast(r, x)
  }

  predicate Ordered(t: Tree) {
    match t
    case Leaf => true
    case Node(l, _, s, r) => Ordered(l) && Ordered(r) && AllAtMost(l, s) && AllAtLeast(r, s)
  }

  /** Insertion: a chunk of equal size goes between the node and its left subtree. */
  function Insert(t: Tree, o: nat, s: nat): Tree {
    match t
    case Leaf => Node(Leaf, o, s, Leaf)
    case Node(l, o', s', r) =>
      if s > s' then Node(l, o', s', Insert(r, o, s))
      else if s < s' then Node(Insert(l, o, s), o', s', r)
      else Node(Node(l, o, s, Leaf), o', s', r)
  }

  /** The leftmost node, and the tree without it. */
  function MinOff(t: Tree): nat
    requires t.Node?
  {
    if t.left.Leaf? then t.off else MinOff(t.left)
  }

  function MinSize(t: Tree): nat
    requires t.Node?
  {
    if t.left.Leaf? then t.size else MinSize(t.left)
  }

  function DeleteMin(t: Tree): Tree
    requires t.Node?
  {
    if t.left.Leaf? then t.right else Node(DeleteMin(t.left), t.off, t.size, t.right)
  }

  /** Removal of the root: the successor is promoted when there are two children. */
  function DeleteRoot(t: Tree): Tree
    requires t.Node?
  {
    if t.left.Node? && t.right.Node? then Node(t.left, MinOff(t.right), MinSize(t.right), DeleteMin(t.right))
    else if t.left.Node? then t.left
    else t.right
  }

  /** A tree with one subtree missing, seen from the hole upwards. */
  datatype Ctx =
    | Top
    | InLeft(up: Ctx, off: nat, size: nat, right: Tree)
    | InRight(up: Ctx, left: Tree, off: nat, size: nat)

  function Plug(c: Ctx, t: Tree): Tree {
    match c
    case Top => t
    case InLeft(up, o, s, r) => Plug(up, Node(t, o, s, r))
    case InRight(up, l, o, s) => Plug(up, Node(l, o, s, t))
  }

  function PreOrder(t: Tree): (p: seq<nat>)
    ensures |p| == Count(t)
  {
    match t
    case Leaf => []
    case Node(l, o, _, r) => [o] + PreOrder(l) + PreOrder(r)
  }

  // ---------------------------------------------------------------------
  // Insertion
  // ---------------------------------------------------------------------

  lemma {:induction false} HasOffs(t: Tree, o: nat, s: nat)
    requires Has(t, o, s)
    ensures o in Offs(t)
  {
    if Has(t.left, o, s) {
      HasOffs(t.left, o, s);
    } else if Has(t.right, o, s) {
      HasOffs(t.right, o, s);
    }
  }

  lemma {:induction false} OffsHas(t: Tree, o: nat) returns (s: nat)
    requires o in Offs(t)
    ensures Has(t, o, s)
  {
    if o in Offs(t.left) {
      s := OffsHas(t.left, o);
    } else if o in Offs(t.right) {
      s := OffsHas(t.right, o);
    } else {
      s := t.size;
    }
  }

  lemma {:induction false} BoundsWeaken(t: Tree, x: nat, y: nat)
    requires x <= y
    ensures AllAtMost(t, x) ==> AllAtMost(t, y)
    ensures AllAtLeast(t, y) ==> AllAtLeast(t, x)
  {
    if t.Node? {
      BoundsWeaken(t.left, x, y);
      BoundsWeaken(t.right, x, y);
    }
  }

  lemma {:induction false} InsertBounds(t: Tree, o: nat, s: nat, x: nat)
    ensures AllAtMost(t, x) && s <= x ==> AllAtMost(Insert(t, o, s), x)
    ensures AllAtLeast(t, x) && s >= x ==> AllAtLeast(Insert(t, o, s), x)
  {
    if t.Node? {
      InsertBounds(t.left, o, s, x);
      InsertBounds(t.right, o, s, x);
    }
  }

  lemma {:induction false} InsertAdds(t: Tree, o: nat, s: nat)
    ensures Offs(Insert(t, o, s)) == Offs(t) + {o}
    ensures Count(Insert(t, o, s)) == Count(t) + 1
    ensures Total(Insert(t, o, s)) == Total(t) + s
  {
    match t
    case Leaf =>
    case Node(l, o', s', r) =>
      if s > s' {
        InsertAdds(r, o, s);
      } else if s < s' {
        InsertAdds(l, o, s);
      } else {
        var n := Node(l, o, s, Leaf);
        assert Offs(n) == Offs(l) + {o} && Count(n) == Count(l) + 1 && Total(n) == Total(l) + s;
      }
  }

  lemma {:induction false} InsertDistinct(t: Tree, o: nat, s: nat)
    requires Distinct(t) && o !in Offs(t)
    ensures Distinct(Insert(t, o, s))
  {
    match t
    case Leaf =>
    case Node(l, o', s', r) =>
      if s > s' {
        InsertDistinct(r, o, s);
        InsertAdds(r, o, s);
      } else if s < s' {
        InsertDistinct(l, o, s);
        InsertAdds(l, o, s);
      } else {
        assert Offs(Node(l, o, s, Leaf)) == Offs(l) + {o};
        assert Distinct(Node(l, o, s, Leaf));
      }
  }

  lemma {:induction false} InsertOrdered(t: Tree, o: nat, s: nat)
    requires Ordered(t)
    ensures Ordered(Insert(t, o, s))
  {
    match t
    case Leaf =>
    case Node(l, o', s', r) =>
      if s > s' {
        InsertOrdered(r, o, s);
        InsertBounds(r, o, s, s');
      } else if s < s' {
        InsertOrdered(l, o, s);
        InsertBounds(l, o, s, s');
      } else {
        assert Ordered(Node(l, o, s, Leaf)) && AllAtMost(Node(l, o, s, Leaf), s');
      }
  }

  lemma {:induction false} InsertHas(t: Tree, o: nat, s: nat, o': nat, s': nat)
    ensures Has(Insert(t, o, s), o', s') <==> Has(t, o', s') || (o' == o && s' == s)
  {
    match t
    case Leaf =>
    case Node(l, po, ps, r) =>
      if s > ps {
        InsertHas(r, o, s, o', s');
      } else if s < ps {
        InsertHas(l, o, s, o', s');
      } else {
        assert Has(Node(l, o, s, Leaf), o', s') <==> Has(l, o', s') || (o' == o && s' == s);
      }
  }

  // ---------------------------------------------------------------------
  // Removal
  // ---------------------------------------------------------------------

  lemma {:induction false} DeleteMinRemoves(t: Tree)
    requires t.Node? && Distinct(t)
    ensures MinOff(t) in Offs(t)
    ensures Offs(DeleteMin(t)) == Offs(t) - {MinOff(t)}
    ensures Count(DeleteMin(t)) == Count(t) - 1
    ensures Total(DeleteMin(t)) == Total(t) - MinSize(t)
    ensures Distinct(DeleteMin(t))
  {
    if t.left.Node? {
      DeleteMinRemoves(t.left);
    }
  }

  lemma {:induction false} DeleteMinBounds(t: Tree, x: nat)
    requires t.Node?
    ensures AllAtMost(t, x) ==> AllAtMost(DeleteMin(t), x) && MinSize(t) <= x
    ensures AllAtLeast(t, x) ==> AllAtLeast(DeleteMin(t), x) && MinSize(t) >= x
  {
    if t.left.Node? {
      DeleteMinBounds(t.left, x);
    }
  }

  lemma {:induction false} DeleteMinOrdered(t: Tree)
    requires t.Node? && Ordered(t)
    ensures Ordered(DeleteMin(t))
    ensures AllAtLeast(DeleteMin(t), MinSize(t))
  {
    if t.left.Node? {
      DeleteMinOrdered(t.left);
      DeleteMinBounds(t.left, t.size);
      BoundsWeaken(t.right, MinSize(t), t.size);
    }
  }

  lemma {:induction false} DeleteMinHas(t: Tree, o: nat, s: nat)
    requires t.Node?
    ensures Has(t, o, s) <==> Has(DeleteMin(t), o, s) || (o == MinOff(t) && s == MinSize(t))
  {
    if t.left.Node? {
      DeleteMinHas(t.left, o, s);
    }
  }

  /** Removing the root removes that chunk and no other, and keeps the order. */
  lemma DeleteRootRemoves(t: Tree)
    requires t.Node? && Distinct(t)
    ensures Offs(DeleteRoot(t)) == Offs(t) - {t.off}
    ensures Count(DeleteRoot(t)) == Count(t) - 1
    ensures Total(DeleteRoot(t)) == Total(t) - t.size
    ensures Distinct(DeleteRoot(t))
  {
    if t.left.Node? && t.right.Node? {
      DeleteMinRemoves(t.right);
    }
  }

  lemma DeleteRootOrdered(t: Tree)
    requires t.Node? && Ordered(t)
    ensures Ordered(DeleteRoot(t))
  {
    if t.left.Node? && t.right.Node? {
      DeleteMinOrdered(t.right);
      DeleteMinBounds(t.right, t.size);
      BoundsWeaken(t.left, t.size, MinSize(t.right));
    }
  }

  lemma DeleteRootBounds(t: Tree, x: nat)
    requires t.Node?
    ensures AllAtMost(t, x) ==> AllAtMost(DeleteRoot(t), x)
    ensures AllAtLeast(t, x) ==> AllAtLeast(DeleteRoot(t), x)
  {
    if t.left.Node? && t.right.Node? {
      DeleteMinBounds(t.right, x);
    }
  }

  lemma DeleteRootHas(t: Tree, o: nat, s: nat)
    requires t.Node?
    ensures Has(t, o, s) <==> Has(DeleteRoot(t), o, s) || (o == t.off && s == t.size)
  {
    if t.left.Node? && t.right.Node? {
      DeleteMinHas(t.right, o, s);
    }
  }

  // ---------------------------------------------------------------------
  // Working below a context
  // ---------------------------------------------------------------------

  /** `t'` may replace `t` below any ancestor: it loses one chunk and gains none. */
  ghost predicate Shrinks(t: Tree, t': Tree, o: nat, s: nat) {
    && Offs(t') == Offs(t) - {o} && o in Offs(t)
    && Count(t') == Count(t) - 1
    && Total(t') == Total(t) - s
    && Distinct(t) && Distinct(t')
    && (Ordered(t) ==> Ordered(t'))
    && (forall x: nat :: AllAtMost(t, x) ==> AllAtMost(t', x))
    && (forall x: nat :: AllAtLeast(t, x) ==> AllAtLeast(t', x))
    && (forall o': nat, s': nat :: Has(t, o', s') <==> Has(t', o', s') || (o' == o && s' == s))
  }

  lemma DeleteRootShrinks(t: Tree)
    requires t.Node? && Distinct(t)
    ensures Shrinks(t, DeleteRoot(t), t.off, t.size)
  {
    DeleteRootRemoves(t);
    if Ordered(t) {
      DeleteRootOrdered(t);
    }
    forall x: nat
      ensures AllAtMost(t, x) ==> AllAtMost(DeleteRoot(t), x)
      ensures AllAtLeast(t, x) ==> AllAtLeast(DeleteRoot(t), x)
    {
      DeleteRootBounds(t, x);
    }
    forall o': nat, s': nat
      ensures Has(t, o', s') <==> Has(DeleteRoot(t), o', s') || (o' == t.off && s' == t.size)
    {
      DeleteRootHas(t, o', s');
    }
  }

  lemma {:induction false} PlugDistinct(c: Ctx, t: Tree)
    requires Distinct(Plug(c, t))
    ensures Distinct(t)
  {
    match c
    case Top =>
    case InLeft(up, o, s, r) => PlugDistinct(up, Node(t, o, s, r));
    case InRight(up, l, o, s) => PlugDistinct(up, Node(l, o, s, t));
  }

  lemma ShrinksLeft(t: Tree, t': Tree, po: nat, ps: nat, r: Tree, o: nat, s: nat)
    requires Shrinks(t, t', o, s)
    requires Distinct(Node(t, po, ps, r))
    ensures Shrinks(Node(t, po, ps, r), Node(t', po, ps, r), o, s)
  {
    var n, n' := Node(t, po, ps, r), Node(t', po, ps, r);
    assert Offs(n') == Offs(n) - {o};
    forall x: nat
      ensures AllAtMost(n, x) ==> AllAtMost(n', x)
      ensures AllAtLeast(n, x) ==> AllAtLeast(n', x)
    {
    }
    forall o': nat, s': nat
      ensures Has(n, o', s') <==> Has(n', o', s') || (o' == o && s' == s)
    {
      assert Has(t, o', s') <==> Has(t', o', s') || (o' == o && s' == s);
    }
  }

  lemma ShrinksRight(t: Tree, t': Tree, l: Tree, po: nat, ps: nat, o: nat, s: nat)
    requires Shrinks(t, t', o, s)
    requires Distinct(Node(l, po, ps, t))
    ensures Shrinks(Node(l, po, ps, t), Node(l, po, ps, t'), o, s)
  {
    var n, n' := Node(l, po, ps, t), Node(l, po, ps, t');
    assert Offs(n') == Offs(n) - {o};
    forall x: nat
      ensures AllAtMost(n, x) ==> AllAtMost(n', x)
      ensures AllAtLeast(n, x) ==> AllAtLeast(n', x)
    {
    }
    forall o': nat, s': nat
      ensures Has(n, o', s') <==> Has(n', o', s') || (o' == o && s' == s)
    {
      assert Has(t, o', s') <==> Has(t', o', s') || (o' == o && s' == s);
    }
  }

  /** Removing one chunk below a context removes it from the whole tree. */
  lemma {:induction false} PlugShrinks(c: Ctx, t: Tree, t': Tree, o: nat, s: nat)
    requires Shrinks(t, t', o, s)
    requires Distinct(Plug(c, t))
    ensures Shrinks(Plug(c, t), Plug(c, t'), o, s)
    decreases c
  {
    match c
    case Top =>
    case InLeft(up, po, ps, r) =>
      PlugDistinct(up, Node(t, po, ps, r));
      ShrinksLeft(t, t', po, ps, r, o, s);
      PlugShrinks(up, Node(t, po, ps, r), Node(t', po, ps, r), o, s);
    case InRight(up, l, po, ps) =>
      PlugDistinct(up, Node(l, po, ps, t));
      ShrinksRight(t, t', l, po, ps, o, s);
      PlugShrinks(up, Node(l, po, ps, t), Node(l, po, ps, t'), o, s);
  }

  lemma {:induction false} PlugHas(c: Ctx, t: Tree, o: nat, s: nat)
    ensures Has(t, o, s) ==> Has(Plug(c, t), o, s)
  {
    match c
    case Top =>
    case InLeft(up, po, ps, r) => PlugHas(up, Node(t, po, ps, r), o, s);
    case InRight(up, l, po, ps) => PlugHas(up, Node(l, po, ps, t), o, s);
  }

  lemma {:induction false} PlugOrdered(c: Ctx, t: Tree)
    requires Ordered(Plug(c, t))
    ensures Ordered(t)
  {
    match c
    case Top =>
    case InLeft(up, o, s, r) => PlugOrdered(up, Node(t, o, s, r));
    case InRight(up, l, o, s) => PlugOrdered(up, Node(l, o, s, t));
  }

  // ---------------------------------------------------------------------
  // Best fit
  // ---------------------------------------------------------------------

  lemma {:induction false} HasBounds(t: Tree, o: nat, s: nat, x: nat)
    requires Has(t, o, s)
    ensures AllAtMost(t, x) ==> s <= x
    ensures AllAtLeast(t, x) ==> s >= x
  {
    if Has(t.left, o, s) {
      HasBounds(t.left, o, s, x);
    } else if Has(t.right, o, s) {
      HasBounds(t.right, o, s, x);
    }
  }

  ghost predicate NoneFits(t: Tree, units: nat) {
    forall o: nat, s: nat :: Has(t, o, s) ==> s < units
  }

  /** The chunk is in the tree, is large enough, and no smaller one is. */
  ghost predicate BestFit(t: Tree, units: nat, o: nat, s: nat) {
    && Has(t, o, s) && s >= units
    && forall o': nat, s': nat :: Has(t, o', s') && s' >= units ==> s <= s'
  }

  /** Every fitting chunk is still to be searched or is no better than size `best`. */
  ghost predicate SearchCovers(t: Tree, sub: Tree, units: nat, best: nat) {
    forall o: nat, s: nat :: Has(t, o, s) && s >= units ==> Has(sub, o, s) || units <= best <= s
  }

  /** The size of the best chunk after looking at a node of size `s`. */
  function BetterOf(units: nat, best: nat, s: nat): nat {
    if s >= units && (s <= best || best < units) then s else best
  }

  lemma CoverLeft(t: Tree, sub: Tree, units: nat, best: nat)
    requires SearchCovers(t, sub, units, best)
    requires sub.Node? && Ordered(sub) && sub.size >= units
    ensures SearchCovers(t, sub.left, units, BetterOf(units, best, sub.size))
  {
    forall o: nat, s: nat | Has(t, o, s) && s >= units
      ensures Has(sub.left, o, s) || BetterOf(units, best, sub.size) <= s
    {
      if Has(sub.right, o, s) {
        HasBounds(sub.right, o, s, sub.size);
      }
    }
  }

  lemma CoverRight(t: Tree, sub: Tree, units: nat, best: nat)
    requires SearchCovers(t, sub, units, best)
    requires sub.Node? && Ordered(sub) && sub.size < units
    ensures SearchCovers(t, sub.right, units, best)
  {
    forall o: nat, s: nat | Has(t, o, s) && s >= units
      ensures Has(sub.right, o, s) || units <= best <= s
    {
      if Has(sub.left, o, s) {
        HasBounds(sub.left, o, s, sub.size);
      }
    }
  }

  /** A perfect match ends the search. */
  lemma CoverExact(t: Tree, sub: Tree, units: nat, best: nat)
    requires SearchCovers(t, sub, units, best)
    ensures SearchCovers(t, Leaf, units, units)
  {}

  // ---------------------------------------------------------------------
  // Linearisation
  // ---------------------------------------------------------------------

  lemma {:induction false} PreOrderOffs(t: Tree, o: nat)
    ensures o in PreOrder(t) <==> o in Offs(t)
  {
    if t.Node? {
      PreOrderOffs(t.left, o);
      PreOrderOffs(t.right, o);
    }
  }

  lemma {:induction false} PreOrderNoRepeats(t: Tree)
    requires Distinct(t)
    ensures NoRepeats(PreOrder(t))
  {
    if t.Node? {
      PreOrderNoRepeats(t.left);
      PreOrderNoRepeats(t.right);
      var a, b := PreOrder(t.left), PreOrder(t.right);
      forall i | 0 <= i < |a| ensures a[i] in Offs(t.left) { PreOrderOffs(t.left, a[i]); }
      forall i | 0 <= i < |b| ensures b[i] in Offs(t.right) { PreOrderOffs(t.right, b[i]); }
    }
  }
}
