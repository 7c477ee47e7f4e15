/**
  One heap page: chunk headers in page memory, linked into a free tree by
  relative offsets, with splitting, freeing and defragmentation.

  Offsets and sizes count allocation units from the first header. A link field
  of zero means "no child"; the tree value that the links represent is kept as
  a ghost field and every operation is proved against the functions of
  `HeapTree`.
*/
module HeapPage {
  import opened Common
  import opened HeapSort
  import opened HeapTree
  import opened Tiling

  /** The packed header: 10 bits of size and two signed 11-bit links. */
  datatype Header = Header(size: nat, left: int, right: int)

  const MAX_UNITS: nat := 1024
  const MIN_UNITS: nat := 4
  const DEFRAG_FREE: nat := 16
  const DEFRAG_PERIOD: int := 8
  const ALLOCATED_MARK: int := MAX_UNITS - 1
  const NONE: int := -1

  /** Units needed for `size` bytes: one for the header, rounded up, and at least the minimum. */
  function UnitsFor(size: nat): (units: nat)
    ensures units >= 4
    ensures 4 * (units - 1) >= size
    ensures units > 4 ==> 4 * (units - 2) < size
  {
    var units := size / 4 + (if size % 4 != 0 then 1 else 0) + 1;
    if units < MIN_UNITS then MIN_UNITS else units
  }

  /** Where a link leads: nowhere when it is zero. No header has a negative offset. */
  function Child(o: nat, link: int): int {
    if link == 0 then NONE else if o + link < 0 then NONE - 1 else o + link
  }

  function LeftOf(h: seq<Header>, o: nat): int
    requires o < |h|
  {
    Child(o, h[o].left)
  }

  function RightOf(h: seq<Header>, o: nat): int
    requires o < |h|
  {
    Child(o, h[o].right)
  }

  /** The link from `o` to `child`; a link to itself or to nothing is zero. */
  function LinkTo(o: nat, child: int): int {
    if child == NONE then 0 else child - o
  }

  /** The headers reachable from `s` represent the tree `t`. */
  predicate IsTree(h: seq<Header>, s: int, t: Tree)
    decreases t
  {
    match t
    case Leaf => s == NONE
    case Node(l, o, sz, r) =>
      && s == o < |h|
      && h[o].size == sz
      && IsTree(h, LeftOf(h, o), l)
      && IsTree(h, RightOf(h, o), r)
  }

  /** The link slot at the hole of a context. */
  function Slot(h: seq<Header>, root: int, c: Ctx): int {
    match c
    case Top => root
    case InLeft(_, o, _, _) => if o < |h| then LeftOf(h, o) else NONE
    case InRight(_, _, o, _) => if o < |h| then RightOf(h, o) else NONE
  }

  /** The headers around the hole represent the context `c`. */
  predicate IsCtx(h: seq<Header>, root: int, c: Ctx)
    decreases c
  {
    match c
    case Top => true
    case InLeft(up, o, sz, r) =>
      && o < |h| && h[o].size == sz
      && IsTree(h, RightOf(h, o), r)
      && IsCtx(h, root, up) && Slot(h, root, up) == o
    case InRight(up, l, o, sz) =>
      && o < |h| && h[o].size == sz
      && IsTree(h, LeftOf(h, o), l)
      && IsCtx(h, root, up) && Slot(h, root, up) == o
  }

  function CtxOffs(c: Ctx): set<nat> {
    match c
    case Top => {}
    case InLeft(up, o, _, r) => CtxOffs(up) + {o} + Offs(r)
    case InRight(up, l, o, _) => CtxOffs(up) + {o} + Offs(l)
  }

  /** A plugged tree is represented exactly when its context and its subtree are. */
  lemma {:induction false} PlugIsTree(h: seq<Header>, root: int, c: Ctx, t: Tree)
    ensures IsTree(h, root, Plug(c, t)) <==> IsCtx(h, root, c) && IsTree(h, Slot(h, root, c), t)
    decreases c
  {
    match c
    case Top =>
    case InLeft(up, o, sz, r) => PlugIsTree(h, root, up, Node(t, o, sz, r));
    case InRight(up, l, o, sz) => PlugIsTree(h, root, up, Node(l, o, sz, t));
  }

  lemma {:induction false} PlugOffs(c: Ctx, t: Tree)
    ensures Offs(Plug(c, t)) == CtxOffs(c) + Offs(t)
    ensures Distinct(Plug(c, t)) ==> CtxOffs(c) !! Offs(t)
    decreases c
  {
    match c
    case Top =>
    case InLeft(up, o, sz, r) =>
      PlugOffs(up, Node(t, o, sz, r));
      if Distinct(Plug(c, t)) {
        PlugDistinct(up, Node(t, o, sz, r));
      }
    case InRight(up, l, o, sz) =>
      PlugOffs(up, Node(l, o, sz, t));
      if Distinct(Plug(c, t)) {
        PlugDistinct(up, Node(l, o, sz, t));
      }
  }

  /** Headers outside a tree do not matter to it. */
  lemma {:induction false} TreeFrame(h: seq<Header>, h': seq<Header>, s: int, t: Tree)
    requires |h| == |h'|
    requires forall o :: o in Offs(t) && o < |h| ==> h'[o] == h[o]
    ensures IsTree(h, s, t) == IsTree(h', s, t)
    decreases t
  {
    if t.Node? && s == t.off < |h| {
      TreeFrame(h, h', LeftOf(h, t.off), t.left);
      TreeFrame(h, h', RightOf(h, t.off), t.right);
    }
  }

  lemma {:induction false} CtxFrame(h: seq<Header>, h': seq<Header>, root: int, c: Ctx)
    requires |h| == |h'|
    requires forall o :: o in CtxOffs(c) && o < |h| ==> h'[o] == h[o]
    ensures IsCtx(h, root, c) == IsCtx(h', root, c)
    ensures Slot(h, root, c) == Slot(h', root, c)
    decreases c
  {
    match c
    case Top =>
    case InLeft(up, o, _, r) =>
      if o < |h| {
        TreeFrame(h, h', RightOf(h, o), r);
        CtxFrame(h, h', root, up);
      }
    case InRight(up, l, o, _) =>
      if o < |h| {
        TreeFrame(h, h', LeftOf(h, o), l);
        CtxFrame(h, h', root, up);
      }
  }

  lemma {:induction false} TreeInRange(h: seq<Header>, s: int, t: Tree)
    requires IsTree(h, s, t)
    ensures forall o :: o in Offs(t) ==> o < |h|
    decreases t
  {
    if t.Node? {
      TreeInRange(h, LeftOf(h, t.off), t.left);
      TreeInRange(h, RightOf(h, t.off), t.right);
    }
  }

  /** On a page of fewer than 1024 units every link of the tree fits its signed 11-bit field. */
  lemma {:induction false} LinksFit(h: seq<Header>, s: int, t: Tree, o: nat)
    requires IsTree(h, s, t) && |h| < MAX_UNITS && o in Offs(t)
    ensures o < |h| && -1024 <= h[o].left < 1024 && -1024 <= h[o].right < 1024
    ensures !(h[o].left == ALLOCATED_MARK && h[o].right == ALLOCATED_MARK)
    decreases t
  {
    if o in Offs(t.left) {
      LinksFit(h, LeftOf(h, t.off), t.left, o);
    } else if o in Offs(t.right) {
      LinksFit(h, RightOf(h, t.off), t.right, o);
    }
  }

  lemma {:induction false} TreeHasSize(h: seq<Header>, s: int, t: Tree, o: nat, sz: nat)
    requires IsTree(h, s, t) && Has(t, o, sz)
    ensures o < |h| && h[o].size == sz
    decreases t
  {
    if Has(t.left, o, sz) {
      TreeHasSize(h, LeftOf(h, t.off), t.left, o, sz);
    } else if Has(t.right, o, sz) {
      TreeHasSize(h, RightOf(h, t.off), t.right, o, sz);
    }
  }

  /** Direction from a parent to the node being removed. */
  datatype Dir = DirNone | DirLeft | DirRight

  predicate DirMatches(c: Ctx, parent: int, dir: Dir) {
    match c
    case Top => dir == DirNone && parent == NONE
    case InLeft(_, o, _, _) => dir == DirLeft && parent == o
    case InRight(_, _, o, _) => dir == DirRight && parent == o
  }

  /** Storing a link at the hole of a context, as the removal does in its last switch. */
  function Relinked(h: seq<Header>, parent: int, dir: Dir, child: int): (h': seq<Header>)
    requires dir != DirNone ==> 0 <= parent < |h|
    ensures |h'| == |h|
  {
    match dir
    case DirNone => h
    case DirLeft => h[parent := h[parent].(left := LinkTo(parent, child))]
    case DirRight => h[parent := h[parent].(right := LinkTo(parent, child))]
  }

  /** After relinking, the whole tree is the context around the new subtree. */
  lemma RelinkIsTree(h: seq<Header>, root: int, c: Ctx, parent: int, dir: Dir, t: Tree, s: int)
    requires IsCtx(h, root, c)
    requires DirMatches(c, parent, dir)
    requires IsTree(h, s, t)
    requires s != NONE ==> s != parent
    requires Distinct(Plug(c, t))
    ensures IsTree(Relinked(h, parent, dir, s), if dir == DirNone then s else root, Plug(c, t))
  {
    var h' := Relinked(h, parent, dir, s);
    var root' := if dir == DirNone then s else root;
    PlugOffs(c, t);
    TreeFrame(h, h', s, t);
    match c {
      case Top =>
      case InLeft(up, o, sz, r) =>
        PlugDistinct(up, Node(t, o, sz, r));
        PlugOffs(up, Node(t, o, sz, r));
        TreeFrame(h, h', RightOf(h, o), r);
        CtxFrame(h, h', root, up);
      case InRight(up, l, o, sz) =>
        PlugDistinct(up, Node(l, o, sz, t));
        PlugOffs(up, Node(l, o, sz, t));
        TreeFrame(h, h', LeftOf(h, o), l);
        CtxFrame(h, h', root, up);
    }
    PlugIsTree(h', root', c, t);
  }

  /** `h'` keeps all sizes, and keeps whole headers outside `mod`. */
  predicate LinksOnly(h: seq<Header>, h': seq<Header>, mod: set<nat>)
    ensures LinksOnly(h, h', mod) ==> |h| == |h'|
  {
    && |h| == |h'|
    && forall o :: 0 <= o < |h| ==> h'[o].size == h[o].size && (o !in mod ==> h'[o] == h[o])
  }

  lemma LinksOnlyUpdate(h: seq<Header>, h': seq<Header>, mod: set<nat>, o: nat, x: Header)
    requires LinksOnly(h, h', mod)
    requires o < |h| && o in mod && x.size == h'[o].size
    ensures LinksOnly(h, h'[o := x], mod)
  {}

  /** The state of the insertion loop: `sub` is the subtree still to be searched. */
  predicate Descending(h: seq<Header>, root: int, c: Ctx, sub: Tree, hh: nat)
    ensures Descending(h, root, c, sub, hh) ==> sub.Node? && sub.off < |h| && hh < |h|
  {
    && sub.Node? && sub.off < |h|
    && hh < |h| && h[hh].left == 0 && h[hh].right == 0
    && IsTree(h, root, Plug(c, sub)) && Distinct(Plug(c, sub))
    && hh !in Offs(Plug(c, sub))
  }

  /** The new header has no children yet. */
  lemma StartInsert(h0: seq<Header>, root: int, t: Tree, hh: nat, h: seq<Header>)
    requires IsTree(h0, root, t) && Distinct(t) && hh < |h0| && hh !in Offs(t)
    requires h == h0[hh := h0[hh].(left := 0, right := 0)]
    ensures LinksOnly(h0, h, Offs(t) + {hh}) && Plug(Top, t) == t
    ensures var leaf := Node(Leaf, hh, h[hh].size, Leaf);
            if root == NONE then Insert(t, hh, h[hh].size) == leaf && IsTree(h, hh, leaf)
            else t.Node? && root == t.off && Descending(h, root, Top, t, hh)
    ensures Insert(t, hh, h[hh].size) == Plug(Top, Insert(t, hh, h[hh].size))
  {
    TreeFrame(h0, h, root, t);
  }

  lemma DescendingParts(h: seq<Header>, root: int, c: Ctx, sub: Tree, hh: nat)
    requires Descending(h, root, c, sub, hh)
    ensures IsCtx(h, root, c) && Slot(h, root, c) == sub.off && IsTree(h, sub.off, sub)
    ensures sub.off != hh && sub.off in Offs(Plug(c, sub))
    ensures if sub.right.Leaf? then h[sub.off].right == 0 else sub.off + h[sub.off].right == sub.right.off < |h|
    ensures if sub.left.Leaf? then h[sub.off].left == 0 else sub.off + h[sub.off].left == sub.left.off < |h|
    ensures sub.right.Node? ==> h[sub.off].right != 0
    ensures sub.left.Node? ==> h[sub.off].left != 0
  {
    PlugIsTree(h, root, c, sub);
    PlugOffs(c, sub);
    PlugDistinct(c, sub);
  }

  lemma DescendRight(h: seq<Header>, root: int, c: Ctx, sub: Tree, hh: nat, sz: nat)
    requires Descending(h, root, c, sub, hh)
    requires sz > sub.size && sub.right.Node?
    ensures var c' := InRight(c, sub.left, sub.off, sub.size);
            && Descending(h, root, c', sub.right, hh)
            && Plug(c', sub.right) == Plug(c, sub)
            && Plug(c', Insert(sub.right, hh, sz)) == Plug(c, Insert(sub, hh, sz))
  {
    DescendingParts(h, root, c, sub, hh);
  }

  lemma DescendLeft(h: seq<Header>, root: int, c: Ctx, sub: Tree, hh: nat, sz: nat)
    requires Descending(h, root, c, sub, hh)
    requires sz < sub.size && sub.left.Node?
    ensures var c' := InLeft(c, sub.off, sub.size, sub.right);
            && Descending(h, root, c', sub.left, hh)
            && Plug(c', sub.left) == Plug(c, sub)
            && Plug(c', Insert(sub.left, hh, sz)) == Plug(c, Insert(sub, hh, sz))
  {
    DescendingParts(h, root, c, sub, hh);
  }

  lemma AttachRight(h: seq<Header>, root: int, c: Ctx, sub: Tree, hh: nat)
    requires Descending(h, root, c, sub, hh)
    requires h[hh].size > sub.size && sub.right.Leaf?
    requires Distinct(Plug(c, Insert(sub, hh, h[hh].size)))
    ensures IsTree(h[sub.off := h[sub.off].(right := hh - sub.off)], root, Plug(c, Insert(sub, hh, h[hh].size)))
  {
    DescendingParts(h, root, c, sub, hh);
    var t, c' := Node(Leaf, hh, h[hh].size, Leaf), InRight(c, sub.left, sub.off, sub.size);
    assert Insert(sub, hh, h[hh].size) == Node(sub.left, sub.off, sub.size, t);
    assert Plug(c', t) == Plug(c, Insert(sub, hh, h[hh].size));
    RelinkIsTree(h, root, c', sub.off, DirRight, t, hh);
  }

  lemma AttachLeft(h: seq<Header>, root: int, c: Ctx, sub: Tree, hh: nat)
    requires Descending(h, root, c, sub, hh)
    requires h[hh].size < sub.size && sub.left.Leaf?
    requires Distinct(Plug(c, Insert(sub, hh, h[hh].size)))
    ensures IsTree(h[sub.off := h[sub.off].(left := hh - sub.off)], root, Plug(c, Insert(sub, hh, h[hh].size)))
  {
    DescendingParts(h, root, c, sub, hh);
    var t, c' := Node(Leaf, hh, h[hh].size, Leaf), InLeft(c, sub.off, sub.size, sub.right);
    assert Insert(sub, hh, h[hh].size) == Node(t, sub.off, sub.size, sub.right);
    assert Plug(c', t) == Plug(c, Insert(sub, hh, h[hh].size));
    RelinkIsTree(h, root, c', sub.off, DirLeft, t, hh);
  }

  lemma AttachEqualParts(h: seq<Header>, root: int, c: Ctx, sub: Tree, hh: nat, h1: seq<Header>)
    requires sub.Node? && sub.off < |h| && hh < |h| && h[hh].right == 0
    requires IsCtx(h, root, c) && Slot(h, root, c) == sub.off && IsTree(h, sub.off, sub)
    requires hh !in CtxOffs(c) && hh !in Offs(sub)
    requires h1 == h[hh := h[hh].(left := LinkTo(hh, LeftOf(h, sub.off)))]
    ensures IsCtx(h1, root, InLeft(c, sub.off, sub.size, sub.right))
    ensures IsTree(h1, hh, Node(sub.left, hh, h[hh].size, Leaf))
  {
    TreeFrame(h, h1, LeftOf(h, sub.off), sub.left);
    TreeFrame(h, h1, RightOf(h, sub.off), sub.right);
    CtxFrame(h, h1, root, c);
    if sub.left.Node? {
      assert LeftOf(h, sub.off) == sub.left.off != hh;
    }
  }

  /** Equal sizes: the new chunk takes over the left subtree and becomes the left child. */
  lemma AttachEqual(h: seq<Header>, root: int, c: Ctx, sub: Tree, hh: nat, h1: seq<Header>)
    requires Descending(h, root, c, sub, hh)
    requires h[hh].size == sub.size
    requires h1 == h[hh := h[hh].(left := LinkTo(hh, LeftOf(h, sub.off)))]
    requires Distinct(Plug(c, Insert(sub, hh, h[hh].size)))
    ensures IsTree(h1[sub.off := h1[sub.off].(left := hh - sub.off)], root, Plug(c, Insert(sub, hh, h[hh].size)))
  {
    DescendingParts(h, root, c, sub, hh);
    PlugOffs(c, sub);
    AttachEqualParts(h, root, c, sub, hh, h1);
    var t, c' := Node(sub.left, hh, h[hh].size, Leaf), InLeft(c, sub.off, sub.size, sub.right);
    assert Insert(sub, hh, h[hh].size) == Node(t, sub.off, sub.size, sub.right);
    assert Plug(c', t) == Plug(c, Insert(sub, hh, h[hh].size));
    RelinkIsTree(h1, root, c', sub.off, DirLeft, t, hh);
  }

  /** The promoted successor takes over both links of the node it replaces. */
  lemma PromoteNode(h: seq<Header>, n: Tree, tail: nat, h': seq<Header>)
    requires n.Node? && tail < |h| && n.off < |h|
    requires IsTree(h, n.off, n) && tail !in Offs(n)
    requires h' == h[tail := Header(h[tail].size, LinkTo(tail, LeftOf(h, n.off)), LinkTo(tail, RightOf(h, n.off)))]
    ensures IsTree(h', tail, Node(n.left, tail, h[tail].size, n.right))
  {
    TreeFrame(h, h', LeftOf(h, n.off), n.left);
    TreeFrame(h, h', RightOf(h, n.off), n.right);
    assert LeftOf(h, n.off) == if n.left.Node? then n.left.off else NONE;
    assert RightOf(h, n.off) == if n.right.Node? then n.right.off else NONE;
    assert LeftOf(h', tail) == LeftOf(h, n.off);
    assert RightOf(h', tail) == RightOf(h, n.off);
  }

  lemma NodeSlot(h: seq<Header>, s: int, n: Tree)
    requires IsTree(h, s, n) && n.Node?
    ensures s == n.off
  {
  }

  lemma PromoteParts(h: seq<Header>, root: int, c: Ctx, n: Tree, tail: nat, h': seq<Header>)
    requires n.Node? && tail < |h| && n.off < |h|
    requires IsTree(h, root, Plug(c, n)) && tail !in Offs(Plug(c, n))
    requires h' == h[tail := Header(h[tail].size, LinkTo(tail, LeftOf(h, n.off)), LinkTo(tail, RightOf(h, n.off)))]
    ensures IsCtx(h', root, c)
    ensures IsTree(h', tail, Node(n.left, tail, h[tail].size, n.right))
  {
    hide IsTree, IsCtx, Plug;
    PlugIsTree(h, root, c, n);
    NodeSlot(h, Slot(h, root, c), n);
    PlugOffs(c, n);
    PromoteNode(h, n, tail, h');
    CtxFrame(h, h', root, c);
  }

  /** The last switch of a removal and the clearing of the removed header's links. */
  lemma UnlinkDone(h: seq<Header>, root: int, c: Ctx, parent: int, dir: Dir, t: Tree, s: int, hh: nat, root': int)
    requires IsCtx(h, root, c) && DirMatches(c, parent, dir)
    requires IsTree(h, s, t) && (s != NONE ==> s != parent)
    requires Distinct(Plug(c, t)) && hh < |h| && hh !in Offs(Plug(c, t))
    requires root' == if dir == DirNone then s else root
    ensures dir != DirNone ==> 0 <= parent < |h|
    ensures var h1 := Relinked(h, parent, dir, s);
            IsTree(h1[hh := h1[hh].(left := 0, right := 0)], root', Plug(c, t))
  {
    RelinkIsTree(h, root, c, parent, dir, t, s);
    var h1 := Relinked(h, parent, dir, s);
    TreeFrame(h1, h1[hh := h1[hh].(left := 0, right := 0)], root', Plug(c, t));
  }

  lemma RelinkLinksOnly(h0: seq<Header>, h: seq<Header>, mod: set<nat>, parent: int, dir: Dir, s: int)
    requires LinksOnly(h0, h, mod)
    requires dir != DirNone ==> 0 <= parent < |h| && parent in mod
    ensures LinksOnly(h0, Relinked(h, parent, dir, s), mod)
  {}

  lemma PromoteLinksOnly(h0: seq<Header>, h: seq<Header>, h': seq<Header>, mod: set<nat>, tail: int)
    requires LinksOnly(h0, h, mod)
    requires |h'| == |h| && 0 <= tail < |h| && tail in mod
    requires h' == h[tail := Header(h[tail].size, h'[tail].left, h'[tail].right)]
    ensures LinksOnly(h0, h', mod)
  {}

  /** What a removal may rely on before it starts. */
  lemma DeletePrepare(h: seq<Header>, root: int, c: Ctx, sub: Tree)
    requires sub.Node? && IsTree(h, root, Plug(c, sub)) && Distinct(Plug(c, sub))
    ensures sub.off < |h| && IsCtx(h, root, c) && IsTree(h, sub.off, sub)
    ensures Distinct(sub)
    ensures CtxOffs(c) !! Offs(sub) && Offs(Plug(c, sub)) == CtxOffs(c) + Offs(sub)
    ensures if sub.left.Leaf? then h[sub.off].left == 0 else h[sub.off].left != 0 && LeftOf(h, sub.off) == sub.left.off
    ensures if sub.right.Leaf? then h[sub.off].right == 0
            else h[sub.off].right != 0 && RightOf(h, sub.off) == sub.right.off
    ensures Distinct(Plug(c, DeleteRoot(sub))) && Offs(Plug(c, DeleteRoot(sub))) == Offs(Plug(c, sub)) - {sub.off}
  {
    PlugIsTree(h, root, c, sub);
    PlugOffs(c, sub);
    PlugDistinct(c, sub);
    DeleteRootShrinks(sub);
    PlugShrinks(c, sub, DeleteRoot(sub), sub.off, sub.size);
  }

  // ---------------------------------------------------------------------
  // The page's accounts
  // ---------------------------------------------------------------------

  predicate Marked(x: Header) {
    x.left == ALLOCATED_MARK && x.right == ALLOCATED_MARK
  }

  /**
    Headers, tree and tiling agree. Free chunks are in the tree, except those in
    `pending`, which an operation has taken out and not yet put back.
  */
  ghost predicate Accounts(h: seq<Header>, t: Tree, m: Sizes, alloc: set<nat>, pending: set<nat>) {
    && Tiles(m, |h|)
    && alloc <= m.Keys
    && pending !! Offs(t)
    && Offs(t) + pending == m.Keys - alloc
    && (forall o :: o in m ==> o < |h| && h[o].size == m[o])
    && (forall o :: o in alloc ==> o < |h| && Marked(h[o]))
  }

  lemma AccountsAfterDelete(
      h: seq<Header>, h': seq<Header>, t: Tree, t': Tree, m: Sizes, alloc: set<nat>, hh: nat, sz: nat)
    requires Accounts(h, t, m, alloc, {})
    requires LinksOnly(h, h', Offs(t)) && Shrinks(t, t', hh, sz)
    ensures Accounts(h', t', m, alloc, {hh})
  {}

  /** A pending chunk is marked as allocated. */
  lemma AccountsAfterMark(h: seq<Header>, h': seq<Header>, t: Tree, m: Sizes, alloc: set<nat>, hh: nat)
    requires Accounts(h, t, m, alloc, {hh})
    requires hh < |h| && h' == h[hh := Header(h[hh].size, ALLOCATED_MARK, ALLOCATED_MARK)]
    ensures Accounts(h', t, m, alloc + {hh}, {})
  {}

  /** An allocated chunk is trimmed to `k` units; the rest is pending. */
  lemma AccountsAfterTrim(h: seq<Header>, h': seq<Header>, t: Tree, m: Sizes, alloc: set<nat>, hh: nat, k: nat)
    requires Accounts(h, t, m, alloc, {})
    requires hh in alloc && 0 < k < m[hh]
    requires hh + k < |h| && hh + k !in m
    requires h' == h[hh := h[hh].(size := k)][hh + k := Header(m[hh] - k, 0, 0)]
    ensures Accounts(h', t, Split(m, hh, k), alloc, {hh + k})
  {
    hide Tiles;
    var m' := Split(m, hh, k);
    SplitTiles(m, |h|, hh, k);
    assert m'.Keys == m.Keys + {hh + k};
    forall o | o in m'
      ensures o < |h'| && h'[o].size == m'[o]
    {
    }
    forall o | o in alloc
      ensures Marked(h'[o])
    {
      assert o != hh + k && Marked(h[o]);
    }
  }

  /** A pending chunk has been inserted into the tree. */
  lemma AccountsAfterInsert(
      h: seq<Header>, h': seq<Header>, t: Tree, m: Sizes, alloc: set<nat>, pending: set<nat>, hh: nat)
    requires Accounts(h, t, m, alloc, pending) && hh in pending && hh < |h|
    requires LinksOnly(h, h', Offs(t) + {hh})
    ensures Accounts(h', Insert(t, hh, h[hh].size), m, alloc, pending - {hh})
  {
    InsertAdds(t, hh, h[hh].size);
  }

  /** In a consistent page the chunks of the tree are the free chunks with their sizes. */
  lemma TreeIsFree(h: seq<Header>, root: int, t: Tree, m: Sizes, alloc: set<nat>, o: nat, s: nat)
    requires Accounts(h, t, m, alloc, {}) && IsTree(h, root, t)
    ensures Has(t, o, s) <==> o in m && o !in alloc && m[o] == s
  {
    if Has(t, o, s) {
      HasOffs(t, o, s);
      TreeHasSize(h, root, t, o, s);
    }
    if o in m && o !in alloc {
      assert o in Offs(t);
      var s' := OffsHas(t, o);
      TreeHasSize(h, root, t, o, s');
    }
  }

  /** No free chunk has `units` units. */
  ghost predicate NoFreeChunk(m: Sizes, alloc: set<nat>, units: nat) {
    forall o :: o in m && o !in alloc ==> m[o] < units
  }

  /** The chunk at `hh` is free, has `units` units, and is the smallest such. */
  ghost predicate SmallestFree(m: Sizes, alloc: set<nat>, units: nat, hh: int) {
    && hh in m && hh !in alloc && units <= m[hh]
    && forall o :: o in m && o !in alloc && units <= m[o] ==> m[hh] <= m[o]
  }

  lemma NoneFitsIsNoFreeChunk(h: seq<Header>, root: int, t: Tree, m: Sizes, alloc: set<nat>, units: nat)
    requires Accounts(h, t, m, alloc, {}) && IsTree(h, root, t)
    ensures NoneFits(t, units) <==> NoFreeChunk(m, alloc, units)
  {
    if NoneFits(t, units) {
      forall o | o in m && o !in alloc
        ensures m[o] < units
      {
        TreeIsFree(h, root, t, m, alloc, o, m[o]);
      }
    }
    if NoFreeChunk(m, alloc, units) {
      forall o: nat, s: nat | Has(t, o, s)
        ensures s < units
      {
        TreeIsFree(h, root, t, m, alloc, o, s);
      }
    }
  }

  lemma BestFitIsSmallestFree(
      h: seq<Header>, root: int, t: Tree, m: Sizes, alloc: set<nat>, units: nat, hh: nat, sz: nat)
    requires Accounts(h, t, m, alloc, {}) && IsTree(h, root, t)
    requires BestFit(t, units, hh, sz)
    ensures SmallestFree(m, alloc, units, hh) && m[hh] == sz
  {
    TreeIsFree(h, root, t, m, alloc, hh, sz);
    forall o | o in m && o !in alloc && units <= m[o]
      ensures m[hh] <= m[o]
    {
      TreeIsFree(h, root, t, m, alloc, o, m[o]);
    }
  }

  /** A page has no root exactly when everything on it is allocated. */
  lemma FullPage(h: seq<Header>, root: int, t: Tree, m: Sizes, alloc: set<nat>)
    requires Accounts(h, t, m, alloc, {}) && IsTree(h, root, t)
    ensures root == NONE <==> forall o :: o in m ==> o in alloc
    ensures root == NONE ==> forall units: nat :: NoFreeChunk(m, alloc, units)
  {
    hide Tiles;
    if root == NONE {
      assert Offs(t) == {} && m.Keys - alloc == {};
      forall o | o in m
        ensures o in alloc
      {
        assert o !in m.Keys - alloc;
      }
    } else {
      assert t.off in Offs(t) && t.off in m.Keys - alloc;
    }
  }

  /** What taking the best fit out of the tree means for the counters. */
  lemma TakenFacts(h: seq<Header>, t: Tree, t': Tree, m: Sizes, alloc: set<nat>, units: nat, hh: nat, sz: nat)
    requires Accounts(h, t, m, alloc, {})
    requires SmallestFree(m, alloc, units, hh) && m[hh] == sz && Shrinks(t, t', hh, sz)
    ensures hh in m && hh !in alloc && units <= m[hh] && hh !in Offs(t')
    ensures Count(t') == Count(t) - 1 && Total(t') == Total(t) - sz
    ensures |alloc + {hh}| == |alloc| + 1
  {
    hide Tiles, Count, Total;
  }

  lemma HeaderOutsideTree(h: seq<Header>, root: int, t: Tree, o: nat, x: Header)
    requires o < |h| && o !in Offs(t)
    ensures IsTree(h, root, t) == IsTree(h[o := x], root, t)
  {
    TreeFrame(h, h[o := x], root, t);
  }

  lemma TrimRange(h: seq<Header>, t: Tree, m: Sizes, alloc: set<nat>, hh: nat, k: nat)
    requires Accounts(h, t, m, alloc, {})
    requires hh in alloc && 0 < k < m[hh]
    ensures hh + k < |h| && hh + k !in m && h[hh].size == m[hh]
    ensures hh !in Offs(t) && hh + k !in Offs(t)
  {}

  // ---------------------------------------------------------------------
  // Defragmentation
  // ---------------------------------------------------------------------

  lemma {:induction false} PreOrderSum(h: seq<Header>, s: int, t: Tree, m: Sizes)
    requires IsTree(h, s, t)
    requires forall o :: o in Offs(t) ==> o in m && o < |h| && m[o] == h[o].size
    ensures SumOf(m, PreOrder(t)) == Total(t)
    decreases t
  {
    if t.Node? {
      PreOrderSum(h, LeftOf(h, t.off), t.left, m);
      PreOrderSum(h, RightOf(h, t.off), t.right, m);
      SumOfConcat(m, [t.off], PreOrder(t.left));
      SumOfConcat(m, [t.off] + PreOrder(t.left), PreOrder(t.right));
    }
  }

  /** The chunks of the free list that have not been looked at yet. */
  function Rest(list: seq<nat>, i: nat): set<nat>
    requires i <= |list|
  {
    set o | o in list[i..]
  }

  lemma RestStep(list: seq<nat>, i: nat)
    requires i < |list| && NoRepeats(list)
    ensures Rest(list, i) == Rest(list, i + 1) + {list[i]}
    ensures list[i] !in Rest(list, i + 1)
    ensures list[i..] == [list[i]] + list[i + 1..]
  {
    assert list[i..] == [list[i]] + list[i + 1..];
    var tail := list[i + 1..];
    assert forall k :: 0 <= k < |tail| ==> tail[k] == list[i + 1 + k];
  }

  /** A pending chunk absorbs the pending chunk that follows it. */
  lemma AccountsAfterMerge(
      h: seq<Header>, h': seq<Header>, t: Tree, m: Sizes, alloc: set<nat>, pending: set<nat>, hh: nat)
    requires Accounts(h, t, m, alloc, pending)
    requires hh in pending && hh in m && hh + m[hh] in pending && hh + m[hh] in m
    requires hh < |h| && h' == h[hh := h[hh].(size := m[hh] + m[hh + m[hh]])]
    ensures Accounts(h', t, Merge(m, hh), alloc, pending - {hh + m[hh]})
  {
    hide Tiles;
    MergeTiles(m, |h|, hh);
    assert Merge(m, hh).Keys == m.Keys - {hh + m[hh]};
  }

  lemma PendingRange(h: seq<Header>, t: Tree, m: Sizes, alloc: set<nat>, pending: set<nat>, o: nat)
    requires Accounts(h, t, m, alloc, pending) && o in pending
    ensures o in m && o !in alloc && o < |h| && h[o].size == m[o] > 0 && o !in Offs(t)
  {}

  /**
    In the order that starts at `w`: every chunk of the tree ends before all later
    list entries start, and two of its chunks touch only across `w`.
  */
  ghost predicate Gapped(w: nat, offs: set<nat>, m: Sizes, list: seq<nat>, i: nat) {
    && (forall a, k :: a in offs && a in m && i <= k < |list| ==> list[k] > a + m[a] || list[k] < w <= a)
    && (forall a, b :: a in offs && b in offs && a in m && a + m[a] == b ==> a < w <= b)
  }

  lemma GappedStep(
      w: nat, h: seq<Header>, t: Tree, m: Sizes, m': Sizes, alloc: set<nat>, list: seq<nat>, i: nat, j: nat)
    requires i < j <= |list| && Rotated(w, list) && NoRepeats(list)
    requires Gapped(w, Offs(t), m, list, i)
    requires Accounts(h, t, m', alloc, {list[i]} + Rest(list, j))
    requires Offs(t) <= m.Keys
    requires forall o :: o in m' && o != list[i] ==> o in m && m'[o] == m[o]
    requires list[i] in m' && (j < |list| ==> list[j] != list[i] + m'[list[i]])
    ensures Gapped(w, Offs(t) + {list[i]}, m', list, j)
  {
    var hh := list[i];
    forall k | j <= k < |list|
      ensures list[k] > hh + m'[hh] || list[k] < w <= hh
    {
      assert list[k] in list[j..] && list[j] in list[j..];
      assert list[k] in Rest(list, j) && list[j] in Rest(list, j);
      assert Precedes(w, hh, list[k]) && Precedes(w, hh, list[j]) && (k > j ==> Precedes(w, list[j], list[k]));
      assert hh < list[j] ==> hh + m'[hh] <= list[j];
    }
  }

  lemma LaterIsBelow(w: nat, list: seq<nat>, i: nat, j: nat)
    requires Rotated(w, list) && i < j < |list|
    ensures list[i] < w ==> list[j] < w
  {
    assert Precedes(w, list[i], list[j]);
  }

  /** Below `w` no chunk has grown over a chunk that started at `w` or later. */
  ghost predicate StopsAt(w: nat, m0: Sizes, m: Sizes) {
    && m.Keys <= m0.Keys
    && forall c, x :: c in m && x in m0 && c < w <= x ==> x >= c + m[c]
  }

  lemma StopsAtFirst(w: nat, m: Sizes, total: nat)
    requires Tiles(m, total)
    ensures StopsAt(w, m, m)
  {
  }

  lemma StopsAtMerge(w: nat, m0: Sizes, m: Sizes, hh: nat)
    requires StopsAt(w, m0, m) && hh in m && hh + m[hh] in m && (hh < w ==> hh + m[hh] < w)
    ensures StopsAt(w, m0, Merge(m, hh))
  {
  }

  /** Merging the chunk at `next` into `hh` leaves the later list entries alone. */
  lemma RestInKeys(
      h: seq<Header>, t: Tree, m: Sizes, alloc: set<nat>, pending: set<nat>, list: seq<nat>, j: nat, hh: nat, next: nat)
    requires j <= |list| && Accounts(h, t, m, alloc, pending)
    requires Rest(list, j) <= pending && hh !in Rest(list, j) && next !in Rest(list, j)
    requires hh in m && next == hh + m[hh] && next in m
    ensures forall o :: o in list[j..] ==> o in m && o in Merge(m, hh) && Merge(m, hh)[o] == m[o]
  {
    forall o | o in list[j..]
      ensures o in m && o != hh && o != next
    {
      assert o in Rest(list, j);
    }
  }

  lemma LeafFacts(h: seq<Header>, m: Sizes, list: seq<nat>)
    ensures IsTree(h, NONE, Leaf) && Distinct(Leaf) && Ordered(Leaf)
    ensures Count(Leaf) == 0 && Total(Leaf) == 0
    ensures forall w: nat :: Gapped(w, Offs(Leaf), m, list, 0)
  {}

  lemma AccountsKeys(h: seq<Header>, t: Tree, m: Sizes, alloc: set<nat>, pending: set<nat>)
    requires Accounts(h, t, m, alloc, pending)
    ensures Tiles(m, |h|) && Offs(t) <= m.Keys && alloc <= m.Keys && pending <= m.Keys && pending !! alloc
  {}

  lemma RestStepOut(list: seq<nat>, i: nat, j: nat)
    requires i < j <= |list| && NoRepeats(list)
    ensures list[i] !in Rest(list, j)
  {
    var tail := list[j..];
    assert forall k :: 0 <= k < |tail| ==> tail[k] == list[j + k];
  }

  lemma GappedIsOnlyAcross(w: nat, h: seq<Header>, t: Tree, m: Sizes, alloc: set<nat>, list: seq<nat>)
    requires Accounts(h, t, m, alloc, {}) && Gapped(w, Offs(t), m, list, |list|)
    ensures OnlyAcross(w, m, alloc)
  {
    forall a, b | a in m && b in m && a !in alloc && b !in alloc && a + m[a] == b
      ensures a < w <= b
    {
      assert a in Offs(t) && b in Offs(t);
    }
  }

  /** No free chunk ends where another free chunk starts. */
  ghost predicate NoAdjacentFree(m: Sizes, alloc: set<nat>) {
    forall a, b :: a in m && b in m && a !in alloc && b !in alloc ==> a + m[a] != b
  }

  /** Free chunks are adjacent only where one starts before `w` and the next one does not. */
  ghost predicate OnlyAcross(w: nat, m: Sizes, alloc: set<nat>) {
    forall a, b :: a in m && b in m && a !in alloc && b !in alloc && a + m[a] == b ==> a < w <= b
  }

  /** On a page that straddles no boundary there is nothing to be adjacent across. */
  lemma NoStraddleNoAdjacent(base: nat, total: nat, m: Sizes, alloc: set<nat>)
    requires NoStraddle(base, total) && OnlyAcross(WrapPoint(base, total), m, alloc)
    ensures NoAdjacentFree(m, alloc)
  {
  }

  /** Two free chunks are adjacent there. */
  ghost predicate AdjacentAcross(w: nat, m: Sizes, alloc: set<nat>) {
    exists a :: a in m && a !in alloc && a < w <= a + m[a] && a + m[a] in m && a + m[a] !in alloc
  }

  /** Which chunk a unit before a start belongs to: one that ends there. */
  lemma ChunkBefore(m: Sizes, total: nat, alloc: set<nat>, b: nat) returns (a: nat)
    requires Tiles(m, total) && b in m && b > 0 && UnitFree(m, alloc, b - 1)
    ensures a in m && a !in alloc && a + m[a] == b
  {
    a :| a in m && a !in alloc && InChunk(m, a, b - 1);
  }

  lemma FreeStart(m: Sizes, total: nat, alloc: set<nat>, b: nat)
    requires Tiles(m, total) && b in m
    ensures b !in alloc <==> UnitFree(m, alloc, b)
    ensures b < total
  {
    assert InChunk(m, b, b);
  }

  /**
    Chunks were merged without growing over `w`, and touch only across it. Then
    two free chunks touch if and only if two did across `w` before.
  */
  lemma AdjacentExact(w: nat, m0: Sizes, m: Sizes, total: nat, alloc: set<nat>)
    requires Tiles(m0, total) && Tiles(m, total) && StopsAt(w, m0, m) && OnlyAcross(w, m, alloc)
    requires forall u: nat :: u < total ==> (UnitFree(m, alloc, u) <==> UnitFree(m0, alloc, u))
    ensures NoAdjacentFree(m, alloc) <==> !AdjacentAcross(w, m0, alloc)
  {
    hide Tiles, UnitFree;
    if !NoAdjacentFree(m, alloc) {
      StillAcross(w, m0, m, total, alloc);
    }
    if AdjacentAcross(w, m0, alloc) {
      AcrossStays(w, m0, m, total, alloc);
    }
  }

  lemma StillAcross(w: nat, m0: Sizes, m: Sizes, total: nat, alloc: set<nat>)
    requires Tiles(m0, total) && Tiles(m, total) && StopsAt(w, m0, m) && OnlyAcross(w, m, alloc)
    requires forall u: nat :: u < total ==> (UnitFree(m, alloc, u) <==> UnitFree(m0, alloc, u))
    requires !NoAdjacentFree(m, alloc)
    ensures AdjacentAcross(w, m0, alloc)
  {
    var a, b :| a in m && b in m && a !in alloc && b !in alloc && a + m[a] == b;
    assert InChunk(m, a, b - 1);
    FreeStart(m, total, alloc, b);
    FreeStart(m0, total, alloc, b);
    assert UnitFree(m, alloc, b - 1);
    var c := ChunkBefore(m0, total, alloc, b);
  }

  lemma AcrossStays(w: nat, m0: Sizes, m: Sizes, total: nat, alloc: set<nat>)
    requires Tiles(m0, total) && Tiles(m, total) && StopsAt(w, m0, m)
    requires forall u: nat :: u < total ==> (UnitFree(m, alloc, u) <==> UnitFree(m0, alloc, u))
    requires AdjacentAcross(w, m0, alloc)
    ensures !NoAdjacentFree(m, alloc)
  {
    hide Tiles, UnitFree, StopsAt;
    var a :| a in m0 && a !in alloc && a < w <= a + m0[a] && a + m0[a] in m0 && a + m0[a] !in alloc;
    var b := a + m0[a];
    StartStays(w, m0, m, total, a);
    FreeStart(m0, total, alloc, b);
    FreeStart(m, total, alloc, b);
    LastUnitFree(m0, total, alloc, a);
    var d := ChunkBefore(m, total, alloc, b);
  }

  /** A chunk that starts at or behind `w`, after one that does not, is not absorbed. */
  lemma StartStays(w: nat, m0: Sizes, m: Sizes, total: nat, a: nat)
    requires Tiles(m0, total) && Tiles(m, total) && StopsAt(w, m0, m)
    requires a in m0 && a < w <= a + m0[a] && a + m0[a] in m0
    ensures a + m0[a] in m
  {
    var b := a + m0[a];
    assert b < total;
    assert Tiling.Covered(m, b);
    var c :| c in m && InChunk(m, c, b);
    assert c in m0;
    assert c == b;
  }

  lemma LastUnitFree(m: Sizes, total: nat, alloc: set<nat>, a: nat)
    requires Tiles(m, total) && a in m && a !in alloc
    ensures m[a] > 0 && UnitFree(m, alloc, a + m[a] - 1)
  {
    assert InChunk(m, a, a + m[a] - 1);
  }

  /** A page with one free chunk. */
  lemma NewPage(h: seq<Header>, units: nat)
    requires |h| == units > 0 && h[0] == Header(units, 0, 0)
    ensures var t := Node(Leaf, 0, units, Leaf);
            && IsTree(h, 0, t) && Distinct(t) && Ordered(t) && Total(t) == units && Count(t) == 1
            && Accounts(h, t, map[0 := units], {}, {})
  {
    var m := map[0 := units];
    forall u: nat | u < units
      ensures Tiling.Covered(m, u)
    {
      assert InChunk(m, 0, u);
    }
    assert m.Keys == {0};
  }

  lemma LeafOrder()
    ensures Count(Leaf) == 0 && PreOrder(Leaf) == []
  {}

  lemma CountPositive(h: seq<Header>, root: int, t: Tree)
    requires IsTree(h, root, t) && root != NONE
    ensures t.Node? && Count(t) > 0 && root >= 0
  {}

  lemma RootPresent(h: seq<Header>, root: int, t: Tree)
    requires IsTree(h, root, t) && Count(t) > 0
    ensures root != NONE
  {}

  lemma FreeListElements(t: Tree, base: nat, list: seq<nat>, o: nat)
    requires list == SortByKey(base, PreOrder(t))
    ensures o in list <==> o in Offs(t)
    ensures o in PreOrder(t) <==> o in Offs(t)
  {
    SortFacts(base, PreOrder(t), map[]);
    PreOrderOffs(t, o);
    assert o in list <==> o in multiset(list);
    assert o in PreOrder(t) <==> o in multiset(PreOrder(t));
  }

  lemma FreeListRest(t: Tree, base: nat, list: seq<nat>)
    requires list == SortByKey(base, PreOrder(t))
    ensures Rest(list, 0) == Offs(t)
    ensures forall o :: o in PreOrder(t) <==> o in Offs(t)
  {
    hide SortByKey;
    forall o: nat
      ensures o in list <==> o in Offs(t)
      ensures o in PreOrder(t) <==> o in Offs(t)
    {
      FreeListElements(t, base, list, o);
    }
    assert list[0..] == list;
  }

  lemma FreeListAccounts(h: seq<Header>, t: Tree, m: Sizes, alloc: set<nat>, list: seq<nat>)
    requires Accounts(h, t, m, alloc, {}) && Rest(list, 0) == Offs(t)
    ensures Accounts(h, Leaf, m, alloc, Rest(list, 0))
  {
    hide Tiles;
  }

  /** The sorted free list holds each free chunk once and adds up to the free units. */
  lemma FreeListFacts(h: seq<Header>, root: int, t: Tree, m: Sizes, alloc: set<nat>, base: nat, list: seq<nat>)
    requires Accounts(h, t, m, alloc, {}) && IsTree(h, root, t) && Distinct(t)
    requires list == SortByKey(base, PreOrder(t))
    ensures NoRepeats(list)
    ensures Accounts(h, Leaf, m, alloc, Rest(list, 0))
    ensures SumOf(m, list) == Total(t)
    ensures UNIT * |h| <= LOW16 ==> Rotated(WrapPoint(base, |h|), list)
  {
    hide IsTree, Distinct, NoRepeats, KeySorted, Tiles, SortByKey, Total;
    PreOrderNoRepeats(t);
    SortFacts(base, PreOrder(t), m);
    SortNoRepeats(base, PreOrder(t));
    PreOrderSum(h, root, t, m);
    FreeListRest(t, base, list);
    FreeListAccounts(h, t, m, alloc, list);
    if UNIT * |h| <= LOW16 {
      SortRotated(base, |h|, PreOrder(t));
    }
  }

  lemma FreedFacts(h: seq<Header>, t: Tree, m: Sizes, alloc: set<nat>, hh: nat)
    requires Accounts(h, t, m, alloc, {}) && hh in alloc
    ensures hh in m && hh < |h| && h[hh].size == m[hh] && Marked(h[hh]) && hh !in Offs(t)
    ensures Accounts(h, t, m, alloc - {hh}, {hh})
    ensures |alloc - {hh}| == |alloc| - 1
  {}

  lemma FreedUnits(m: Sizes, alloc: set<nat>, hh: nat, u: nat)
    requires hh in m && hh in alloc
    ensures UnitFree(m, alloc - {hh}, u) <==> UnitFree(m, alloc, u) || InChunk(m, hh, u)
  {
    if UnitFree(m, alloc, u) {
      var o :| o in m && o !in alloc && InChunk(m, o, u);
      assert o !in alloc - {hh};
    }
    if UnitFree(m, alloc - {hh}, u) {
      var o :| o in m && o !in alloc - {hh} && InChunk(m, o, u);
    }
  }

  class Page {
    const base: nat
    const total: nat
    var hdr: seq<Header>
    var root: int
    var free: int
    var freeCount: int
    var allocatedCount: int
    var defragPeriod: int

    /** The free tree that the links represent, all chunks with their sizes, and the allocated ones. */
    ghost var tree: Tree
    ghost var sizes: Sizes
    ghost var alloc: set<nat>

    /**
      Chunks tile the page, the tree holds exactly the unallocated ones in order
      of size, and the counters are the sums and numbers they stand for.
    */
    ghost predicate Valid()
      reads this
    {
      && total == |hdr| < MAX_UNITS
      && Linked() && Ordered(tree)
      && Accounts(hdr, tree, sizes, alloc, {})
      && free == Total(tree)
      && freeCount == Count(tree)
      && allocatedCount == |alloc|
    }

    /** A new page has one free chunk; `headerBytes` is the size of the page descriptor. */
    constructor (base: nat, headerBytes: nat)
      requires headerBytes + 8 <= 4 * MAX_UNITS
      ensures Valid()
      ensures this.base == base && total == (4096 - headerBytes - 4) / 4
      ensures sizes == map[0 := total] && alloc == {}
      ensures defragPeriod == 1
    {
      hide Accounts, IsTree, Distinct, Ordered, Count, Total;
      var units := (4 * MAX_UNITS - headerBytes - 4) / 4;
      this.base := base;
      total := units;
      hdr := seq(units, i => Header(if i == 0 then units else 0, 0, 0));
      free := units;
      root := 0;
      allocatedCount := 0;
      freeCount := 1;
      defragPeriod := 1;
      tree := Node(Leaf, 0, units, Leaf);
      sizes := map[0 := units];
      alloc := {};
      new;
      NewPage(hdr, units);
    }

    ghost predicate Linked()
      reads this
    {
      IsTree(hdr, root, tree) && Distinct(tree)
    }

    method SetLeft(o: nat, child: int)
      requires o < |hdr|
      modifies this`hdr
      ensures hdr == old(hdr)[o := old(hdr[o]).(left := child - o)]
    {
      hdr := hdr[o := hdr[o].(left := child - o)];
    }

    method SetRight(o: nat, child: int)
      requires o < |hdr|
      modifies this`hdr
      ensures hdr == old(hdr)[o := old(hdr[o]).(right := child - o)]
    {
      hdr := hdr[o := hdr[o].(right := child - o)];
    }

    /** Copies a link between headers; "no child" is copied as "no child". */
    method CopyLeft(from: nat, to: nat)
      requires from < |hdr| && to < |hdr|
      modifies this`hdr
      ensures hdr == old(hdr)[to := old(hdr[to]).(left := LinkTo(to, Child(from, old(hdr[from]).left)))]
    {
      SetLeft(to, if hdr[from].left == 0 then to else Child(from, hdr[from].left));
    }

    method CopyRight(from: nat, to: nat)
      requires from < |hdr| && to < |hdr|
      modifies this`hdr
      ensures hdr == old(hdr)[to := old(hdr[to]).(right := LinkTo(to, Child(from, old(hdr[from]).right)))]
    {
      SetRight(to, if hdr[from].right == 0 then to else Child(from, hdr[from].right));
    }

    /** Inserts the chunk whose header is at `hh` into the free tree. */
    method BtreeInsert(hh: nat)
      requires Linked()
      requires hh < |hdr| && hh !in Offs(tree)
      modifies this`root, this`tree, this`hdr
      ensures Linked()
      ensures tree == Insert(old(tree), hh, old(hdr[hh].size))
      ensures LinksOnly(old(hdr), hdr, old(Offs(tree)) + {hh})
    {
      hide Insert, Plug, IsTree, Distinct, Descending, LinksOnly;
      ghost var t0 := tree;
      ghost var sz := hdr[hh].size;
      ghost var h0, mod := hdr, Offs(t0) + {hh};
      hdr := hdr[hh := hdr[hh].(left := 0, right := 0)];
      ghost var h := hdr;
      InsertDistinct(t0, hh, sz);
      StartInsert(h0, root, t0, hh, h);
      if root == NONE {
        root := hh;
        tree := Node(Leaf, hh, sz, Leaf);
        return;
      }
      var parent := root;
      ghost var c, sub := Top, t0;
      var inserted := false;
      while !inserted
        invariant root == old(root)
        invariant !inserted ==> hdr == h && Descending(h, root, c, sub, hh) && parent == sub.off && Plug(c, sub) == t0
        invariant Insert(t0, hh, sz) == Plug(c, Insert(sub, hh, sz))
        invariant inserted ==> IsTree(hdr, root, Insert(t0, hh, sz))
        invariant LinksOnly(h0, hdr, mod)
        decreases !inserted, sub
      {
        DescendingParts(h, root, c, sub, hh);
        if hdr[hh].size > hdr[parent].size {
          if hdr[parent].right == 0 {
            AttachRight(h, root, c, sub, hh);
            LinksOnlyUpdate(h0, h, mod, parent, h[parent].(right := hh - parent));
            SetRight(parent, hh);
            inserted := true;
          } else {
            parent := parent + hdr[parent].right;
            DescendRight(h, root, c, sub, hh, sz);
            c, sub := InRight(c, sub.left, sub.off, sub.size), sub.right;
          }
        } else if hdr[hh].size < hdr[parent].size {
          if hdr[parent].left == 0 {
            AttachLeft(h, root, c, sub, hh);
            LinksOnlyUpdate(h0, h, mod, parent, h[parent].(left := hh - parent));
            SetLeft(parent, hh);
            inserted := true;
          } else {
            parent := parent + hdr[parent].left;
            DescendLeft(h, root, c, sub, hh, sz);
            c, sub := InLeft(c, sub.off, sub.size, sub.right), sub.left;
          }
        } else {
          CopyLeft(parent, hh);
          AttachEqual(h, root, c, sub, hh, hdr);
          LinksOnlyUpdate(h0, h, mod, hh, hdr[hh]);
          LinksOnlyUpdate(h0, hdr, mod, parent, hdr[parent].(left := hh - parent));
          SetLeft(parent, hh);
          inserted := true;
        }
      }
      tree := Insert(t0, hh, sz);
    }

    /** Stores `tail` in the slot that led to the removed node; `tail == parent` stores "no child". */
    method Relink(parent: int, dir: Dir, tail: int)
      requires dir != DirNone ==> 0 <= parent < |hdr| && tail >= 0
      modifies this`root, this`hdr
      ensures var s := if tail == parent then NONE else tail;
              && hdr == Relinked(old(hdr), parent, dir, s)
              && root == if dir == DirNone then tail else old(root)
    {
      match dir
      case DirLeft => SetLeft(parent, tail);
      case DirRight => SetRight(parent, tail);
      case DirNone => root := tail;
    }

    /**
      Removes the node at `hh` from the free tree. The context `c` is where the
      node hangs: `parent` and `dir` are its innermost step.
    */
    method BtreeDelete(parent: int, hh: nat, dir: Dir, ghost c: Ctx, ghost sub: Tree)
      requires Linked() && tree == Plug(c, sub)
      requires sub.Node? && sub.off == hh && DirMatches(c, parent, dir)
      modifies this`root, this`tree, this`hdr
      ensures Linked() && tree == Plug(c, DeleteRoot(sub))
      ensures LinksOnly(old(hdr), hdr, Offs(old(tree)))
      ensures hh < |hdr| && hdr[hh].left == 0 && hdr[hh].right == 0
      ensures dir != DirNone ==> root == old(root)
      decreases Count(sub), 1
    {
      ghost var h0, mod := hdr, Offs(tree);
      DeletePrepare(h0, root, c, sub);
      var tail: int;
      if hdr[hh].left != 0 && hdr[hh].right != 0 {
        tail := PromoteSuccessor(hh, c, sub);
      } else if hdr[hh].left != 0 {
        tail := Child(hh, hdr[hh].left);
      } else if hdr[hh].right != 0 {
        tail := Child(hh, hdr[hh].right);
      } else {
        tail := parent;
      }
      ghost var h := hdr;
      ghost var child := if tail == parent then NONE else tail;
      UnlinkDone(h, root, c, parent, dir, DeleteRoot(sub), child, hh,
                 if dir == DirNone then tail else root);
      Relink(parent, dir, tail);
      RelinkLinksOnly(h0, h, mod, parent, dir, child);
      LinksOnlyUpdate(h0, hdr, mod, hh, hdr[hh].(left := 0, right := 0));
      hdr := hdr[hh := hdr[hh].(left := 0, right := 0)];
      tree := Plug(c, DeleteRoot(sub));
    }

    /**
      Takes the leftmost node of the right subtree out of the tree and gives it
      the links of `hh`; the result is not yet linked from the parent.
    */
    method PromoteSuccessor(hh: nat, ghost c: Ctx, ghost sub: Tree) returns (tail: int)
      requires Linked() && tree == Plug(c, sub)
      requires sub.Node? && sub.off == hh && sub.left.Node? && sub.right.Node?
      modifies this`root, this`tree, this`hdr
      ensures root == old(root)
      ensures IsCtx(hdr, root, c) && IsTree(hdr, tail, DeleteRoot(sub))
      ensures LinksOnly(old(hdr), hdr, Offs(old(tree)))
      decreases Count(sub), 0
    {
      hide LinksOnly, Distinct, IsCtx;
      var tparent, tdir;
      ghost var tc, ts;
      tparent, tail, tdir, tc, ts := FindSuccessor(hh, c, sub);
      ghost var n := Node(sub.left, hh, sub.size, DeleteMin(sub.right));
      DeletePrepare(hdr, root, c, sub);
      DeletePrepare(hdr, root, tc, ts);
      BtreeDelete(tparent, tail, tdir, tc, ts);
      ghost var h1 := hdr;
      PlugOffs(c, n);
      CopyLeft(hh, tail);
      CopyRight(hh, tail);
      PromoteLinksOnly(old(hdr), h1, hdr, Offs(old(tree)), tail);
      PromoteParts(h1, root, c, n, tail, hdr);
    }

    /** Walks left from the right child of `hh` to the node without a left child. */
    method FindSuccessor(hh: nat, ghost c: Ctx, ghost sub: Tree)
      returns (tparent: int, tail: int, tdir: Dir, ghost tc: Ctx, ghost ts: Tree)
      requires Linked() && tree == Plug(c, sub)
      requires sub.Node? && sub.off == hh && sub.left.Node? && sub.right.Node?
      ensures 0 <= tail < |hdr| && tree == Plug(tc, ts) && ts.Node? && ts.left.Leaf?
      ensures DirMatches(tc, tparent, tdir) && tdir != DirNone
      ensures Plug(tc, DeleteMin(ts)) == Plug(c, Node(sub.left, hh, sub.size, DeleteMin(sub.right)))
      ensures tail == ts.off == MinOff(sub.right) && ts.size == MinSize(sub.right)
      ensures Count(ts) < Count(sub)
    {
      ghost var h := hdr;
      DeletePrepare(h, root, c, sub);
      tparent, tail, tdir := hh, Child(hh, hdr[hh].right), DirRight;
      tc, ts := InRight(c, sub.left, hh, sub.size), sub.right;
      DeletePrepare(h, root, tc, ts);
      while hdr[tail].left != 0
        invariant ts.Node? && ts.off == tail && tree == Plug(tc, ts)
        invariant 0 <= tail < |hdr| && (hdr[tail].left == 0 <==> ts.left.Leaf?)
        invariant DirMatches(tc, tparent, tdir) && tdir != DirNone
        invariant Plug(tc, DeleteMin(ts)) == Plug(c, Node(sub.left, hh, sub.size, DeleteMin(sub.right)))
        invariant MinOff(ts) == MinOff(sub.right) && MinSize(ts) == MinSize(sub.right)
        invariant Count(ts) < Count(sub)
        decreases ts
      {
        DeletePrepare(h, root, tc, ts);
        tparent, tail, tdir := tail, Child(tail, hdr[tail].left), DirLeft;
        tc, ts := InLeft(tc, ts.off, ts.size, ts.right), ts.left;
        DeletePrepare(h, root, tc, ts);
      }
    }

    /** Walks down the tree remembering the best fit seen so far. */
    method FindBest(units: nat)
      returns (best: nat, bParent: int, bDir: Dir, bDiff: int, ghost bc: Ctx, ghost bsub: Tree)
      requires Linked() && Ordered(tree) && root != NONE
      ensures tree == Plug(bc, bsub) && bsub.Node? && bsub.off == best && DirMatches(bc, bParent, bDir)
      ensures bDiff == bsub.size - units
      ensures SearchCovers(tree, Leaf, units, bsub.size)
    {
      ghost var h := hdr;
      ghost var c, sub := Top, tree;
      DeletePrepare(h, root, c, sub);
      var hh: nat, parent, dir := root, NONE, DirNone;
      best, bParent, bDir := root, NONE, DirNone;
      bDiff := hdr[root].size - units;
      bc, bsub := Top, tree;
      while true
        invariant tree == Plug(c, sub) && sub.Node? && sub.off == hh < |hdr| && DirMatches(c, parent, dir)
        invariant tree == Plug(bc, bsub) && bsub.Node? && bsub.off == best && DirMatches(bc, bParent, bDir)
        invariant bDiff == bsub.size - units
        invariant SearchCovers(tree, sub, units, bsub.size)
        decreases sub
      {
        DeletePrepare(h, root, c, sub);
        PlugOrdered(c, sub);
        var diff := hdr[hh].size - units;
        ghost var before := bsub.size;
        if diff >= 0 && (diff <= bDiff || bDiff < 0) {
          best, bParent, bDir, bDiff := hh, parent, dir, diff;
          bc, bsub := c, sub;
          if diff == 0 {
            CoverExact(tree, sub, units, before);
            break;
          }
        }
        if diff >= 0 {
          CoverLeft(tree, sub, units, before);
        } else {
          CoverRight(tree, sub, units, before);
        }
        if hdr[hh].left != 0 && diff > 0 {
          parent, dir := hh, DirLeft;
          c, sub := InLeft(c, sub.off, sub.size, sub.right), sub.left;
          hh := Child(hh, hdr[hh].left);
          DeletePrepare(h, root, c, sub);
        } else if hdr[hh].right != 0 && diff < 0 {
          parent, dir := hh, DirRight;
          c, sub := InRight(c, sub.left, sub.off, sub.size), sub.right;
          hh := Child(hh, hdr[hh].right);
          DeletePrepare(h, root, c, sub);
        } else {
          break;
        }
      }
    }

    /** Takes a best-fitting chunk out of the free tree, or fails when none fits. */
    method FindDelete(units: nat) returns (best: int)
      requires Linked() && Ordered(tree) && root != NONE
      modifies this`root, this`tree, this`hdr
      ensures Linked() && Ordered(tree)
      ensures best == NONE <==> NoneFits(old(tree), units)
      ensures best == NONE ==> tree == old(tree) && root == old(root) && hdr == old(hdr)
      ensures best != NONE ==> 0 <= best < |hdr|
      ensures best != NONE ==> BestFit(old(tree), units, best, hdr[best].size)
      ensures best != NONE ==> Shrinks(old(tree), tree, best, hdr[best].size)
      ensures LinksOnly(old(hdr), hdr, Offs(old(tree)))
    {
      var b, bParent, bDir, bDiff;
      ghost var bc, bsub;
      b, bParent, bDir, bDiff, bc, bsub := FindBest(units);
      PlugHas(bc, bsub, b, bsub.size);
      TreeHasSize(hdr, root, tree, b, bsub.size);
      if bDiff < 0 {
        return NONE;
      }
      DeletePrepare(hdr, root, bc, bsub);
      DeleteRootShrinks(bsub);
      PlugShrinks(bc, bsub, DeleteRoot(bsub), b, bsub.size);
      BtreeDelete(bParent, b, bDir, bc, bsub);
      best := b;
    }

    // -------------------------------------------------------------------
    // Allocation and freeing
    // -------------------------------------------------------------------

    /**
      Allocates `size` bytes: the smallest free chunk with enough units is taken,
      and what it has beyond them is split off when it exceeds the minimum.
      Fails exactly when no free chunk is large enough. On a page without any
      free chunk the search follows a null root (`fault`); callers look at the
      root first, except for a page they have just asked for.
    */
    method Alloc(size: nat) returns (hh: int, fault: bool)
      requires Valid()
      modifies this
      ensures Valid()
      ensures fault <==> forall o :: o in old(sizes) ==> o in old(alloc)
      ensures hh == NONE <==> NoFreeChunk(old(sizes), old(alloc), UnitsFor(size))
      ensures hh == NONE ==> sizes == old(sizes) && alloc == old(alloc) && hdr == old(hdr) && root == old(root)
      ensures hh != NONE ==> SmallestFree(old(sizes), old(alloc), UnitsFor(size), hh) && alloc == old(alloc) + {hh}
      ensures hh != NONE ==>
        sizes == if old(sizes)[hh] - UnitsFor(size) > 4 then Split(old(sizes), hh, UnitsFor(size))
                 else old(sizes)
      ensures hh != NONE ==> free == old(free) - sizes[hh]
      ensures defragPeriod == old(defragPeriod)
    {
      hide Accounts, IsTree, Distinct, Ordered, Count, Total, SmallestFree, NoFreeChunk;
      FullPage(hdr, root, tree, sizes, alloc);
      fault := root == NONE;
      if fault {
        return NONE, true;
      }
      var units := UnitsFor(size);
      hh := TakeBest(units);
      if hh == NONE {
        return;
      }
      var diff := hdr[hh].size - units;
      allocatedCount := allocatedCount + 1;
      freeCount := freeCount - 1;
      if diff > MIN_UNITS {
        Trim(hh, units);
      }
      free := free - hdr[hh].size;
    }

    /** Takes a best fit out of the tree and marks it as allocated. */
    method TakeBest(units: nat) returns (hh: int)
      requires Linked() && Ordered(tree) && root != NONE
      requires Accounts(hdr, tree, sizes, alloc, {})
      modifies this`root, this`tree, this`hdr, this`alloc
      ensures Linked() && Ordered(tree)
      ensures Accounts(hdr, tree, sizes, alloc, {}) && |hdr| == old(|hdr|)
      ensures hh == NONE <==> NoFreeChunk(sizes, old(alloc), units)
      ensures hh == NONE ==> alloc == old(alloc) && hdr == old(hdr) && root == old(root) && tree == old(tree)
      ensures hh != NONE ==> SmallestFree(sizes, old(alloc), units, hh) && alloc == old(alloc) + {hh}
      ensures hh != NONE ==> 0 <= hh < |hdr| && hh in sizes && hdr[hh].size == sizes[hh] && units <= sizes[hh]
      ensures hh != NONE ==> |alloc| == |old(alloc)| + 1
      ensures hh != NONE ==> Count(tree) == old(Count(tree)) - 1 && Total(tree) == old(Total(tree)) - sizes[hh]
    {
      hide Accounts, IsTree, Distinct, Ordered, Count, Total, Offs, LinksOnly;
      hide NoneFits, BestFit, SmallestFree, NoFreeChunk, Shrinks;
      ghost var h0, t0, root0 := hdr, tree, root;
      hh := FindDelete(units);
      NoneFitsIsNoFreeChunk(h0, root0, t0, sizes, alloc, units);
      if hh == NONE {
        return;
      }
      BestFitIsSmallestFree(h0, root0, t0, sizes, alloc, units, hh, hdr[hh].size);
      TakenFacts(h0, t0, tree, sizes, alloc, units, hh, hdr[hh].size);
      AccountsAfterDelete(h0, hdr, t0, tree, sizes, alloc, hh, hdr[hh].size);
      ghost var h1 := hdr;
      hdr := hdr[hh := hdr[hh].(left := ALLOCATED_MARK, right := ALLOCATED_MARK)];
      AccountsAfterMark(h1, hdr, tree, sizes, alloc, hh);
      HeaderOutsideTree(h1, root, tree, hh, hdr[hh]);
      alloc := alloc + {hh};
    }

    /** Cuts an allocated chunk and returns the rest to the free tree. */
    method Trim(hh: nat, units: nat)
      requires Linked() && Ordered(tree)
      requires Accounts(hdr, tree, sizes, alloc, {})
      requires hh in alloc && hh in sizes && 0 < units < sizes[hh]
      modifies this`root, this`tree, this`freeCount, this`sizes, this`hdr
      ensures Linked() && Ordered(tree)
      ensures sizes == Split(old(sizes), hh, units)
      ensures Accounts(hdr, tree, sizes, alloc, {}) && |hdr| == old(|hdr|)
      ensures 0 <= hh < |hdr| && hdr[hh].size == units
      ensures freeCount == old(freeCount) + 1
      ensures Count(tree) == old(Count(tree)) + 1
      ensures Total(tree) == old(Total(tree)) + old(sizes)[hh] - units
    {
      hide IsTree, Distinct, Ordered, Insert, Offs, Count, Total, LinksOnly, Tiles;
      ghost var h0 := hdr;
      TrimRange(h0, tree, sizes, alloc, hh, units);
      var diff := hdr[hh].size - units;
      var next := hh + units;
      hdr := hdr[hh := hdr[hh].(size := units)];
      hdr := hdr[next := Header(diff, 0, 0)];
      ghost var h1 := hdr;
      AccountsAfterTrim(h0, h1, tree, sizes, alloc, hh, units);
      TreeFrame(h0, h1, root, tree);
      sizes := Split(sizes, hh, units);
      freeCount := freeCount + 1;
      InsertAdds(tree, next, diff);
      InsertOrdered(tree, next, diff);
      ghost var t1 := tree;
      BtreeInsert(next);
      AccountsAfterInsert(h1, hdr, t1, sizes, alloc, {next}, next);
    }

    // -------------------------------------------------------------------
    // Defragmentation
    // -------------------------------------------------------------------

    /** Writes the offsets of the subtree at `s` into `arr` from `index` on, node first. */
    method Linearize(arr: array<nat>, s: nat, index: nat, ghost t: Tree) returns (idx: nat)
      requires t.Node? && IsTree(hdr, s, t) && index + Count(t) <= arr.Length
      modifies arr
      ensures idx == index + Count(t)
      ensures arr[..idx] == old(arr[..index]) + PreOrder(t)
      decreases t
    {
      assert hdr[s].left == 0 <==> t.left == Leaf;
      assert hdr[s].right == 0 <==> t.right == Leaf;
      assert Count(t) == 1 + Count(t.left) + Count(t.right);
      ghost var a0, l, r := arr[..index], PreOrder(t.left), PreOrder(t.right);
      assert a0 + [s] + l + r == a0 + PreOrder(t);
      hide Count, PreOrder;
      arr[index] := s;
      idx := index + 1;
      assert arr[..idx] == a0 + [s];
      LeafOrder();
      if hdr[s].left != 0 {
        idx := Linearize(arr, Child(s, hdr[s].left), idx, t.left);
      }
      assert arr[..idx] == a0 + [s] + l;
      if hdr[s].right != 0 {
        idx := Linearize(arr, Child(s, hdr[s].right), idx, t.right);
      }
      assert arr[..idx] == a0 + [s] + l + r;
    }

    /** Lets the pending chunk `list[i]` absorb the list entries that directly follow it. */
    method Absorb(list: seq<nat>, i: nat, ghost w: nat, ghost m0: Sizes) returns (j: nat)
      requires i < |list| && NoRepeats(list) && Rotated(w, list) && StopsAt(w, m0, sizes)
      requires Linked() && Accounts(hdr, tree, sizes, alloc, Rest(list, i))
      modifies this`hdr, this`sizes
      ensures i < j <= |list| && |hdr| == old(|hdr|)
      ensures Linked() && Accounts(hdr, tree, sizes, alloc, {list[i]} + Rest(list, j))
      ensures forall o :: o in sizes && o != list[i] ==> o in old(sizes) && sizes[o] == old(sizes)[o]
      ensures list[i] in sizes && sizes[list[i]] + SumOf(sizes, list[j..]) == SumOf(old(sizes), list[i..])
      ensures j < |list| ==> list[j] != list[i] + sizes[list[i]]
      ensures StopsAt(w, m0, sizes)
    {
      hide IsTree, Distinct, Offs, Accounts, NoRepeats, Rotated, StopsAt;
      var hh := list[i];
      RestStep(list, i);
      PendingRange(hdr, tree, sizes, alloc, Rest(list, i), hh);
      var next := hh + hdr[hh].size;
      j := i + 1;
      assert Rest(list, i) == {hh} + Rest(list, j);
      while j < |list| && next == list[j]
        invariant i < j <= |list| && |hdr| == old(|hdr|)
        invariant Linked() && Accounts(hdr, tree, sizes, alloc, {hh} + Rest(list, j))
        invariant hh !in Rest(list, j)
        invariant hh in sizes && hh < |hdr| && hdr[hh].size == sizes[hh] && next == hh + sizes[hh]
        invariant forall o :: o in sizes && o != hh ==> o in old(sizes) && sizes[o] == old(sizes)[o]
        invariant sizes[hh] + SumOf(sizes, list[j..]) == SumOf(old(sizes), list[i..])
        invariant StopsAt(w, m0, sizes)
      {
        LaterIsBelow(w, list, i, j);
        ghost var before := sizes;
        AbsorbOne(list, hh, j);
        StopsAtMerge(w, m0, before, hh);
        next := next + hdr[next].size;
        j := j + 1;
      }
    }

    /** Adds the size of the chunk that follows `hh` to `hh`. */
    method AbsorbOne(list: seq<nat>, hh: nat, j: nat)
      requires j < |list| && NoRepeats(list)
      requires Linked() && Accounts(hdr, tree, sizes, alloc, {hh} + Rest(list, j))
      requires hh !in Rest(list, j) && hh in sizes && list[j] == hh + sizes[hh]
      modifies this`hdr, this`sizes
      ensures |hdr| == old(|hdr|) && list[j] < |hdr| && hh < |hdr|
      ensures list[j] in old(sizes) && hdr[list[j]].size == old(sizes)[list[j]]
      ensures hh + old(sizes)[hh] in old(sizes) && sizes == Merge(old(sizes), hh) && hdr[hh].size == sizes[hh]
      ensures Linked() && Accounts(hdr, tree, sizes, alloc, {hh} + Rest(list, j + 1))
      ensures hh !in Rest(list, j + 1)
      ensures sizes[hh] + SumOf(sizes, list[j + 1..]) == old(sizes)[hh] + SumOf(old(sizes), list[j..])
    {
      hide IsTree, Distinct, Offs, Accounts, NoRepeats;
      ghost var h0, m0, pending := hdr, sizes, {hh} + Rest(list, j);
      var next := list[j];
      RestStep(list, j);
      PendingRange(h0, tree, m0, alloc, pending, hh);
      PendingRange(h0, tree, m0, alloc, pending, next);
      hdr := hdr[hh := hdr[hh].(size := hdr[hh].size + hdr[next].size)];
      HeaderOutsideTree(h0, root, tree, hh, hdr[hh]);
      AccountsAfterMerge(h0, hdr, tree, m0, alloc, pending, hh);
      sizes := Merge(m0, hh);
      RestInKeys(h0, tree, m0, alloc, pending, list, j + 1, hh, next);
      SumOfFrame(m0, sizes, list[j + 1..]);
      assert pending - {next} == {hh} + Rest(list, j + 1);
    }

    /** Merges the entries that follow `list[index]` into it and inserts it into the tree. */
    method RebuildOne(list: seq<nat>, index: nat, ghost w: nat, ghost first: Sizes) returns (j: nat)
      requires index < |list| && NoRepeats(list) && Rotated(w, list)
      requires Linked() && Ordered(tree) && Accounts(hdr, tree, sizes, alloc, Rest(list, index))
      requires freeCount == Count(tree) && Gapped(w, Offs(tree), sizes, list, index) && StopsAt(w, first, sizes)
      modifies this`root, this`tree, this`hdr, this`sizes, this`freeCount
      ensures index < j <= |list| && |hdr| == old(|hdr|)
      ensures Linked() && Ordered(tree) && Accounts(hdr, tree, sizes, alloc, Rest(list, j))
      ensures freeCount == Count(tree) && Gapped(w, Offs(tree), sizes, list, j) && StopsAt(w, first, sizes)
      ensures Total(tree) + SumOf(sizes, list[j..]) == old(Total(tree)) + SumOf(old(sizes), list[index..])
      ensures forall o :: o in alloc && o in old(sizes) ==> o in sizes && sizes[o] == old(sizes)[o]
    {
      hide IsTree, Distinct, Ordered, Offs, Accounts, NoRepeats, Rotated, Gapped, Count, Total, Insert, LinksOnly,
           StopsAt, Tiles;
      ghost var m0, t0 := sizes, tree;
      var hh := list[index];
      AccountsKeys(hdr, tree, sizes, alloc, Rest(list, index));
      j := Absorb(list, index, w, first);
      ghost var h1, pending := hdr, {hh} + Rest(list, j);
      AccountsKeys(hdr, tree, sizes, alloc, pending);
      GappedStep(w, h1, t0, m0, sizes, alloc, list, index, j);
      PendingRange(h1, tree, sizes, alloc, pending, hh);
      InsertAdds(tree, hh, hdr[hh].size);
      InsertOrdered(tree, hh, hdr[hh].size);
      BtreeInsert(hh);
      freeCount := freeCount + 1;
      AccountsAfterInsert(h1, hdr, t0, sizes, alloc, pending, hh);
      assert pending - {hh} == Rest(list, j) by { RestStepOut(list, index, j); }
    }

    /** Rebuilds the tree from the free list, merging runs of adjacent entries. */
    method Rebuild(list: seq<nat>, ghost w: nat)
      requires NoRepeats(list) && Rotated(w, list)
      requires root == NONE && tree == Leaf && freeCount == 0
      requires Accounts(hdr, Leaf, sizes, alloc, Rest(list, 0))
      modifies this`root, this`tree, this`hdr, this`sizes, this`freeCount
      ensures |hdr| == old(|hdr|) && Linked() && Ordered(tree)
      ensures Accounts(hdr, tree, sizes, alloc, {})
      ensures freeCount == Count(tree) && Total(tree) == SumOf(old(sizes), list)
      ensures forall o :: o in alloc && o in old(sizes) ==> o in sizes && sizes[o] == old(sizes)[o]
      ensures OnlyAcross(w, sizes, alloc) && StopsAt(w, old(sizes), sizes)
    {
      hide IsTree, Distinct, Ordered, Offs, Accounts, NoRepeats, Rotated, Gapped, Count, Total, OnlyAcross,
           StopsAt, Tiles;
      var index := 0;
      assert list[0..] == list;
      LeafFacts(hdr, sizes, list);
      AccountsKeys(hdr, tree, sizes, alloc, Rest(list, 0));
      StopsAtFirst(w, sizes, |hdr|);
      while index < |list|
        invariant index <= |list| && |hdr| == old(|hdr|)
        invariant Linked() && Ordered(tree)
        invariant Accounts(hdr, tree, sizes, alloc, Rest(list, index))
        invariant freeCount == Count(tree) && Total(tree) + SumOf(sizes, list[index..]) == SumOf(old(sizes), list)
        invariant forall o :: o in alloc && o in old(sizes) ==> o in sizes && sizes[o] == old(sizes)[o]
        invariant Gapped(w, Offs(tree), sizes, list, index) && StopsAt(w, old(sizes), sizes)
      {
        index := RebuildOne(list, index, w, old(sizes));
      }
      assert list[index..] == [] && Rest(list, index) == {};
      GappedIsOnlyAcross(w, hdr, tree, sizes, alloc, list);
    }

    /**
      Every eighth call merges adjacent free chunks. The allocated chunks, the
      set of free units and their number stay the same. Afterwards free chunks are
      adjacent only across the 64 KiB boundary that the page may straddle, and
      they are exactly when two were before.
    */
    method Defrag()
      requires Valid() && root != NONE
      modifies this
      ensures Valid()
      ensures alloc == old(alloc) && free == old(free) && allocatedCount == old(allocatedCount)
      ensures forall o :: o in alloc ==> o in sizes && o in old(sizes) && sizes[o] == old(sizes)[o]
      ensures forall u: nat :: u < total ==> (UnitFree(sizes, alloc, u) <==> UnitFree(old(sizes), alloc, u))
      ensures defragPeriod == if old(defragPeriod) > 1 then old(defragPeriod) - 1 else 8
      ensures old(defragPeriod) > 1 ==> sizes == old(sizes)
      ensures old(defragPeriod) <= 1 ==>
                && OnlyAcross(WrapPoint(base, total), sizes, alloc)
                && (NoAdjacentFree(sizes, alloc) <==> !AdjacentAcross(WrapPoint(base, total), old(sizes), alloc))
                && (NoStraddle(base, total) ==> NoAdjacentFree(sizes, alloc))
    {
      hide Accounts, IsTree, Distinct, Ordered, Count, Total, Tiles, UnitFree, NoAdjacentFree, OnlyAcross, StopsAt,
           WrapPoint, AdjacentAcross;
      AccountsKeys(hdr, tree, sizes, alloc, {});
      defragPeriod := defragPeriod - 1;
      if defragPeriod > 0 {
        return;
      }
      ghost var m0 := sizes;
      MergeFreeChunks();
      AccountsKeys(hdr, tree, sizes, alloc, {});
      forall u: nat | u < total
        ensures UnitFree(sizes, alloc, u) <==> UnitFree(m0, alloc, u)
      {
        SameFreeUnits(m0, sizes, total, alloc, u);
      }
      AdjacentExact(WrapPoint(base, total), m0, sizes, total, alloc);
      if NoStraddle(base, total) {
        NoStraddleNoAdjacent(base, total, sizes, alloc);
      }
      defragPeriod := DEFRAG_PERIOD;
    }

    /** Linearises the tree, sorts the list by address and rebuilds the tree from it. */
    method MergeFreeChunks()
      requires Linked() && Accounts(hdr, tree, sizes, alloc, {}) && freeCount == Count(tree) && root != NONE
      requires UNIT * |hdr| <= LOW16
      modifies this`root, this`tree, this`hdr, this`sizes, this`freeCount
      ensures |hdr| == old(|hdr|) && Linked() && Ordered(tree)
      ensures Accounts(hdr, tree, sizes, alloc, {})
      ensures freeCount == Count(tree) && Total(tree) == old(Total(tree))
      ensures forall o :: o in alloc && o in old(sizes) ==> o in sizes && sizes[o] == old(sizes)[o]
      ensures OnlyAcross(WrapPoint(base, |hdr|), sizes, alloc) && StopsAt(WrapPoint(base, |hdr|), old(sizes), sizes)
    {
      hide Accounts, IsTree, Distinct, Ordered, NoRepeats, Rotated, Count, Total, SortByKey, WrapPoint, PreOrder,
           OnlyAcross, StopsAt;
      CountPositive(hdr, root, tree);
      var arr := new nat[freeCount];
      var linCount := Linearize(arr, root, 0, tree);
      assert linCount == freeCount;
      assert arr[..] == arr[..linCount] == PreOrder(tree);
      var list := SortByKey(base, arr[..]);
      FreeListFacts(hdr, root, tree, sizes, alloc, base, list);
      root := NONE;
      freeCount := 0;
      tree := Leaf;
      Rebuild(list, WrapPoint(base, |hdr|));
    }

    /**
      Returns an allocated chunk to the free tree. The last chunk of a page that
      is old enough releases the page; otherwise many free chunks trigger a
      defragmentation.
    */
    method Free(hh: nat, aged: bool) returns (released: bool)
      requires Valid() && hh in alloc
      modifies this
      ensures Valid()
      ensures alloc == old(alloc) - {hh}
      ensures free == old(free) + old(sizes)[hh]
      ensures released <==> aged && alloc == {}
      ensures forall o :: o in alloc ==> o in sizes && o in old(sizes) && sizes[o] == old(sizes)[o]
      ensures forall u: nat :: u < total ==>
                (UnitFree(sizes, alloc, u) <==> UnitFree(old(sizes), old(alloc), u) || InChunk(old(sizes), hh, u))
      ensures alloc == {} || Count(old(tree)) < 16 ==> sizes == old(sizes) && defragPeriod == old(defragPeriod)
      ensures alloc != {} && Count(old(tree)) >= 16 ==>
                && defragPeriod == (if old(defragPeriod) > 1 then old(defragPeriod) - 1 else 8)
                && (old(defragPeriod) > 1 ==> sizes == old(sizes))
                && (old(defragPeriod) <= 1 ==> OnlyAcross(WrapPoint(base, total), sizes, alloc))
                && (old(defragPeriod) <= 1 ==>
                      (NoAdjacentFree(sizes, alloc) <==> !AdjacentAcross(WrapPoint(base, total), old(sizes), alloc)))
                && (old(defragPeriod) <= 1 && NoStraddle(base, total) ==> NoAdjacentFree(sizes, alloc))
    {
      hide Accounts, IsTree, Distinct, Ordered, Count, Total, Tiles, UnitFree, InChunk, NoAdjacentFree, OnlyAcross,
           WrapPoint, AdjacentAcross;
      ghost var m0, alloc0 := sizes, alloc;
      ReturnToTree(hh);
      freeCount := freeCount + 1;
      free := free + hdr[hh].size;
      allocatedCount := allocatedCount - 1;
      released := false;
      forall u: nat | u < total
        ensures UnitFree(m0, alloc, u) <==> UnitFree(m0, alloc0, u) || InChunk(m0, hh, u)
      {
        FreedUnits(m0, alloc0, hh, u);
      }
      if allocatedCount == 0 {
        released := aged;
      } else if freeCount > DEFRAG_FREE {
        RootPresent(hdr, root, tree);
        Defrag();
      }
    }

    /** Inserts an allocated chunk into the free tree. */
    method ReturnToTree(hh: nat)
      requires Linked() && Ordered(tree)
      requires Accounts(hdr, tree, sizes, alloc, {}) && hh in alloc
      modifies this`root, this`tree, this`hdr, this`alloc
      ensures |hdr| == old(|hdr|) && Linked() && Ordered(tree)
      ensures alloc == old(alloc) - {hh} && |alloc| == |old(alloc)| - 1 && alloc <= sizes.Keys
      ensures Accounts(hdr, tree, sizes, alloc, {})
      ensures hh in sizes && hh < |hdr| && hdr[hh].size == sizes[hh]
      ensures Count(tree) == old(Count(tree)) + 1 && Total(tree) == old(Total(tree)) + sizes[hh]
    {
      hide Accounts, IsTree, Distinct, Ordered, Offs, Count, Total, Insert;
      ghost var h0, t0 := hdr, tree;
      FreedFacts(h0, t0, sizes, alloc, hh);
      InsertAdds(tree, hh, hdr[hh].size);
      InsertOrdered(tree, hh, hdr[hh].size);
      BtreeInsert(hh);
      alloc := alloc - {hh};
      AccountsAfterInsert(h0, hdr, t0, sizes, alloc, {hh}, hh);
      assert {hh} - {hh} == {};
      AccountsKeys(hdr, tree, sizes, alloc, {});
    }
  }
}
