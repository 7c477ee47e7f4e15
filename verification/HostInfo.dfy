/**
  The reference-counted graph of host objects of one subsystem.

  An object may have several parents. The first parent link is stored inside
  the object, further ones are allocated. Destroying an object drops its links
  to its children and destroys every child whose last link that was, while the
  list of children is being walked with a saved next pointer.
*/
module HostInfo {

  import opened Common
  import opened HostLinks
  import opened HostOrder

  /** One run of a destructor, with the number of links to the object at that time. */
  datatype Dtor = Dtor(id: Id, links: nat)

  const REF_MODULUS: nat := 0x10000

  ghost function NodesOf(es: set<Edge>): set<nat> {
    set e | e in es && e.kind == Allocated :: e.node
  }

  ghost function Elements<T(!new)>(s: seq<T>): set<T> {
    set x | x in s
  }

  lemma EdgesToRemove(es: set<Edge>, e: Edge, x: Id)
    requires e in es
    ensures |EdgesTo(es - {e}, x)| == |EdgesTo(es, x)| - (if e.child == x then 1 else 0)
  {
    if e.child == x {
      assert EdgesTo(es - {e}, x) == EdgesTo(es, x) - {e};
    } else {
      assert EdgesTo(es - {e}, x) == EdgesTo(es, x);
    }
  }

  lemma EdgesToAdd(es: set<Edge>, e: Edge, x: Id)
    requires e !in es
    ensures |EdgesTo(es + {e}, x)| == |EdgesTo(es, x)| + (if e.child == x then 1 else 0)
  {
    EdgesToRemove(es + {e}, e, x);
    assert es + {e} - {e} == es;
  }

  // ---------------------------------------------------------------------
  // The invariant, also while some objects are being destroyed
  // ---------------------------------------------------------------------

  /** The mutable state of a subsystem as a value. */
  datatype Graph = Graph(
    list: seq<Id>,
    refCount: map<Id, nat>,
    children: map<Id, seq<Edge>>,
    nodeUsed: map<Id, bool>,
    nodes: set<nat>,
    edges: set<Edge>)

  /** Objects under destruction, each with the number of child links already dropped. */
  type Dying = map<Id, nat>

  ghost predicate ListOk(g: Graph, d: Dying) {
    && NoRepeats(g.list)
    && (forall x :: x in g.list <==> x in g.refCount && x !in d)
    && d.Keys <= g.refCount.Keys
    && g.children.Keys == g.refCount.Keys
    && g.nodeUsed.Keys == g.refCount.Keys
  }

  ghost predicate EdgesOk(g: Graph) {
    && (forall e :: e in g.edges ==> e.parent in g.refCount && e.child in g.refCount)
    && (forall e, f :: e in g.edges && f in g.edges && e.kind == f.kind && e != f ==>
          if e.kind == Embedded then e.child != f.child else e.node != f.node)
    && (forall e :: e in g.edges && e.kind == Embedded ==> e.child in g.nodeUsed && g.nodeUsed[e.child])
  }

  /** The links of `p` that have not been dropped yet. */
  ghost function Remaining(g: Graph, d: Dying, p: Id): set<Edge>
    requires p in g.children
  {
    if p in d && d[p] <= |g.children[p]| then Elements(g.children[p][d[p]..]) else Elements(g.children[p])
  }

  ghost predicate ChildrenOk(g: Graph, d: Dying) {
    && (forall p :: p in g.children ==> NoRepeats(g.children[p]) && Remaining(g, d, p) == EdgesFrom(g.edges, p))
    && (forall p :: p in d && p in g.children ==> d[p] <= |g.children[p]|)
  }

  /** The reference count is the number of links, and an object under destruction has none. */
  ghost predicate CountsOk(g: Graph, d: Dying) {
    && (forall x :: x in g.refCount ==> g.refCount[x] == |EdgesTo(g.edges, x)|)
    && (forall x :: x in d && x in g.refCount ==> g.refCount[x] == 0)
  }

  /** Allocated links in memory are those in use and those about to be freed. */
  ghost predicate NodesOk(g: Graph, held: set<nat>) {
    && g.nodes == NodesOf(g.edges) + held
    && NodesOf(g.edges) !! held
  }

  ghost predicate Inv(g: Graph, d: Dying, held: set<nat>) {
    ListOk(g, d) && EdgesOk(g) && ChildrenOk(g, d) && CountsOk(g, d) && NodesOk(g, held)
  }

  /** The memory that holds link `e` has not been freed. */
  ghost predicate Stored(g: Graph, e: Edge) {
    if e.kind == Embedded then e.child in g.refCount else e.node in g.nodes
  }

  // ---------------------------------------------------------------------
  // The pieces of a destruction
  // ---------------------------------------------------------------------

  function Without(s: seq<Id>, x: Id): seq<Id> {
    if s == [] then [] else if s[0] == x then s[1..] else [s[0]] + Without(s[1..], x)
  }

  lemma {:induction false} WithoutElements(s: seq<Id>, x: Id)
    requires NoRepeats(s)
    ensures NoRepeats(Without(s, x))
    ensures forall y :: y in Without(s, x) <==> y in s && y != x
    ensures |Without(s, x)| == |s| - (if x in s then 1 else 0)
  {
    if s != [] {
      assert s == [s[0]] + s[1..];
      WithoutElements(s[1..], x);
      var t := Without(s[1..], x);
      if s[0] != x {
        assert forall i :: 0 <= i < |t| ==> t[i] in t;
      }
    }
  }

  lemma UnlistList(g: Graph, g': Graph, d: Dying, o: Id)
    requires ListOk(g, d) && o in g.list
    requires g' == g.(list := Without(g.list, o))
    ensures ListOk(g', d[o := 0])
  {
    WithoutElements(g.list, o);
  }

  lemma UnlistChildren(g: Graph, g': Graph, d: Dying, o: Id)
    requires ChildrenOk(g, d) && g'.children == g.children && g'.edges == g.edges && o !in d
    ensures ChildrenOk(g', d[o := 0])
  {
    forall p | p in g'.children
      ensures Remaining(g', d[o := 0], p) == EdgesFrom(g.edges, p)
    {
      assert Remaining(g, d, p) == EdgesFrom(g.edges, p);
      if p == o {
        assert g.children[p][0..] == g.children[p];
      }
    }
  }

  /** The object leaves the subsystem list and its destruction starts. */
  lemma UnlistKeeps(g: Graph, g': Graph, d: Dying, held: set<nat>, o: Id)
    requires Inv(g, d, held) && o in g.list && g.refCount[o] == 0
    requires g' == g.(list := Without(g.list, o))
    ensures Inv(g', d[o := 0], held)
  {
    hide NoRepeats, Remaining, Without, EdgesFrom, ChildrenOk, EdgesTo;
    UnlistList(g, g', d, o);
    UnlistChildren(g, g', d, o);
  }

  function NodeHeld(e: Edge): set<nat> {
    if e.kind == Allocated then {e.node} else {}
  }

  lemma SuffixElements(s: seq<Edge>, i: nat)
    requires i < |s| && NoRepeats(s)
    ensures Elements(s[i..]) == Elements(s[i + 1..]) + {s[i]}
    ensures s[i] !in Elements(s[i + 1..])
  {
    assert s[i..] == [s[i]] + s[i + 1..];
    var t := s[i + 1..];
    assert forall k :: 0 <= k < |t| ==> t[k] == s[i + 1 + k];
  }

  lemma NodesRemove(es: set<Edge>, e: Edge)
    requires e in es
    requires forall f, h :: f in es && h in es && f.kind == Allocated && h.kind == Allocated && f != h ==>
               f.node != h.node
    ensures NodesOf(es) == NodesOf(es - {e}) + NodeHeld(e)
    ensures NodesOf(es - {e}) !! NodeHeld(e)
  {
    forall n | n in NodesOf(es)
      ensures n in NodesOf(es - {e}) + NodeHeld(e)
    {
      var f :| f in es && f.kind == Allocated && f.node == n;
      if f != e {
        assert f in es - {e};
      }
    }
  }

  /** The next link to drop is a link to a live object that is not under destruction. */
  lemma NextLink(g: Graph, d: Dying, held: set<nat>, o: Id)
    requires Inv(g, d, held) && o in d && o in g.children && d[o] < |g.children[o]|
    ensures var e := g.children[o][d[o]];
            && e in g.edges && e.parent == o && e.child in g.refCount && e.child !in d && g.refCount[e.child] > 0
            && NodeHeld(e) !! held && Stored(g, e)
  {
    var e := g.children[o][d[o]];
    SuffixElements(g.children[o], d[o]);
    assert Remaining(g, d, o) == EdgesFrom(g.edges, o);
    assert e in EdgesFrom(g.edges, o);
    assert e in EdgesTo(g.edges, e.child);
    if e.kind == Allocated {
      assert e.node in NodesOf(g.edges);
    }
  }

  function DropLink(g: Graph, e: Edge): Graph
    requires e.child in g.refCount && g.refCount[e.child] > 0
  {
    g.(refCount := g.refCount[e.child := g.refCount[e.child] - 1], edges := g.edges - {e})
  }

  lemma DropLinkChildren(g: Graph, d: Dying, o: Id, e: Edge)
    requires ChildrenOk(g, d) && o in d && o in g.children && d[o] < |g.children[o]| && e == g.children[o][d[o]]
    requires e.child in g.refCount && g.refCount[e.child] > 0 && e.parent == o
    ensures ChildrenOk(DropLink(g, e), d[o := d[o] + 1])
  {
    var g', d' := DropLink(g, e), d[o := d[o] + 1];
    SuffixElements(g.children[o], d[o]);
    forall p | p in g'.children
      ensures Remaining(g', d', p) == EdgesFrom(g'.edges, p)
    {
      assert Remaining(g, d, p) == EdgesFrom(g.edges, p);
      if p == o {
        assert EdgesFrom(g'.edges, p) == EdgesFrom(g.edges, p) - {e};
      } else {
        assert EdgesFrom(g'.edges, p) == EdgesFrom(g.edges, p);
      }
    }
  }

  lemma DropLinkCounts(g: Graph, d: Dying, o: Id, e: Edge)
    requires CountsOk(g, d) && o in d && e in g.edges
    requires e.child in g.refCount && g.refCount[e.child] > 0
    ensures CountsOk(DropLink(g, e), d[o := d[o] + 1])
  {
    var g' := DropLink(g, e);
    forall x | x in g'.refCount
      ensures g'.refCount[x] == |EdgesTo(g'.edges, x)|
    {
      EdgesToRemove(g.edges, e, x);
    }
  }

  lemma DropLinkRest(g: Graph, d: Dying, held: set<nat>, o: Id, e: Edge)
    requires ListOk(g, d) && EdgesOk(g) && NodesOk(g, held)
    requires o in d && e in g.edges && e.child in g.refCount && g.refCount[e.child] > 0
    ensures ListOk(DropLink(g, e), d[o := d[o] + 1]) && EdgesOk(DropLink(g, e))
    ensures NodesOk(DropLink(g, e), held + NodeHeld(e))
  {
    hide NoRepeats;
    NodesRemove(g.edges, e);
    assert DropLink(g, e).refCount.Keys == g.refCount.Keys;
    assert d[o := d[o] + 1].Keys == d.Keys;
  }

  /** One child link of a dying object is dropped. */
  lemma DropLinkKeeps(g: Graph, d: Dying, held: set<nat>, o: Id, e: Edge)
    requires Inv(g, d, held) && o in d && o in g.children && d[o] < |g.children[o]| && e == g.children[o][d[o]]
    requires e in g.edges && e.parent == o && e.child in g.refCount && g.refCount[e.child] > 0
    ensures Inv(DropLink(g, e), d[o := d[o] + 1], held + NodeHeld(e))
  {
    hide ListOk, EdgesOk, ChildrenOk, CountsOk, NodesOk;
    DropLinkRest(g, d, held, o, e);
    DropLinkChildren(g, d, o, e);
    DropLinkCounts(g, d, o, e);
  }

  /** An allocated link is freed after its child has been dealt with. */
  lemma FreeNodeKeeps(g: Graph, g': Graph, d: Dying, held: set<nat>, ns: set<nat>)
    requires Inv(g, d, held + ns) && ns !! held
    requires g' == g.(nodes := g.nodes - ns)
    ensures Inv(g', d, held)
  {
    forall p | p in g'.children
      ensures Remaining(g', d, p) == EdgesFrom(g'.edges, p)
    {
      assert Remaining(g, d, p) == EdgesFrom(g.edges, p);
    }
  }

  function Reap(g: Graph, o: Id): Graph {
    g.(refCount := g.refCount - {o}, children := g.children - {o}, nodeUsed := g.nodeUsed - {o})
  }

  /** An object under destruction with no links left is at neither end of any link. */
  lemma Isolated(g: Graph, d: Dying, o: Id)
    requires ChildrenOk(g, d) && CountsOk(g, d)
    requires o in d && o in g.children && o in g.refCount && d[o] == |g.children[o]|
    ensures EdgesTo(g.edges, o) == {}
    ensures forall e :: e in g.edges ==> e.parent != o && e.child != o
  {
    assert |EdgesTo(g.edges, o)| == 0;
    assert Remaining(g, d, o) == EdgesFrom(g.edges, o);
    assert g.children[o][d[o]..] == [];
    assert forall e :: e in g.edges && e.parent == o ==> e in EdgesFrom(g.edges, o);
    assert forall e :: e in g.edges && e.child == o ==> e in EdgesTo(g.edges, o);
  }

  lemma ReapChildren(g: Graph, d: Dying, o: Id)
    requires ChildrenOk(g, d)
    ensures ChildrenOk(Reap(g, o), d - {o})
  {
    var g' := Reap(g, o);
    forall p | p in g'.children
      ensures Remaining(g', d - {o}, p) == EdgesFrom(g'.edges, p)
    {
      assert Remaining(g, d, p) == EdgesFrom(g.edges, p);
    }
  }

  lemma ReapRest(g: Graph, d: Dying, held: set<nat>, o: Id)
    requires ListOk(g, d) && EdgesOk(g) && CountsOk(g, d) && NodesOk(g, held) && o in d
    requires forall e :: e in g.edges ==> e.parent != o && e.child != o
    ensures var g' := Reap(g, o);
            ListOk(g', d - {o}) && EdgesOk(g') && CountsOk(g', d - {o}) && NodesOk(g', held)
  {
    hide NoRepeats, NodesOf, EdgesTo;
  }

  /** The destructor of an object all of whose links have been dropped. */
  lemma ReapKeeps(g: Graph, d: Dying, held: set<nat>, o: Id)
    requires Inv(g, d, held) && o in d && o in g.children && o in g.refCount && d[o] == |g.children[o]|
    ensures Inv(Reap(g, o), d - {o}, held)
    ensures EdgesTo(g.edges, o) == {}
  {
    hide ListOk, EdgesOk, ChildrenOk, CountsOk, NodesOk;
    Isolated(g, d, o);
    ReapChildren(g, d, o);
    ReapRest(g, d, held, o);
  }

  // ---------------------------------------------------------------------
  // Destructor runs
  // ---------------------------------------------------------------------

  /** Each object of `gone` was destructed exactly once in `log`, and had no links then. */
  ghost predicate DtorsOf(log: seq<Dtor>, gone: set<Id>) {
    && (forall i :: 0 <= i < |log| ==> log[i].links == 0 && log[i].id in gone)
    && (forall i, j :: 0 <= i < j < |log| ==> log[i].id != log[j].id)
    && (forall x :: x in gone ==> Dtor(x, 0) in log)
  }

  lemma DtorsConcat(a: seq<Dtor>, s: set<Id>, b: seq<Dtor>, t: set<Id>)
    requires DtorsOf(a, s) && DtorsOf(b, t) && s !! t
    ensures DtorsOf(a + b, s + t)
  {
    forall x | x in s + t
      ensures Dtor(x, 0) in a + b
    {
    }
  }

  /** The log grew by one destructor run for each object that disappeared. */
  ghost predicate Extends(log: seq<Dtor>, log': seq<Dtor>, keys: set<Id>, keys': set<Id>) {
    && keys' <= keys
    && log <= log'
    && DtorsOf(log'[|log|..], keys - keys')
  }

  lemma NoDtors(log: seq<Dtor>, keys: set<Id>)
    ensures Extends(log, log, keys, keys)
  {}

  lemma ExtendsTrans(a: seq<Dtor>, b: seq<Dtor>, c: seq<Dtor>, ka: set<Id>, kb: set<Id>, kc: set<Id>)
    requires Extends(a, b, ka, kb) && Extends(b, c, kb, kc)
    ensures Extends(a, c, ka, kc)
  {
    DtorsConcat(b[|a|..], ka - kb, c[|b|..], kb - kc);
    assert c[|a|..] == b[|a|..] + c[|b|..];
    assert (ka - kb) + (kb - kc) == ka - kc;
  }

  lemma ReapLogs(g: Graph, d: Dying, held: set<nat>, o: Id, log: seq<Dtor>)
    requires Inv(g, d, held) && o in d && o in g.refCount
    ensures Extends(log, log + [Dtor(o, g.refCount[o])], g.refCount.Keys, (g.refCount - {o}).Keys)
  {
    assert (log + [Dtor(o, 0)])[|log|..] == [Dtor(o, 0)];
    assert g.refCount.Keys - (g.refCount - {o}).Keys == {o};
  }

  function IdsOf(log: seq<Dtor>): (ids: seq<Id>)
    ensures |ids| == |log| && forall i :: 0 <= i < |log| ==> ids[i] == log[i].id
  {
    seq(|log|, i requires 0 <= i < |log| => log[i].id)
  }

  /** The runs added to a log were in order; `left` holds the links at each run. */
  ghost predicate Ordered(es: set<Edge>, log: seq<Dtor>, log': seq<Dtor>, left: seq<set<Edge>>, left': seq<set<Edge>>) {
    && |left| == |log| && |left'| == |log'| && log <= log' && left <= left'
    && InOrder(es, IdsOf(log'[|log|..]), left'[|left|..])
  }

  lemma OrderedNone(es: set<Edge>, log: seq<Dtor>, left: seq<set<Edge>>)
    requires |left| == |log|
    ensures Ordered(es, log, log, left, left)
  {
    InOrderNone(es);
    assert IdsOf([]) == [] && log[|log|..] == [] && left[|left|..] == [];
  }

  lemma IdsConcat(a: seq<Dtor>, b: seq<Dtor>, c: seq<Dtor>)
    requires a <= b <= c
    ensures IdsOf(c[|a|..]) == IdsOf(b[|a|..]) + IdsOf(c[|b|..])
  {
  }

  /** First one destruction and then another, both inside those of `out`. */
  lemma OrderedTrans(
      es: set<Edge>, keys: set<Id>, a: seq<Dtor>, la: seq<set<Edge>>, g1: Graph, d: Dying, held: set<nat>,
      b: seq<Dtor>, lb: seq<set<Edge>>, keys': set<Id>, c: seq<Dtor>, lc: seq<set<Edge>>, out: set<Id>)
    requires Ordered(es, a, b, la, lb) && Ordered(g1.edges, b, c, lb, lc) && Inv(g1, d, held)
    requires Extends(a, b, keys, g1.refCount.Keys) && Extends(b, c, g1.refCount.Keys, keys')
    requires LinksKept(es, g1.refCount.Keys - out, g1.edges) && g1.edges <= es && out <= keys'
    ensures Ordered(es, a, c, la, lc)
  {
    hide InOrder, LinksKept;
    var x, y := IdsOf(b[|a|..]), IdsOf(c[|b|..]);
    IdsConcat(a, b, c);
    assert lc[|la|..] == lb[|la|..] + lc[|lb|..];
    InOrderConcat(es, x, lb[|la|..], g1.edges, g1.refCount.Keys, y, lc[|lb|..], out);
  }

  /** The runs below a dropped link, for the links before it was dropped. */
  lemma OrderedMore(
      es: set<Edge>, e: Edge, log: seq<Dtor>, log': seq<Dtor>, left: seq<set<Edge>>, left': seq<set<Edge>>,
      keys: set<Id>, keys': set<Id>)
    requires Ordered(es - {e}, log, log', left, left') && Extends(log, log', keys, keys') && e.parent in keys'
    ensures Ordered(es, log, log', left, left')
  {
    hide InOrder;
    InOrderMore(es, e, IdsOf(log'[|log|..]), left'[|left|..]);
  }

  /** The last run of a destruction: of the object itself. */
  lemma OrderedReap(
      g0: Graph, d0: Dying, held0: set<nat>, log: seq<Dtor>, left: seq<set<Edge>>, g: Graph, d: Dying,
      held: set<nat>, log': seq<Dtor>, left': seq<set<Edge>>, o: Id, cut: set<Edge>)
    requires Inv(g0, d0, held0) && Inv(g, d, held) && o in d && o in g.children && d[o] == |g.children[o]|
    requires Ordered(g0.edges, log, log', left, left') && Extends(log, log', g0.refCount.Keys, g.refCount.Keys)
    requires Fallen(g0.refCount, g0.edges, g.refCount, g.edges, cut, o)
    ensures Ordered(g0.edges, log, log' + [Dtor(o, g.refCount[o])], left, left' + [g.edges])
  {
    hide InOrder, Inv, Fallen, KeepsCycles, Extends, Ran;
    var order := IdsOf(log'[|log|..]);
    DyingUnlinked(g, d, held, o);
    var more := log' + [Dtor(o, g.refCount[o])];
    ReapSettled(g0, d0, held0, log, g, d, held, log', o, cut);
    InOrderSnoc(g0.edges, order, left'[|left|..], o, g.edges);
    assert IdsOf(more[|log|..]) == order + [o];
    assert (left' + [g.edges])[|left|..] == left'[|left|..] + [g.edges];
  }

  lemma ReapSettled(
      g0: Graph, d0: Dying, held0: set<nat>, log: seq<Dtor>, g: Graph, d: Dying, held: set<nat>, log': seq<Dtor>,
      o: Id, cut: set<Edge>)
    requires Inv(g0, d0, held0) && Inv(g, d, held) && o in d && o in g.children && d[o] == |g.children[o]|
    requires Extends(log, log', g0.refCount.Keys, g.refCount.Keys)
    requires Fallen(g0.refCount, g0.edges, g.refCount, g.edges, cut, o)
    ensures log <= log' && Settled(g0.edges, IdsOf(log'[|log|..]), o, g.edges)
  {
    hide Inv, KeepsCycles, Extends, Ran, Unlinked;
    ReapedUnlinked(g, d, held, o);
    DyingUnlinked(g, d, held, o);
    ExtendsPrefix(log, log', g0.refCount.Keys, g.refCount.Keys);
    forall e | e in g.edges
      ensures e.parent != o && e.child != o
    {
      assert e.child == o ==> e in EdgesTo(g.edges, o);
    }
    forall e | e in g0.edges && e.parent == o
      ensures Ran(IdsOf(log'[|log|..]), e.child) <==> Unlinked(g.edges, e.child)
    {
      LinkCounted(g0, d0, held0, e);
      RanExactly(log, log', g0.refCount.Keys, g.refCount.Keys, e.child);
      GoneUnlinked(g, d, held, e.child);
    }
  }

  lemma ExtendsPrefix(log: seq<Dtor>, log': seq<Dtor>, keys: set<Id>, keys': set<Id>)
    requires Extends(log, log', keys, keys')
    ensures log <= log' && keys' <= keys
  {
  }

  lemma LinkCounted(g: Graph, d: Dying, held: set<nat>, e: Edge)
    requires Inv(g, d, held) && e in g.edges
    ensures e.child in g.refCount && g.refCount[e.child] > 0
  {
    assert e in EdgesTo(g.edges, e.child);
  }

  /** Those that disappeared are those whose destructor ran. */
  lemma RanExactly(log: seq<Dtor>, log': seq<Dtor>, keys: set<Id>, keys': set<Id>, x: Id)
    requires Extends(log, log', keys, keys') && x in keys
    ensures Ran(IdsOf(log'[|log|..]), x) <==> x !in keys'
  {
    var more := log'[|log|..];
    if x !in keys' {
      assert Dtor(x, 0) in more;
      var j :| 0 <= j < |more| && more[j] == Dtor(x, 0);
      assert IdsOf(more)[j] == x;
    }
  }

  /** No link leads to what is gone, and one to whatever has a count. */
  lemma GoneUnlinked(g: Graph, d: Dying, held: set<nat>, x: Id)
    requires Inv(g, d, held)
    ensures x !in g.refCount ==> Unlinked(g.edges, x)
    ensures x in g.refCount && g.refCount[x] > 0 ==> !Unlinked(g.edges, x)
  {
    if x in g.refCount && g.refCount[x] > 0 {
      assert EdgesTo(g.edges, x) != {};
      var f :| f in EdgesTo(g.edges, x);
    }
  }

  /** What is left of the links of those that are left. */
  lemma FallenLinks(rc: map<Id, nat>, es: set<Edge>, rc': map<Id, nat>, es': set<Edge>, cut: set<Edge>, o: Id)
    requires Fallen(rc, es, rc', es', cut, o) && forall e :: e in cut ==> e.parent == o
    ensures LinksKept(es, rc'.Keys - {o}, es') && es' <= es
    ensures cut == {} ==> LinksKept(es, rc'.Keys, es')
  {
  }

  /** The walk of a destruction got from the `i`-th link to the `j`-th; `log'` has its runs. */
  ghost predicate Walked(
      kids: map<Id, seq<Edge>>, es: set<Edge>, log: seq<Dtor>, es': set<Edge>, log': seq<Dtor>, o: Id, i: nat, j: nat) {
    && log <= log'
    && var rest := FallFrom(kids, es', o, j);
    FallFrom(kids, es, o, i) == Fall(rest.links, IdsOf(log'[|log|..]) + rest.order)
  }

  lemma WalkedNone(kids: map<Id, seq<Edge>>, es: set<Edge>, log: seq<Dtor>, o: Id, i: nat)
    ensures Walked(kids, es, log, es, log, o, i, i)
  {
    var rest := FallFrom(kids, es, o, i);
    assert IdsOf(log[|log|..]) == [] && [] + rest.order == rest.order;
  }

  lemma WalkedTrans(
      kids: map<Id, seq<Edge>>, es: set<Edge>, a: seq<Dtor>, es1: set<Edge>, b: seq<Dtor>, es2: set<Edge>,
      c: seq<Dtor>, o: Id, i: nat, j: nat, k: nat)
    requires Walked(kids, es, a, es1, b, o, i, j) && Walked(kids, es1, b, es2, c, o, j, k)
    ensures Walked(kids, es, a, es2, c, o, i, k)
  {
    hide FallFrom;
    IdsConcat(a, b, c);
    var rest := FallFrom(kids, es2, o, k);
    assert IdsOf(b[|a|..]) + (IdsOf(c[|b|..]) + rest.order) == IdsOf(c[|a|..]) + rest.order;
  }

  /** A destruction walked to its end, and the object's own run. */
  lemma WalkedToEnd(
      kids: map<Id, seq<Edge>>, es: set<Edge>, log: seq<Dtor>, es': set<Edge>, log': seq<Dtor>, o: Id, links: nat)
    requires o in kids && Walked(kids, es, log, es', log', o, 0, |kids[o]|)
    ensures var f := FallFrom(kids, es, o, 0);
            f.links == es' && IdsOf((log' + [Dtor(o, links)])[|log|..]) == f.order
  {
    FallEnds(kids, es', o, |kids[o]|);
    var more := log' + [Dtor(o, links)];
    assert IdsOf(more[|log|..]) == IdsOf(log'[|log|..]) + [o];
  }

  /** One link dropped, without or with what falls by it. */
  lemma WalkedOne(
      kids: map<Id, seq<Edge>>, es: set<Edge>, log: seq<Dtor>, es': set<Edge>, log': seq<Dtor>, o: Id, i: nat)
    requires o in kids && i < |kids[o]| && kids[o][i] in es && log <= log'
    requires var e := kids[o][i];
             if EdgesTo(es - {e}, e.child) != {} then es' == es - {e} && log' == log
             else var f := FallFrom(kids, es - {e}, e.child, 0); es' == f.links && IdsOf(log'[|log|..]) == f.order
    ensures Walked(kids, es, log, es', log', o, i, i + 1)
  {
    var e := kids[o][i];
    var rest := FallFrom(kids, es', o, i + 1);
    if EdgesTo(es - {e}, e.child) != {} {
      FallPast(kids, es, o, i);
      assert IdsOf(log'[|log|..]) == [] && [] + rest.order == rest.order;
    } else {
      FallInto(kids, es, o, i);
    }
  }

  lemma AgreeAt(g: Graph, kids: map<Id, seq<Edge>>, o: Id)
    requires ListsAgree(g, kids) && o in g.children
    ensures o in kids && kids[o] == g.children[o]
  {
  }

  lemma OrderedLengths(es: set<Edge>, log: seq<Dtor>, log': seq<Dtor>, left: seq<set<Edge>>, left': seq<set<Edge>>)
    requires Ordered(es, log, log', left, left')
    ensures |log'| == |left'|
  {
  }

  /** The lists of links are those of `kids` for every object that is still there. */
  ghost predicate ListsAgree(g: Graph, kids: map<Id, seq<Edge>>) {
    forall p :: p in g.children ==> p in kids && kids[p] == g.children[p]
  }

  lemma ListsStay(g: Graph, g': Graph, kids: map<Id, seq<Edge>>)
    requires ListsAgree(g, kids) && (Shrunk(g, g') || g'.children == g.children)
    ensures ListsAgree(g', kids)
  {
  }

  lemma LastLink(g: Graph, d: Dying, held: set<nat>, x: Id)
    requires Inv(g, d, held) && x in g.refCount
    ensures g.refCount[x] == 0 <==> EdgesTo(g.edges, x) == {}
  {
  }

  /** `g'` has lost some objects and links; what is left is as before. */
  ghost predicate Shrunk(g: Graph, g': Graph) {
    && g'.refCount.Keys <= g.refCount.Keys
    && g'.children.Keys <= g.children.Keys
    && (forall p :: p in g'.children && p in g.children ==> g'.children[p] == g.children[p])
    && g'.edges <= g.edges
  }

  lemma ShrunkSame(g: Graph, g': Graph)
    requires g'.refCount == g.refCount && g'.children == g.children && g'.edges == g.edges
    ensures Shrunk(g, g')
  {}

  lemma ShrunkByDrop(g: Graph, e: Edge)
    requires e.child in g.refCount && g.refCount[e.child] > 0
    ensures Shrunk(g, DropLink(g, e))
  {}

  lemma ShrunkByReap(g: Graph, o: Id)
    ensures Shrunk(g, Reap(g, o))
  {}

  lemma ShrunkTrans(a: Graph, b: Graph, c: Graph)
    requires Shrunk(a, b)
    requires Shrunk(b, c) || (c.refCount == b.refCount && c.children == b.children && c.edges == b.edges)
    ensures Shrunk(a, c)
  {}

  lemma ShrunkChildren(g: Graph, g': Graph, o: Id)
    requires (Shrunk(g, g') || g' == g) && o in g'.children && o in g.children
    ensures g'.children[o] == g.children[o]
  {}

  lemma StoredNow(g: Graph, e: Edge, stored: bool)
    requires Stored(g, e) && stored == if e.kind == Embedded then e.child in g.refCount else e.node in g.nodes
    ensures stored
  {}

  // ---------------------------------------------------------------------
  // What falls with an object
  // ---------------------------------------------------------------------

  /**
    Counts and links before and after a destruction below `o` that dropped the
    links `cut`: only objects that `o` reaches are gone, no object has lost all
    its parents and is still there, exactly the links of the objects that are
    gone were dropped besides, and none of those that support each other.
  */
  ghost predicate Fallen(rc: map<Id, nat>, es: set<Edge>, rc': map<Id, nat>, es': set<Edge>, cut: set<Edge>, o: Id) {
    && rc'.Keys <= rc.Keys
    && (forall x :: x in rc && x !in rc' ==> Reaches(es, o, x))
    && (forall x :: x in rc' && x in rc && rc[x] > 0 ==> rc'[x] > 0)
    && (forall e :: e in es' <==> e in es && e !in cut && e.parent in rc')
    && KeepsCycles(es, es')
  }

  lemma FallenNothing(g: Graph, d: Dying, held: set<nat>, o: Id)
    requires Inv(g, d, held)
    ensures Fallen(g.refCount, g.edges, g.refCount, g.edges, {}, o)
  {
  }

  lemma FallenTrans(rc: map<Id, nat>, es: set<Edge>, rc1: map<Id, nat>, es1: set<Edge>, cut: set<Edge>,
                    rc2: map<Id, nat>, es2: set<Edge>, cut1: set<Edge>, o: Id)
    requires Fallen(rc, es, rc1, es1, cut, o) && Fallen(rc1, es1, rc2, es2, cut1, o)
    ensures Fallen(rc, es, rc2, es2, cut + cut1, o)
  {
    hide Reaches, KeepsCycles;
    KeepsCyclesTrans(es, es1, es2);
    assert es1 <= es;
    forall x | x in rc && x !in rc2
      ensures Reaches(es, o, x)
    {
      if x in rc1 {
        ReachesMore(es1, es, o, x);
      }
    }
  }

  lemma DyingUnlinked(g: Graph, d: Dying, held: set<nat>, o: Id)
    requires Inv(g, d, held) && o in d
    ensures o in g.refCount && EdgesTo(g.edges, o) == {}
    ensures forall e :: e in g.edges ==> e.parent in g.refCount
  {
  }

  /** A link to an object that keeps another parent. */
  lemma FallenDropped(g: Graph, d: Dying, held: set<nat>, e: Edge)
    requires Inv(g, d, held) && e.parent in d
    requires e.child in g.refCount && g.refCount[e.child] > 1
    ensures Fallen(g.refCount, g.edges, DropLink(g, e).refCount, DropLink(g, e).edges, {e}, e.parent)
  {
    hide KeepsCycles, Inv, EdgesTo;
    DyingUnlinked(g, d, held, e.parent);
    DropKeepsCycles(g.edges, e);
  }

  /** The last link to an object, which then falls itself. */
  lemma FallenBelow(g: Graph, d: Dying, held: set<nat>, e: Edge, rc: map<Id, nat>, es: set<Edge>)
    requires Inv(g, d, held) && e.parent in d && e in g.edges
    requires e.child in g.refCount && g.refCount[e.child] == 1 && e.child !in rc
    requires Fallen(DropLink(g, e).refCount, DropLink(g, e).edges, rc, es, {}, e.child)
    ensures Fallen(g.refCount, g.edges, rc, es, {e}, e.parent)
  {
    hide Reaches, KeepsCycles, Inv, EdgesTo;
    DyingUnlinked(g, d, held, e.parent);
    DropKeepsCycles(g.edges, e);
    KeepsCyclesTrans(g.edges, g.edges - {e}, es);
    forall x | x in g.refCount && x !in rc
      ensures Reaches(g.edges, e.parent, x)
    {
      ReachesMore(g.edges - {e}, g.edges, e.child, x);
      ReachesFirst(g.edges, e, x);
    }
  }

  lemma ReapedUnlinked(g: Graph, d: Dying, held: set<nat>, o: Id)
    requires Inv(g, d, held) && o in d && o in g.children && d[o] == |g.children[o]|
    ensures forall e :: e in g.edges ==> e.parent != o
  {
    Isolated(g, d, o);
  }

  /** The destructor of an object whose links have all been dropped. */
  lemma FallenReaped(g: Graph, d: Dying, held: set<nat>, o: Id, rc: map<Id, nat>, es: set<Edge>, cut: set<Edge>)
    requires Inv(g, d, held) && o in d && o in g.children && d[o] == |g.children[o]| && o in rc
    requires Fallen(rc, es, g.refCount, g.edges, cut, o) && forall e :: e in cut ==> e.parent == o
    ensures Fallen(rc, es, g.refCount - {o}, g.edges, {}, o)
  {
    hide Reaches, KeepsCycles, Inv;
    ReapedUnlinked(g, d, held, o);
    ReachesSelf(es, o);
  }

  lemma FallenKeeps(rc: map<Id, nat>, es: set<Edge>, rc': map<Id, nat>, es': set<Edge>, cut: set<Edge>, o: Id)
    requires Fallen(rc, es, rc', es', cut, o)
    ensures KeepsCycles(es, es') && es' <= es
  {
  }

  /** A path from links that support each other leads to `x`. */
  ghost predicate BelowCycle(es: set<Edge>, x: Id) {
    exists ks :: ks <= es && SelfSupporting(ks) && BelowLinks(es, ks, x)
  }

  ghost predicate BelowLinks(es: set<Edge>, ks: set<Edge>, x: Id) {
    exists e :: e in ks && Reaches(es, e.child, x)
  }

  ghost predicate BelowOtherRoot(g: Graph, o: Id, x: Id) {
    exists r :: r in g.refCount && g.refCount[r] == 0 && r != o && Reaches(g.edges, r, x)
  }

  /** The objects that are left are closed under the links there were. */
  lemma SurvivorsClosed(g: Graph, g': Graph, o: Id, y: Id, x: Id)
    requires Inv(g', map[], {}) && Fallen(g.refCount, g.edges, g'.refCount, g'.edges, {}, o)
    requires y in g'.refCount && Reaches(g.edges, y, x)
    ensures x in g'.refCount
  {
    hide Reaches, KeepsCycles;
    ReachesInside(g.edges, g'.refCount.Keys, y, x);
  }

  lemma OtherRootSurvives(g: Graph, g': Graph, o: Id, r: Id)
    requires Inv(g, map[], {}) && Fallen(g.refCount, g.edges, g'.refCount, g'.edges, {}, o)
    requires r in g.refCount && g.refCount[r] == 0 && r != o
    ensures r in g'.refCount
  {
    hide Reaches, KeepsCycles;
    if r !in g'.refCount {
      ReachedHasParent(g.edges, o, r);
    }
  }

  lemma ParentLink(g: Graph, y: Id) returns (f: Edge)
    requires Inv(g, map[], {}) && y in g.refCount && g.refCount[y] > 0
    ensures f in g.edges && f.child == y && f.parent in g.refCount
  {
    assert EdgesTo(g.edges, y) != {};
    f :| f in EdgesTo(g.edges, y);
  }

  /** Whatever is left hangs below something without parents, or below a cycle. */
  lemma SurvivorsSupported(g: Graph, x: Id)
    requires Inv(g, map[], {}) && x in g.refCount
    ensures BelowCycle(g.edges, x) || exists y :: y in g.refCount && g.refCount[y] == 0 && Reaches(g.edges, y, x)
  {
    hide Reaches, Inv, SelfSupporting;
    var above := set y | y in g.refCount && Reaches(g.edges, y, x);
    ReachesSelf(g.edges, x);
    if forall y :: y in above ==> g.refCount[y] > 0 {
      forall y | y in above
        ensures HasParentIn(g.edges, above, y)
      {
        var f := ParentLink(g, y);
        ReachesFirst(g.edges, f, x);
        assert f in Inside(g.edges, above);
      }
      InsideSupports(g.edges, above);
      assert HasParentIn(g.edges, above, x);
      assert BelowLinks(g.edges, Inside(g.edges, above), x);
    }
  }

  /**
    Exactly what a destruction of `o` leaves: the objects below another object
    without parents, and those below a cycle.
  */
  lemma FallsExactly(g: Graph, g': Graph, o: Id, x: Id)
    requires Inv(g, map[], {}) && Inv(g', map[], {}) && x in g.refCount
    requires o !in g'.refCount && Fallen(g.refCount, g.edges, g'.refCount, g'.edges, {}, o)
    ensures x in g'.refCount <==> BelowOtherRoot(g, o, x) || BelowCycle(g.edges, x)
  {
    hide Reaches, Inv, SelfSupporting;
    FallenKeeps(g.refCount, g.edges, g'.refCount, g'.edges, {}, o);
    if BelowOtherRoot(g, o, x) {
      var r :| r in g.refCount && g.refCount[r] == 0 && r != o && Reaches(g.edges, r, x);
      OtherRootSurvives(g, g', o, r);
      SurvivorsClosed(g, g', o, r, x);
    }
    if BelowCycle(g.edges, x) {
      var ks :| ks <= g.edges && SelfSupporting(ks) && BelowLinks(g.edges, ks, x);
      var e :| e in ks && Reaches(g.edges, e.child, x);
      LinkEnds(g', e);
      SurvivorsClosed(g, g', o, e.child, x);
    }
    if x in g'.refCount {
      SurvivorsSupported(g', x);
      StillSupported(g, g', o, x);
    }
  }

  lemma LinkEnds(g: Graph, e: Edge)
    requires Inv(g, map[], {}) && e in g.edges
    ensures e.parent in g.refCount && e.child in g.refCount
  {
  }

  /** What supports an object afterwards supported it before. */
  lemma StillSupported(g: Graph, g': Graph, o: Id, x: Id)
    requires o !in g'.refCount && Fallen(g.refCount, g.edges, g'.refCount, g'.edges, {}, o)
    requires BelowCycle(g'.edges, x)
             || exists y :: y in g'.refCount && g'.refCount[y] == 0 && Reaches(g'.edges, y, x)
    ensures BelowOtherRoot(g, o, x) || BelowCycle(g.edges, x)
  {
    hide Reaches, SelfSupporting, KeepsCycles;
    assert g'.edges <= g.edges;
    if BelowCycle(g'.edges, x) {
      var ks :| ks <= g'.edges && SelfSupporting(ks) && BelowLinks(g'.edges, ks, x);
      var e :| e in ks && Reaches(g'.edges, e.child, x);
      ReachesMore(g'.edges, g.edges, e.child, x);
      assert ks <= g.edges;
    } else {
      var y :| y in g'.refCount && g'.refCount[y] == 0 && Reaches(g'.edges, y, x);
      ReachesMore(g'.edges, g.edges, y, x);
      assert y in g.refCount && g.refCount[y] == 0 && y != o;
    }
  }

  lemma ListFacts(g: Graph, d: Dying, held: set<nat>, o: Id)
    requires Inv(g, d, held) && o in g.list
    ensures o in g.refCount && o in g.children && o !in d
  {}

  lemma WithoutShorter(g: Graph, d: Dying, held: set<nat>, o: Id)
    requires Inv(g, d, held) && o in g.list
    ensures |Without(g.list, o)| < |g.list|
  {
    WithoutElements(g.list, o);
  }

  lemma ChildListed(g: Graph, d: Dying, held: set<nat>, x: Id)
    requires Inv(g, d, held) && x in g.refCount && x !in d
    ensures x in g.list
  {}

  lemma DyingStays(g: Graph, d: Dying, held: set<nat>, o: Id)
    requires Inv(g, d, held) && o in d
    ensures o in g.refCount && o in g.children && o !in g.list
  {}

  // ---------------------------------------------------------------------
  // Building the graph
  // ---------------------------------------------------------------------

  lemma KeysAgree(g: Graph, d: Dying, held: set<nat>)
    requires Inv(g, d, held)
    ensures g.children.Keys == g.refCount.Keys == g.nodeUsed.Keys
  {}

  function WithObject(g: Graph, o: Id): Graph {
    g.(list := g.list + [o], refCount := g.refCount[o := 0], children := g.children[o := []],
       nodeUsed := g.nodeUsed[o := false])
  }

  lemma AddLists(g: Graph, o: Id)
    requires ListOk(g, map[]) && o !in g.refCount
    ensures ListOk(WithObject(g, o), map[])
  {}

  lemma AddRest(g: Graph, o: Id)
    requires EdgesOk(g) && ChildrenOk(g, map[]) && CountsOk(g, map[]) && o !in g.refCount
    ensures EdgesOk(WithObject(g, o)) && ChildrenOk(WithObject(g, o), map[]) && CountsOk(WithObject(g, o), map[])
  {
    var g' := WithObject(g, o);
    assert EdgesTo(g.edges, o) == {} && EdgesFrom(g.edges, o) == {};
    forall p | p in g'.children
      ensures Remaining(g', map[], p) == EdgesFrom(g.edges, p)
    {
      if p != o {
        assert Remaining(g, map[], p) == EdgesFrom(g.edges, p);
      }
    }
  }

  lemma AddKeeps(g: Graph, o: Id)
    requires Inv(g, map[], {}) && o !in g.refCount
    ensures Inv(WithObject(g, o), map[], {})
  {
    hide ListOk, EdgesOk, ChildrenOk, CountsOk;
    AddLists(g, o);
    AddRest(g, o);
  }

  /** The graph with one more link at the end of its parent's list. */
  function WithEdge(g: Graph, e: Edge): Graph
    requires e.parent in g.children && e.child in g.refCount
  {
    Graph(g.list, g.refCount[e.child := (g.refCount[e.child] + 1) % REF_MODULUS],
          g.children[e.parent := g.children[e.parent] + [e]],
          if e.kind == Embedded then g.nodeUsed[e.child := true] else g.nodeUsed,
          g.nodes + NodeHeld(e), g.edges + {e})
  }

  lemma AttachChildren(g: Graph, e: Edge)
    requires ChildrenOk(g, map[]) && e !in g.edges && e.parent in g.children && e.child in g.refCount
    ensures ChildrenOk(WithEdge(g, e), map[])
  {
    var g' := WithEdge(g, e);
    forall p | p in g'.children
      ensures NoRepeats(g'.children[p]) && Remaining(g', map[], p) == EdgesFrom(g'.edges, p)
    {
      assert Remaining(g, map[], p) == EdgesFrom(g.edges, p);
      if p == e.parent {
        assert EdgesFrom(g'.edges, p) == EdgesFrom(g.edges, p) + {e};
        forall i | 0 <= i < |g.children[p]|
          ensures g.children[p][i] != e
        {
          assert g.children[p][i] in Remaining(g, map[], p);
        }
      } else {
        assert EdgesFrom(g'.edges, p) == EdgesFrom(g.edges, p);
      }
    }
  }

  lemma AttachCounts(g: Graph, e: Edge)
    requires CountsOk(g, map[]) && e !in g.edges && e.parent in g.children && e.child in g.refCount
    ensures CountsOk(WithEdge(g, e), map[]) <==> g.refCount[e.child] + 1 < REF_MODULUS
    ensures |EdgesTo(WithEdge(g, e).edges, e.child)| == |EdgesTo(g.edges, e.child)| + 1
  {
    var g' := WithEdge(g, e);
    forall x | x in g.refCount
      ensures |EdgesTo(g'.edges, x)| == g.refCount[x] + (if x == e.child then 1 else 0)
    {
      EdgesToAdd(g.edges, e, x);
    }
    if g.refCount[e.child] + 1 >= REF_MODULUS {
      assert g'.refCount[e.child] != |EdgesTo(g'.edges, e.child)|;
    }
  }

  lemma AttachNodes(g: Graph, e: Edge)
    requires NodesOk(g, {}) && e.parent in g.children && e.child in g.refCount
    ensures NodesOk(WithEdge(g, e), {})
  {
    var g' := WithEdge(g, e);
    if e.kind == Allocated {
      assert e in g'.edges && e.node in NodesOf(g'.edges);
    }
    forall n | n in NodesOf(g.edges)
      ensures n in NodesOf(g'.edges)
    {
      var f :| f in g.edges && f.kind == Allocated && f.node == n;
      assert f in g'.edges;
    }
    assert NodesOf(g'.edges) == NodesOf(g.edges) + NodeHeld(e);
  }

  lemma AttachEdges(g: Graph, e: Edge)
    requires EdgesOk(g) && NodesOk(g, {}) && e.parent in g.children && e.child in g.refCount && e.parent in g.refCount
    requires e.child in g.nodeUsed
    requires if e.kind == Embedded then !g.nodeUsed[e.child] else e.node !in g.nodes
    ensures e !in g.edges && EdgesOk(WithEdge(g, e))
  {
    forall f | f in g.edges && f.kind == e.kind
      ensures if e.kind == Embedded then f.child != e.child else f.node != e.node
    {
      if e.kind == Allocated {
        assert f.node in NodesOf(g.edges);
      }
    }
  }

  lemma AttachRest(g: Graph, e: Edge)
    requires ListOk(g, map[]) && EdgesOk(g) && NodesOk(g, {}) && e.parent in g.children && e.child in g.refCount
    requires if e.kind == Embedded then !g.nodeUsed[e.child] else e.node !in g.nodes
    ensures e !in g.edges
    ensures ListOk(WithEdge(g, e), map[]) && EdgesOk(WithEdge(g, e)) && NodesOk(WithEdge(g, e), {})
  {
    hide NoRepeats, EdgesOk, NodesOk;
    var g' := WithEdge(g, e);
    AttachNodes(g, e);
    AttachEdges(g, e);
    assert g'.refCount.Keys == g.refCount.Keys && g'.children.Keys == g.children.Keys;
  }

  lemma AttachKeeps(g: Graph, e: Edge)
    requires Inv(g, map[], {}) && e.parent in g.children && e.child in g.refCount
    requires if e.kind == Embedded then !g.nodeUsed[e.child] else e.node !in g.nodes
    ensures e !in g.edges
    ensures Inv(WithEdge(g, e), map[], {}) <==> g.refCount[e.child] + 1 < REF_MODULUS
    ensures |EdgesTo(WithEdge(g, e).edges, e.child)| == |EdgesTo(g.edges, e.child)| + 1
  {
    hide EdgesOk, ChildrenOk, CountsOk, NodesOk, NoRepeats;
    AttachRest(g, e);
    AttachChildren(g, e);
    AttachCounts(g, e);
  }

  /** The graph without the `k`-th link of `p`. */
  function WithoutEdge(g: Graph, p: Id, k: nat): Graph
    requires p in g.children && k < |g.children[p]|
    requires g.children[p][k].child in g.refCount && g.refCount[g.children[p][k].child] > 0
  {
    var e := g.children[p][k];
    Graph(g.list, g.refCount[e.child := g.refCount[e.child] - 1],
          g.children[p := g.children[p][..k] + g.children[p][k + 1..]],
          if e.kind == Embedded then g.nodeUsed[e.child := false] else g.nodeUsed,
          g.nodes - NodeHeld(e), g.edges - {e})
  }

  /** In a quiet graph every listed link is a link of the graph. */
  lemma ListedLink(g: Graph, p: Id, k: nat)
    requires Inv(g, map[], {}) && p in g.children && k < |g.children[p]|
    ensures var e := g.children[p][k];
            e in g.edges && e.parent == p && e.child in g.refCount && g.refCount[e.child] > 0
  {
    var e := g.children[p][k];
    assert Remaining(g, map[], p) == EdgesFrom(g.edges, p);
    assert e in Elements(g.children[p]);
    assert e in EdgesTo(g.edges, e.child);
  }

  lemma DetachChildren(g: Graph, p: Id, k: nat)
    requires ChildrenOk(g, map[]) && p in g.children && k < |g.children[p]|
    requires g.children[p][k].child in g.refCount && g.refCount[g.children[p][k].child] > 0
    requires g.children[p][k].parent == p
    ensures ChildrenOk(WithoutEdge(g, p, k), map[])
  {
    var g' := WithoutEdge(g, p, k);
    var e := g.children[p][k];
    forall q | q in g'.children
      ensures NoRepeats(g'.children[q]) && Remaining(g', map[], q) == EdgesFrom(g'.edges, q)
    {
      assert Remaining(g, map[], q) == EdgesFrom(g.edges, q);
      if q == p {
        assert EdgesFrom(g'.edges, q) == EdgesFrom(g.edges, q) - {e};
        RemoveAt(g.children[q], k);
      } else {
        assert EdgesFrom(g'.edges, q) == EdgesFrom(g.edges, q);
      }
    }
  }

  lemma RemoveAt(s: seq<Edge>, k: nat)
    requires k < |s| && NoRepeats(s)
    ensures NoRepeats(s[..k] + s[k + 1..])
    ensures Elements(s[..k] + s[k + 1..]) == Elements(s) - {s[k]}
  {
    assert s == s[..k] + [s[k]] + s[k + 1..];
    forall x | x in s[..k] + s[k + 1..]
      ensures x in s && x != s[k]
    {
    }
    forall x | x in s && x != s[k]
      ensures x in s[..k] + s[k + 1..]
    {
    }
  }

  lemma DetachKeeps(g: Graph, p: Id, k: nat)
    requires Inv(g, map[], {}) && p in g.children && k < |g.children[p]|
    ensures var e := g.children[p][k];
            e in g.edges && e.parent == p && e.child in g.refCount && g.refCount[e.child] > 0
    ensures Inv(WithoutEdge(g, p, k), map[], {})
  {
    hide ListOk, EdgesOk, ChildrenOk, CountsOk, NodesOk;
    ListedLink(g, p, k);
    DetachChildren(g, p, k);
    DetachCounts(g, p, k);
    DetachRest(g, p, k);
  }

  lemma DetachCounts(g: Graph, p: Id, k: nat)
    requires CountsOk(g, map[]) && p in g.children && k < |g.children[p]| && g.children[p][k] in g.edges
    requires g.children[p][k].child in g.refCount && g.refCount[g.children[p][k].child] > 0
    ensures CountsOk(WithoutEdge(g, p, k), map[])
  {
    var g' := WithoutEdge(g, p, k);
    forall x | x in g'.refCount
      ensures g'.refCount[x] == |EdgesTo(g'.edges, x)|
    {
      EdgesToRemove(g.edges, g.children[p][k], x);
    }
  }

  lemma DetachRest(g: Graph, p: Id, k: nat)
    requires ListOk(g, map[]) && EdgesOk(g) && NodesOk(g, {}) && p in g.children && k < |g.children[p]|
    requires g.children[p][k] in g.edges
    requires g.children[p][k].child in g.refCount && g.refCount[g.children[p][k].child] > 0
    ensures var g' := WithoutEdge(g, p, k);
            ListOk(g', map[]) && EdgesOk(g') && NodesOk(g', {})
  {
    hide NoRepeats;
    var g' := WithoutEdge(g, p, k);
    NodesRemove(g.edges, g.children[p][k]);
    assert g'.refCount.Keys == g.refCount.Keys && g'.children.Keys == g.children.Keys;
  }

  /** What a call to detach an object comes to. */
  datatype Detachment = Detached | Asserted | Corrupted

  /** A count that is lowered without removing a link is no longer the number of links. */
  lemma CountLost(g: Graph, g': Graph, o: Id)
    requires Inv(g, map[], {}) && o in g.refCount && g.refCount[o] > 0
    requires g'.edges == g.edges && g'.refCount == g.refCount[o := g.refCount[o] - 1]
    ensures |EdgesTo(g'.edges, o)| == g'.refCount[o] + 1 && !Inv(g', map[], {})
  {
  }

  /** The first link to `o` in a list. */
  predicate FirstLink(kids: seq<Edge>, o: Id, k: nat) {
    k < |kids| && kids[k].child == o && forall j :: 0 <= j < k ==> kids[j].child != o
  }

  function Removed(kids: seq<Edge>, k: nat): seq<Edge>
    requires k < |kids|
  {
    kids[..k] + kids[k + 1..]
  }

  ghost predicate HasChild(kids: seq<Edge>, o: Id) {
    exists k :: 0 <= k < |kids| && kids[k].child == o
  }

  // ---------------------------------------------------------------------
  // An acyclic graph always has a root
  // ---------------------------------------------------------------------

  ghost function RankOf(rank: map<Id, nat>, x: Id): nat {
    if x in rank then rank[x] else 0
  }

  lemma {:induction false} HighestRank(keys: set<Id>, rank: map<Id, nat>) returns (x: Id)
    requires keys != {}
    ensures x in keys && forall y :: y in keys ==> RankOf(rank, y) <= RankOf(rank, x)
  {
    x :| x in keys;
    if keys != {x} {
      var y := HighestRank(keys - {x}, rank);
      assert forall z :: z in keys ==> z == x || z in keys - {x};
      if RankOf(rank, x) < RankOf(rank, y) {
        x := y;
      }
    }
  }

  lemma RootExists(g: Graph) returns (x: Id)
    requires Inv(g, map[], {}) && Acyclic(g.edges) && g.refCount.Keys != {}
    ensures x in g.refCount && g.refCount[x] == 0
  {
    var rank: map<Id, nat> :| Ranks(rank, g.edges);
    x := HighestRank(g.refCount.Keys, rank);
    forall e | e in g.edges
      ensures e.child != x
    {
      assert RankOf(rank, e.child) < RankOf(rank, e.parent) <= RankOf(rank, x);
    }
    assert EdgesTo(g.edges, x) == {};
  }

  ghost predicate NoRoots(g: Graph) {
    forall x :: x in g.refCount ==> g.refCount[x] > 0
  }

  /** An acyclic graph with objects has one without parents. */
  lemma RootOnList(g: Graph)
    requires Inv(g, map[], {}) && Acyclic(g.edges) && |g.list| > 0
    ensures !NoRoots(g)
  {
    assert g.list[0] in g.refCount;
    var x := RootExists(g);
  }

  lemma AllHaveParents(g: Graph)
    requires Inv(g, map[], {}) && forall k :: 0 <= k < |g.list| ==> g.list[k] in g.refCount && g.refCount[g.list[k]] > 0
    ensures NoRoots(g)
  {
    forall x | x in g.refCount
      ensures g.refCount[x] > 0
    {
      assert x in g.list;
    }
  }

  lemma NothingDropped(es: set<Edge>)
    ensures KeepsCycles(es, es)
  {
  }

  /** The links of a cycle keep their objects on the list. */
  lemma CyclesStay(es: set<Edge>, g: Graph)
    requires Inv(g, map[], {}) && KeepsCycles(es, g.edges)
    ensures !Acyclic(es) ==> g.list != []
  {
    hide Inv, SelfSupporting, Acyclic;
    AcyclicExact(es);
    if !Acyclic(es) {
      var ks :| ks <= es && ks != {} && SelfSupporting(ks);
      var e :| e in ks;
      LinkEnds(g, e);
      ChildListed(g, map[], {}, e.parent);
    }
  }

  lemma ShrunkAcyclic(g: Graph, g': Graph)
    requires Shrunk(g, g') && Acyclic(g.edges)
    ensures Acyclic(g'.edges)
  {
    var rank: map<Id, nat> :| Ranks(rank, g.edges);
    assert Ranks(rank, g'.edges);
  }

  /** The first object of the list that has no parents. */
  predicate FirstRoot(list: seq<Id>, refCount: map<Id, nat>, k: nat) {
    && k < |list| && list[k] in refCount && refCount[list[k]] == 0
    && forall j :: 0 <= j < k ==> list[j] in refCount && refCount[list[j]] > 0
  }

  lemma AllKept(es: set<Edge>, keys: set<Id>)
    ensures LinksKept(es, keys, es)
  {
  }

  /** One more pass keeps the order. */
  lemma PassOrdered(
      es: set<Edge>, keys: set<Id>, a: seq<Dtor>, la: seq<set<Edge>>, g1: Graph, b: seq<Dtor>, lb: seq<set<Edge>>,
      g2: Graph, c: seq<Dtor>, lc: seq<set<Edge>>)
    requires Ordered(es, a, b, la, lb) && Ordered(g1.edges, b, c, lb, lc) && Inv(g1, map[], {}) && Shrunk(g1, g2)
    requires Extends(a, b, keys, g1.refCount.Keys) && Extends(b, c, g1.refCount.Keys, g2.refCount.Keys)
    requires LinksKept(es, g1.refCount.Keys, g1.edges) && g1.edges <= es
    requires LinksKept(g1.edges, g2.refCount.Keys, g2.edges)
    ensures Ordered(es, a, c, la, lc) && |lc| == |c|
    ensures LinksKept(es, g2.refCount.Keys, g2.edges) && g2.edges <= es
  {
    hide Ordered, Inv, Extends;
    assert g1.refCount.Keys - {} == g1.refCount.Keys;
    OrderedTrans(es, keys, a, la, g1, map[], {}, b, lb, g2.refCount.Keys, c, lc, {});
    OrderedLengths(es, a, c, la, lc);
  }

  lemma EmptyGraph(g: Graph)
    requires Inv(g, map[], {}) && g.list == []
    ensures g.refCount == map[] && g.refCount.Keys == {} && g.edges == {} && g.nodes == {}
  {
    assert forall x :: x !in g.refCount;
    assert forall e :: e !in g.edges;
    assert g.edges == {};
  }

  class Subsystem {
    var list: seq<Id>
    var refCount: map<Id, nat>
    var children: map<Id, seq<Edge>>
    var nodeUsed: map<Id, bool>
    var nodes: set<nat>
    ghost var edges: set<Edge>

    /** Destructor runs so far, and whether memory was ever used that holds no link. */
    var destroyed: seq<Dtor>
    var fault: bool

    /** The links that were there at each of those runs. */
    ghost var left: seq<set<Edge>>

    ghost function G(): Graph
      reads this
    {
      Graph(list, refCount, children, nodeUsed, nodes, edges)
    }

    ghost predicate Valid()
      reads this
    {
      Inv(G(), map[], {}) && |left| == |destroyed|
    }

    /**
      Destroys `o` unless it still has parents; `d` and `held` describe the callers'
      frames, and `kids` holds the lists of links as they were at first.
    */
    method Destroy(o: Id, ghost d: Dying, ghost held: set<nat>, ghost kids: map<Id, seq<Edge>>) returns (ret: int)
      requires Inv(G(), d, held) && o in list && |left| == |destroyed| && ListsAgree(G(), kids)
      modifies this
      ensures Inv(G(), d, held)
      ensures o in old(refCount) && ret == if old(refCount)[o] > 0 then 1 else 0
      ensures ret == 1 ==> G() == old(G()) && destroyed == old(destroyed) && left == old(left)
      ensures ret == 0 ==> o !in refCount && |list| < old(|list|)
      ensures Shrunk(old(G()), G()) && fault == old(fault)
      ensures Extends(old(destroyed), destroyed, old(refCount).Keys, refCount.Keys)
      ensures ret == 0 ==> Fallen(old(refCount), old(edges), refCount, edges, {}, o)
      ensures Ordered(old(edges), old(destroyed), destroyed, old(left), left)
      ensures ret == 0 ==> destroyed != [] && destroyed[|destroyed| - 1].id == o
      ensures ret == 0 ==>
                var f := FallFrom(kids, old(edges), o, 0);
                old(destroyed) <= destroyed && edges == f.links && IdsOf(destroyed[|old(destroyed)|..]) == f.order
      decreases |list|, 0
    {
      hide Inv, Extends, Shrunk, Without, Stored, Fallen, Ordered, Walked, FallFrom, ListsAgree;
      ListFacts(G(), d, held, o);
      FallenNothing(G(), d, held, o);
      NoDtors(destroyed, refCount.Keys);
      OrderedNone(edges, destroyed, left);
      ShrunkSame(G(), G().(list := Without(list, o)));
      ShrunkSame(G(), G());
      if refCount[o] > 0 {
        ret := 1;
        return;
      }
      ret := 0;
      UnlistKeeps(G(), G().(list := Without(list, o)), d, held, o);
      WithoutShorter(G(), d, held, o);
      ListsStay(G(), G().(list := Without(list, o)), kids);
      WalkedNone(kids, edges, destroyed, o, 0);
      list := Without(list, o);
      ghost var g1 := G();
      ghost var cut := DropChildren(o, d, held, kids);
      ShrunkTrans(old(G()), g1, G());
      EndDestruction(o, d, held, kids, old(G()), old(destroyed), old(left), cut);
    }

    /** The loop over the child links of an object that has just left the list. */
    method DropChildren(o: Id, ghost d: Dying, ghost held: set<nat>, ghost all: map<Id, seq<Edge>>)
        returns (ghost cut: set<Edge>)
      requires Inv(G(), d[o := 0], held) && o in children && o in refCount && o !in d
      requires |left| == |destroyed| && ListsAgree(G(), all)
      modifies this
      ensures o in refCount && o in children && children[o] == old(children)[o]
      ensures Inv(G(), d[o := |children[o]|], held) && |list| <= old(|list|)
      ensures Shrunk(old(G()), G()) && fault == old(fault)
      ensures Extends(old(destroyed), destroyed, old(refCount).Keys, refCount.Keys)
      ensures Fallen(old(refCount), old(edges), refCount, edges, cut, o) && forall e :: e in cut ==> e.parent == o
      ensures Ordered(old(edges), old(destroyed), destroyed, old(left), left)
      ensures Walked(all, old(edges), old(destroyed), edges, destroyed, o, 0, |children[o]|)
      decreases |list|, 2
    {
      hide Inv, Extends, Shrunk, Without, Stored, Fallen, Ordered, Walked, FallFrom, ListsAgree, LinksKept;
      FallenNothing(G(), d[o := 0], held, o);
      NoDtors(destroyed, refCount.Keys);
      OrderedNone(edges, destroyed, left);
      WalkedNone(all, edges, destroyed, o, 0);
      ShrunkSame(G(), G());
      var kids := children[o];
      var i := 0;
      cut := {};
      while i < |kids|
        invariant i <= |kids|
        invariant Fallen(old(refCount), old(edges), refCount, edges, cut, o) && forall e :: e in cut ==> e.parent == o
        invariant Inv(G(), d[o := i], held) && |list| <= old(|list|)
        invariant o in refCount && o in children && children[o] == kids && ListsAgree(G(), all)
        invariant Shrunk(old(G()), G()) && fault == old(fault)
        invariant Extends(old(destroyed), destroyed, old(refCount).Keys, refCount.Keys)
        invariant Ordered(old(edges), old(destroyed), destroyed, old(left), left)
        invariant Walked(all, old(edges), old(destroyed), edges, destroyed, o, 0, i)
      {
        ghost var log1, keys1, g1, left1 := destroyed, refCount.Keys, G(), left;
        OrderedLengths(old(edges), old(destroyed), destroyed, old(left), left);
        FallenLinks(old(refCount), old(edges), refCount, edges, cut, o);
        DropChild(o, kids, i, d[o := i], held, all);
        OrderedTrans(old(edges), old(refCount).Keys, old(destroyed), old(left), g1, d[o := i], held, log1, left1,
          refCount.Keys, destroyed, left, {o});
        WalkedTrans(all, old(edges), old(destroyed), g1.edges, log1, edges, destroyed, o, 0, i, i + 1);
        FallenTrans(old(refCount), old(edges), g1.refCount, g1.edges, cut, refCount, edges, {kids[i]}, o);
        cut := cut + {kids[i]};
        ExtendsTrans(old(destroyed), log1, destroyed, old(refCount).Keys, keys1, refCount.Keys);
        ShrunkTrans(old(G()), g1, G());
        ListsStay(g1, G(), all);
        assert d[o := i][o := i + 1] == d[o := i + 1];
        i := i + 1;
      }
    }

    /** The destructor of the object itself, after the walk over its links. */
    method EndDestruction(
        o: Id, ghost d: Dying, ghost held: set<nat>, ghost kids: map<Id, seq<Edge>>, ghost g0: Graph,
        ghost log0: seq<Dtor>, ghost left0: seq<set<Edge>>, ghost cut: set<Edge>)
      requires o in refCount && o in children && o !in d && Inv(G(), d[o := |children[o]|], held)
      requires Inv(g0, d, held) && o in g0.refCount && o in kids && kids[o] == children[o]
      requires Shrunk(g0, G()) && Extends(log0, destroyed, g0.refCount.Keys, refCount.Keys)
      requires Fallen(g0.refCount, g0.edges, refCount, edges, cut, o) && forall e :: e in cut ==> e.parent == o
      requires Ordered(g0.edges, log0, destroyed, left0, left)
      requires Walked(kids, g0.edges, log0, edges, destroyed, o, 0, |kids[o]|)
      modifies this`refCount, this`children, this`nodeUsed, this`destroyed, this`left
      ensures Inv(G(), d, held) && o !in refCount && Shrunk(g0, G())
      ensures Extends(log0, destroyed, g0.refCount.Keys, refCount.Keys)
      ensures Fallen(g0.refCount, g0.edges, refCount, edges, {}, o)
      ensures Ordered(g0.edges, log0, destroyed, left0, left)
      ensures destroyed != [] && destroyed[|destroyed| - 1].id == o
      ensures var f := FallFrom(kids, g0.edges, o, 0);
              log0 <= destroyed && edges == f.links && IdsOf(destroyed[|log0|..]) == f.order
    {
      hide Inv, Extends, Shrunk, Fallen, Ordered, Walked, FallFrom;
      ghost var dd := d[o := |children[o]|];
      assert dd - {o} == d;
      ghost var g1, log1 := G(), destroyed;
      FallenReaped(g1, dd, held, o, g0.refCount, g0.edges, cut);
      OrderedReap(g0, d, held, log0, left0, g1, dd, held, destroyed, left, o, cut);
      WalkedToEnd(kids, g0.edges, log0, edges, destroyed, o, refCount[o]);
      left := left + [edges];
      RunDestructor(o, dd, held);
      ShrunkTrans(g0, g1, G());
      ExtendsTrans(log0, log1, destroyed, g0.refCount.Keys, g1.refCount.Keys, refCount.Keys);
      ExtendsPrefix(log0, destroyed, g0.refCount.Keys, refCount.Keys);
    }

    /** The last step of a destruction: the destructor runs and the object's memory is gone. */
    method RunDestructor(o: Id, ghost d: Dying, ghost held: set<nat>)
      requires Inv(G(), d, held) && o in d && o in children && o in refCount && d[o] == |children[o]|
      modifies this`refCount, this`children, this`nodeUsed, this`destroyed
      ensures Inv(G(), d - {o}, held) && refCount == old(refCount) - {o} && edges == old(edges)
      ensures destroyed == old(destroyed) + [Dtor(o, old(refCount)[o])]
      ensures Shrunk(old(G()), G())
      ensures Extends(old(destroyed), destroyed, old(refCount).Keys, refCount.Keys)
    {
      hide Inv, Extends, Shrunk;
      ReapKeeps(G(), d, held, o);
      ReapLogs(G(), d, held, o, destroyed);
      ShrunkByReap(G(), o);
      destroyed := destroyed + [Dtor(o, refCount[o])];
      refCount, children, nodeUsed := refCount - {o}, children - {o}, nodeUsed - {o};
    }

    /** Drops the `i`-th child link of `o`, destroys the child if that was its last, and frees the link. */
    method DropChild(
        o: Id, kids: seq<Edge>, i: nat, ghost d: Dying, ghost held: set<nat>, ghost all: map<Id, seq<Edge>>)
      requires Inv(G(), d, held) && |left| == |destroyed| && ListsAgree(G(), all)
      requires o in d && d[o] == i && o in children && children[o] == kids && i < |kids|
      modifies this
      ensures Inv(G(), d[o := i + 1], held) && |list| <= old(|list|)
      ensures o in refCount && o in children && children[o] == kids
      ensures Shrunk(old(G()), G()) && fault == old(fault)
      ensures Extends(old(destroyed), destroyed, old(refCount).Keys, refCount.Keys)
      ensures kids[i].parent == o && Fallen(old(refCount), old(edges), refCount, edges, {kids[i]}, o)
      ensures Ordered(old(edges), old(destroyed), destroyed, old(left), left)
      ensures Walked(all, old(edges), old(destroyed), edges, destroyed, o, i, i + 1)
      decreases |list|, 1
    {
      hide Inv, Extends, Shrunk, Without, Stored, Fallen, Ordered, Walked, FallFrom, ListsAgree;
      var e := kids[i];
      ghost var dd, hh := d[o := i + 1], held + NodeHeld(e);
      NextLink(G(), d, held, o);
      AgreeAt(G(), all, o);
      DropLinkKeeps(G(), d, held, o, e);
      ShrunkByDrop(G(), e);
      NoDtors(destroyed, refCount.Keys);
      OrderedNone(edges, destroyed, left);
      assert refCount[e.child := refCount[e.child] - 1].Keys == refCount.Keys;
      refCount := refCount[e.child := refCount[e.child] - 1];
      edges := edges - {e};
      ghost var gDropped := G();
      LastLink(G(), dd, hh, e.child);
      ListsStay(old(G()), G(), all);
      if refCount[e.child] == 0 {
        ChildListed(G(), dd, hh, e.child);
        var r := Destroy(e.child, dd, hh, all);
        FallenBelow(old(G()), d, held, e, refCount, edges);
        DyingStays(G(), dd, hh, o);
        OrderedMore(old(edges), e, old(destroyed), destroyed, old(left), left, old(refCount).Keys, refCount.Keys);
      } else {
        FallenDropped(old(G()), d, held, e);
      }
      WalkedOne(all, old(edges), old(destroyed), edges, destroyed, o, i);
      FreeLink(o, kids, i, d, dd, held, all, old(G()), gDropped);
    }

    /** Frees a dropped link and looks at the next one. */
    method FreeLink(
        o: Id, kids: seq<Edge>, i: nat, ghost d: Dying, ghost dd: Dying, ghost held: set<nat>,
        ghost all: map<Id, seq<Edge>>, ghost g0: Graph, ghost gDropped: Graph)
      requires i < |kids| && o in dd && dd[o] == i + 1 && Inv(G(), dd, held + NodeHeld(kids[i]))
      requires Shrunk(g0, gDropped) && (Shrunk(gDropped, G()) || gDropped == G())
      requires o in gDropped.children && gDropped.children[o] == kids && NodeHeld(kids[i]) !! held
      modifies this`nodes, this`fault
      ensures Inv(G(), dd, held) && o in refCount && o in children && children[o] == kids
      ensures Shrunk(g0, G()) && fault == old(fault)
    {
      hide Inv, Shrunk, Stored;
      var e := kids[i];
      ghost var hh := held + NodeHeld(e);
      ghost var gDestroyed := G();
      DyingStays(G(), dd, hh, o);
      ShrunkChildren(gDropped, gDestroyed, o);
      FreeNodeKeeps(G(), G().(nodes := nodes - NodeHeld(e)), dd, held, NodeHeld(e));
      ghost var nodes1 := nodes;
      if e.kind == Allocated {
        nodes := nodes - {e.node};
      }
      assert nodes == nodes1 - NodeHeld(e);
      ShrunkTrans(g0, gDropped, gDestroyed);
      ShrunkTrans(g0, gDestroyed, G());
      if i + 1 < |kids| {
        NextLink(G(), dd, held, o);
        var stored := if kids[i + 1].kind == Embedded then kids[i + 1].child in refCount else kids[i + 1].node in nodes;
        StoredNow(G(), kids[i + 1], stored);
        fault := fault || !stored;
      }
    }

    constructor ()
      ensures Valid() && list == [] && refCount == map[] && edges == {} && destroyed == [] && !fault
    {
      list, refCount, children, nodeUsed, nodes, edges := [], map[], map[], map[], {}, {};
      destroyed, fault, left := [], false, [];
    }

    /** Initialises a new object and puts it on the subsystem list. */
    method Add(o: Id)
      requires Valid() && o !in refCount
      modifies this
      ensures Valid()
      ensures list == old(list) + [o] && refCount == old(refCount)[o := 0] && edges == old(edges)
      ensures destroyed == old(destroyed) && fault == old(fault)
    {
      hide Inv;
      AddKeeps(G(), o);
      list := list + [o];
      refCount := refCount[o := 0];
      children := children[o := []];
      nodeUsed := nodeUsed[o := false];
    }

    /**
      Links `o` below `parent`; `addr` is the memory used if the link has to be
      allocated. The count is kept in 16 bits, so the invariant survives exactly
      while an object has fewer than 65536 parents.
    */
    method Attach(o: Id, parent: Id, addr: nat) returns (ghost link: Edge)
      requires Valid() && o in refCount && parent in refCount && addr !in nodes
      modifies this
      ensures refCount == old(refCount)[o := (old(refCount)[o] + 1) % 65536]
      ensures |EdgesTo(edges, o)| == |EdgesTo(old(edges), o)| + 1
      ensures link.parent == parent && link.child == o && link !in old(edges) && edges == old(edges) + {link}
      ensures parent in old(children) && children == old(children)[parent := old(children)[parent] + [link]]
      ensures o in old(nodeUsed) && nodeUsed == old(nodeUsed)[o := true]
      ensures link.kind == (if old(nodeUsed)[o] then Allocated else Embedded)
      ensures if link.kind == Allocated then link.node == addr && nodes == old(nodes) + {addr} else nodes == old(nodes)
      ensures Valid() <==> old(refCount)[o] + 1 < 65536
      ensures list == old(list) && destroyed == old(destroyed) && fault == old(fault)
    {
      hide Inv, EdgesTo;
      ghost var g0 := G();
      KeysAgree(g0, map[], {});
      var e;
      if !nodeUsed[o] {
        e := Edge(parent, o, Embedded, 0);
        nodeUsed := nodeUsed[o := true];
      } else {
        e := Edge(parent, o, Allocated, addr);
        nodes := nodes + {addr};
      }
      children := children[parent := children[parent] + [e]];
      edges := edges + {e};
      refCount := refCount[o := (refCount[o] + 1) % REF_MODULUS];
      AttachKeeps(g0, e);
      assert G() == WithEdge(g0, e);
      link := e;
    }

    /** The first link to `o`, or the end of the list. */
    static method FindChild(kids: seq<Edge>, o: Id) returns (k: nat)
      ensures k <= |kids| && (k < |kids| <==> HasChild(kids, o))
      ensures k < |kids| ==> kids[k].child == o
      ensures forall j :: 0 <= j < k ==> kids[j].child != o
    {
      k := 0;
      while k < |kids| && kids[k].child != o
        invariant k <= |kids| && forall j :: 0 <= j < k ==> kids[j].child != o
      {
        k := k + 1;
      }
    }

    /**
      Removes the first link from `parent` to `o`. An object without any parent
      trips an assertion. For one that has other parents only, the walk runs off
      the list: the list head is unlinked, so that the parent loses all its
      children, and the count is lowered although no link was removed.
    */
    method Detach(o: Id, parent: Id) returns (outcome: Detachment, ghost link: Edge)
      requires Valid() && o in refCount && parent in refCount
      modifies this
      ensures parent in old(children)
      ensures outcome == if old(refCount)[o] == 0 then Asserted
                         else if HasChild(old(children)[parent], o) then Detached else Corrupted
      ensures list == old(list) && destroyed == old(destroyed)
      ensures fault <==> old(fault) || outcome == Corrupted
      ensures Valid() <==> outcome != Corrupted
      ensures outcome == Asserted ==> G() == old(G())
      ensures outcome != Asserted ==> refCount == old(refCount)[o := old(refCount)[o] - 1]
      ensures outcome == Detached ==>
                link in old(edges) && link.parent == parent && link.child == o && edges == old(edges) - {link}
      ensures outcome == Detached ==>
                exists k: nat ::
                  && FirstLink(old(children)[parent], o, k) && link == old(children)[parent][k]
                  && children == old(children)[parent := Removed(old(children)[parent], k)]
      ensures outcome == Detached ==>
                && nodes == old(nodes) - (if link.kind == Allocated then {link.node} else {})
                && nodeUsed == (if link.kind == Embedded then old(nodeUsed)[o := false] else old(nodeUsed))
      ensures outcome == Corrupted ==> nodes == old(nodes) && nodeUsed == old(nodeUsed)
      ensures outcome == Corrupted ==>
                edges == old(edges) && children == old(children)[parent := []] && |EdgesTo(edges, o)| == refCount[o] + 1
    {
      hide Inv, EdgesTo, HasChild;
      ghost var g0 := G();
      link := Edge(parent, o, Embedded, 0);
      KeysAgree(g0, map[], {});
      if refCount[o] == 0 {
        return Asserted, link;
      }
      var kids := children[parent];
      var k := FindChild(kids, o);
      if k == |kids| {
        fault := true;
        children := children[parent := []];
        refCount := refCount[o := refCount[o] - 1];
        CountLost(g0, G(), o);
        return Corrupted, link;
      }
      assert FirstLink(kids, o, k);
      link := RemoveLink(parent, k);
      outcome := Detached;
    }

    /** Takes the `k`-th link of `parent` out of its list and frees it if it was allocated. */
    method RemoveLink(parent: Id, k: nat) returns (ghost link: Edge)
      requires Valid() && parent in children && k < |children[parent]|
      modifies this
      ensures Valid() && list == old(list) && destroyed == old(destroyed) && fault == old(fault)
      ensures link == old(children)[parent][k] && link in old(edges) && link.parent == parent
      ensures edges == old(edges) - {link}
      ensures children == old(children)[parent := Removed(old(children)[parent], k)]
      ensures nodes == old(nodes) - (if link.kind == Allocated then {link.node} else {})
      ensures nodeUsed == (if link.kind == Embedded then old(nodeUsed)[link.child := false] else old(nodeUsed))
      ensures link.child in old(refCount) && old(refCount)[link.child] > 0
      ensures refCount == old(refCount)[link.child := old(refCount)[link.child] - 1]
    {
      hide Inv;
      ghost var g0 := G();
      var kids := children[parent];
      var e := kids[k];
      DetachKeeps(g0, parent, k);
      children := children[parent := kids[..k] + kids[k + 1..]];
      edges := edges - {e};
      if e.kind == Allocated {
        nodes := nodes - {e.node};
      } else {
        nodeUsed := nodeUsed[e.child := false];
      }
      refCount := refCount[e.child := refCount[e.child] - 1];
      assert nodes == old(nodes) - NodeHeld(e);
      assert G() == WithoutEdge(g0, parent, k);
      link := e;
    }

    /**
      One pass over the list: stops at the first object that could be destroyed.
      Without one there is no object without parents, and nothing changes.
    */
    method DestroyPass() returns (progress: bool)
      requires Valid()
      modifies this
      ensures Valid() && fault == old(fault) && Shrunk(old(G()), G())
      ensures Extends(old(destroyed), destroyed, old(refCount).Keys, refCount.Keys)
      ensures Ordered(old(edges), old(destroyed), destroyed, old(left), left)
      ensures LinksKept(old(edges), refCount.Keys, edges)
      ensures KeepsCycles(old(edges), edges)
      ensures if progress then |list| < old(|list|) else G() == old(G()) && NoRoots(G())
      ensures progress ==>
                exists k: nat ::
                  && FirstRoot(old(list), old(refCount), k)
                  && var f := FallFrom(old(children), old(edges), old(list)[k], 0);
                  old(destroyed) <= destroyed && edges == f.links && IdsOf(destroyed[|old(destroyed)|..]) == f.order
    {
      hide Inv, Extends, Shrunk, Fallen, KeepsCycles, NoRoots, Ordered, FallFrom;
      NoDtors(destroyed, refCount.Keys);
      OrderedNone(edges, destroyed, left);
      ShrunkSame(G(), G());
      NothingDropped(edges);
      var i := 0;
      while i < |list|
        invariant i <= |list| && G() == old(G()) && fault == old(fault)
        invariant destroyed == old(destroyed) && left == old(left)
        invariant forall k :: 0 <= k < i ==> list[k] in refCount && refCount[list[k]] > 0
      {
        var o := list[i];
        var r := Destroy(o, map[], {}, children);
        if r == 0 {
          assert FirstRoot(old(list), old(refCount), i);
          FallenKeeps(old(refCount), old(edges), refCount, edges, {}, o);
          FallenLinks(old(refCount), old(edges), refCount, edges, {}, o);
          OrderedLengths(old(edges), old(destroyed), destroyed, old(left), left);
          return true;
        }
        i := i + 1;
      }
      AllHaveParents(G());
      progress := false;
    }

    /**
      Destroys every object of the subsystem. On an acyclic graph this
      terminates, runs each destructor exactly once, only when no link to the
      object is left, and never touches freed memory.
    */
    method DestroyAll()
      requires Valid() && Acyclic(edges)
      modifies this
      ensures Valid() && list == [] && refCount == map[] && edges == {} && nodes == {}
      ensures Extends(old(destroyed), destroyed, old(refCount).Keys, {})
      ensures Ordered(old(edges), old(destroyed), destroyed, old(left), left)
      ensures fault == old(fault)
    {
      hide Inv, Extends, Shrunk, Acyclic, KeepsCycles, NoRoots, Ordered, LinksKept;
      NoDtors(destroyed, refCount.Keys);
      OrderedNone(edges, destroyed, left);
      AllKept(edges, refCount.Keys);
      while |list| > 0
        invariant Valid() && Acyclic(edges) && fault == old(fault)
        invariant Extends(old(destroyed), destroyed, old(refCount).Keys, refCount.Keys)
        invariant Ordered(old(edges), old(destroyed), destroyed, old(left), left)
        invariant LinksKept(old(edges), refCount.Keys, edges) && edges <= old(edges)
        decreases |list|
      {
        ghost var log1, keys1, g1, left1 := destroyed, refCount.Keys, G(), left;
        RootOnList(G());
        var progress := DestroyPass();
        PassOrdered(old(edges), old(refCount).Keys, old(destroyed), old(left), g1, log1, left1, G(), destroyed, left);
        ExtendsTrans(old(destroyed), log1, destroyed, old(refCount).Keys, keys1, refCount.Keys);
        ShrunkAcyclic(g1, G());
      }
      EmptyGraph(G());
    }

    /**
      The same loop, left after `rounds` passes. It has emptied the list after at
      most as many passes as there were objects if the graph has no cycle, and
      never does otherwise.
    */
    method DestroyRounds(rounds: nat)
      requires Valid()
      modifies this
      ensures Valid() && fault == old(fault)
      ensures Extends(old(destroyed), destroyed, old(refCount).Keys, refCount.Keys)
      ensures Ordered(old(edges), old(destroyed), destroyed, old(left), left)
      ensures KeepsCycles(old(edges), edges)
      ensures rounds >= old(|list|) ==> (list == [] <==> Acyclic(old(edges)))
      ensures !Acyclic(old(edges)) ==> list != []
    {
      hide Inv, Extends, Shrunk, Acyclic, KeepsCycles, NoRoots, Ordered, LinksKept;
      NoDtors(destroyed, refCount.Keys);
      OrderedNone(edges, destroyed, left);
      AllKept(edges, refCount.Keys);
      NothingDropped(edges);
      var k := 0;
      while k < rounds && |list| > 0
        invariant k <= rounds && Valid() && fault == old(fault)
        invariant Extends(old(destroyed), destroyed, old(refCount).Keys, refCount.Keys)
        invariant Ordered(old(edges), old(destroyed), destroyed, old(left), left)
        invariant LinksKept(old(edges), refCount.Keys, edges) && edges <= old(edges)
        invariant KeepsCycles(old(edges), edges)
        invariant Acyclic(old(edges)) ==> Acyclic(edges) && |list| + k <= old(|list|)
      {
        ghost var log1, keys1, g1, left1 := destroyed, refCount.Keys, G(), left;
        if Acyclic(edges) {
          RootOnList(G());
        }
        var progress := DestroyPass();
        PassOrdered(old(edges), old(refCount).Keys, old(destroyed), old(left), g1, log1, left1, G(), destroyed, left);
        ExtendsTrans(old(destroyed), log1, destroyed, old(refCount).Keys, keys1, refCount.Keys);
        KeepsCyclesTrans(old(edges), g1.edges, edges);
        if Acyclic(g1.edges) {
          ShrunkAcyclic(g1, G());
        }
        k := k + 1;
      }
      CyclesStay(old(edges), G());
    }
  }
}
