/**
  Parent links between host objects: what they reach, and which of them can
  never be dropped.
*/
module HostLinks {

  type Id = nat

  datatype Kind = Embedded | Allocated

  /** A parent link; `node` is the address of an allocated link. */
  datatype Edge = Edge(parent: Id, child: Id, kind: Kind, node: nat)

  ghost function EdgesTo(es: set<Edge>, x: Id): set<Edge> {
    set e | e in es && e.child == x
  }

  ghost function EdgesFrom(es: set<Edge>, p: Id): set<Edge> {
    set e | e in es && e.parent == p
  }

  // ---------------------------------------------------------------------
  // Paths
  // ---------------------------------------------------------------------

  ghost predicate Linked(es: set<Edge>, a: Id, b: Id) {
    exists e :: e in es && e.parent == a && e.child == b
  }

  ghost predicate IsPath(es: set<Edge>, p: seq<Id>) {
    p != [] && forall k :: 0 <= k < |p| - 1 ==> Linked(es, p[k], p[k + 1])
  }

  /** There is a path of links, possibly an empty one. */
  ghost predicate Reaches(es: set<Edge>, a: Id, b: Id) {
    exists p :: IsPath(es, p) && p[0] == a && p[|p| - 1] == b
  }

  lemma ReachesSelf(es: set<Edge>, a: Id)
    ensures Reaches(es, a, a)
  {
    assert IsPath(es, [a]);
  }

  lemma ReachesFirst(es: set<Edge>, e: Edge, b: Id)
    requires e in es && Reaches(es, e.child, b)
    ensures Reaches(es, e.parent, b)
  {
    var p :| IsPath(es, p) && p[0] == e.child && p[|p| - 1] == b;
    var q := [e.parent] + p;
    assert Linked(es, q[0], q[1]);
    forall k | 0 <= k < |q| - 1
      ensures Linked(es, q[k], q[k + 1])
    {
      assert k > 0 ==> q[k] == p[k - 1] && q[k + 1] == p[k];
    }
    assert IsPath(es, q);
  }

  lemma ReachesMore(es: set<Edge>, more: set<Edge>, a: Id, b: Id)
    requires es <= more && Reaches(es, a, b)
    ensures Reaches(more, a, b)
  {
    var p :| IsPath(es, p) && p[0] == a && p[|p| - 1] == b;
    forall k | 0 <= k < |p| - 1
      ensures Linked(more, p[k], p[k + 1])
    {
      assert Linked(es, p[k], p[k + 1]);
    }
    assert IsPath(more, p);
  }

  /** What is reached by a path is the start, or the child of a link. */
  lemma ReachedHasParent(es: set<Edge>, a: Id, b: Id)
    requires Reaches(es, a, b) && a != b
    ensures EdgesTo(es, b) != {}
  {
    var p :| IsPath(es, p) && p[0] == a && p[|p| - 1] == b;
    assert Linked(es, p[|p| - 2], b);
    var e :| e in es && e.parent == p[|p| - 2] && e.child == b;
    assert e in EdgesTo(es, b);
  }

  /** A set that every link leads on inside is left by no path. */
  lemma ReachesInside(es: set<Edge>, s: set<Id>, a: Id, b: Id)
    requires a in s && Reaches(es, a, b)
    requires forall e :: e in es && e.parent in s ==> e.child in s
    ensures b in s
  {
    var p :| IsPath(es, p) && p[0] == a && p[|p| - 1] == b;
    PathInside(es, s, p, |p| - 1);
  }

  lemma {:induction false} PathInside(es: set<Edge>, s: set<Id>, p: seq<Id>, k: nat)
    requires IsPath(es, p) && p[0] in s && k < |p|
    requires forall e :: e in es && e.parent in s ==> e.child in s
    ensures p[k] in s
  {
    if k > 0 {
      PathInside(es, s, p, k - 1);
      assert Linked(es, p[k - 1], p[k - 1 + 1]);
    }
  }

  // ---------------------------------------------------------------------
  // Cycles
  // ---------------------------------------------------------------------

  /** A rank that decreases along every link shows that the graph has no cycle. */
  ghost predicate Ranks(rank: map<Id, nat>, es: set<Edge>) {
    forall e :: e in es ==> e.parent in rank && e.child in rank && rank[e.child] < rank[e.parent]
  }

  ghost predicate Acyclic(es: set<Edge>) {
    exists rank: map<Id, nat> :: Ranks(rank, es)
  }

  /** Every link hangs below another one of the set, as on a cycle. */
  ghost predicate SelfSupporting(ks: set<Edge>) {
    forall e :: e in ks ==> Supported(ks, e)
  }

  ghost predicate Supported(ks: set<Edge>, e: Edge) {
    exists f :: f in ks && f.child == e.parent
  }

  /** A rank of the parents of a set of links, and a link whose parent has the highest. */
  lemma {:induction false} HighestParent(ks: set<Edge>, rank: map<Id, nat>) returns (top: Edge)
    requires ks != {} && Ranks(rank, ks)
    ensures top in ks && forall e :: e in ks ==> rank[e.parent] <= rank[top.parent]
  {
    top :| top in ks;
    if ks != {top} {
      var e := HighestParent(ks - {top}, rank);
      assert forall f :: f in ks ==> f == top || f in ks - {top};
      if rank[top.parent] < rank[e.parent] {
        top := e;
      }
    }
  }

  lemma {:induction false} MaxRank(rank: map<Id, nat>, keys: set<Id>) returns (m: nat)
    requires keys <= rank.Keys
    ensures forall x :: x in keys ==> rank[x] < m
  {
    m := 0;
    if keys != {} {
      var x :| x in keys;
      m := MaxRank(rank, keys - {x});
      if m <= rank[x] {
        m := rank[x] + 1;
      }
      assert forall y :: y in keys ==> y == x || y in keys - {x};
    }
  }

  lemma RankedNotSupporting(ks: set<Edge>, rank: map<Id, nat>)
    requires Ranks(rank, ks) && ks != {}
    ensures !SelfSupporting(ks)
  {
    var top := HighestParent(ks, rank);
    assert forall f :: f in ks ==> rank[f.child] < rank[f.parent] <= rank[top.parent];
    assert !Supported(ks, top);
  }

  /** Without self-supporting links a rank can be built link by link. */
  lemma {:induction false} BuildRank(es: set<Edge>) returns (rank: map<Id, nat>)
    requires forall ks :: ks <= es && ks != {} ==> !SelfSupporting(ks)
    ensures Ranks(rank, es)
    decreases es
  {
    if es == {} {
      rank := map[];
    } else {
      assert !SelfSupporting(es);
      var e :| e in es && !Supported(es, e);
      forall ks | ks <= es - {e} && ks != {}
        ensures !SelfSupporting(ks)
      {
        assert ks <= es;
      }
      rank := BuildRank(es - {e});
      var low := if e.child in rank then rank else rank[e.child := 0];
      var m := MaxRank(low, low.Keys);
      rank := low[e.parent := m];
      TopRank(es, e, rank, low, m);
    }
  }

  lemma TopRank(es: set<Edge>, e: Edge, rank: map<Id, nat>, low: map<Id, nat>, m: nat)
    requires e in es && !Supported(es, e) && Ranks(low, es - {e}) && e.child in low
    requires rank == low[e.parent := m] && forall x :: x in low ==> low[x] < m
    ensures Ranks(rank, es)
  {
    forall f | f in es
      ensures f.parent in rank && f.child in rank && rank[f.child] < rank[f.parent]
    {
      assert f.child != e.parent;
      if f != e {
        assert f in es - {e};
      }
    }
  }

  /** There is no cycle if and only if no links support each other. */
  lemma AcyclicExact(es: set<Edge>)
    ensures Acyclic(es) <==> forall ks :: ks <= es && ks != {} ==> !SelfSupporting(ks)
  {
    if Acyclic(es) {
      var rank: map<Id, nat> :| Ranks(rank, es);
      forall ks | ks <= es && ks != {}
        ensures !SelfSupporting(ks)
      {
        assert Ranks(rank, ks);
        RankedNotSupporting(ks, rank);
      }
    }
    if forall ks :: ks <= es && ks != {} ==> !SelfSupporting(ks) {
      var rank := BuildRank(es);
    }
  }

  /** The links that support each other are all kept. */
  ghost predicate KeepsCycles(es: set<Edge>, es': set<Edge>) {
    forall ks :: ks <= es && SelfSupporting(ks) ==> ks <= es'
  }

  /** A link of an object without parents supports nothing that supports it. */
  lemma DropKeepsCycles(es: set<Edge>, e: Edge)
    requires EdgesTo(es, e.parent) == {}
    ensures KeepsCycles(es, es - {e})
  {
    assert forall f :: f in es && f.child == e.parent ==> f in EdgesTo(es, e.parent);
    forall ks | ks <= es && SelfSupporting(ks)
      ensures ks <= es - {e}
    {
      assert !Supported(ks, e);
    }
  }

  lemma KeepsCyclesTrans(a: set<Edge>, b: set<Edge>, c: set<Edge>)
    requires KeepsCycles(a, b) && KeepsCycles(b, c)
    ensures KeepsCycles(a, c)
  {
  }

  // ---------------------------------------------------------------------
  // Objects that all have a parent among themselves
  // ---------------------------------------------------------------------

  ghost function Inside(es: set<Edge>, xs: set<Id>): set<Edge> {
    set e | e in es && e.parent in xs && e.child in xs
  }

  ghost predicate HasParentIn(es: set<Edge>, xs: set<Id>, y: Id) {
    exists f :: f in Inside(es, xs) && f.child == y
  }

  lemma InsideSupports(es: set<Edge>, xs: set<Id>)
    requires forall y :: y in xs ==> HasParentIn(es, xs, y)
    ensures SelfSupporting(Inside(es, xs))
  {
    var ks := Inside(es, xs);
    forall e | e in ks
      ensures Supported(ks, e)
    {
      assert HasParentIn(es, xs, e.parent);
    }
  }
}
