/**
  The order in which destructors run: each object's children first, as far as
  the link dropped was their last, and then the object itself.
*/
module HostOrder {
  import opened HostLinks

  // ---------------------------------------------------------------------
  // The walk
  // ---------------------------------------------------------------------

  /** The links that are left, and the objects destructed, in order. */
  datatype Fall = Fall(links: set<Edge>, order: seq<Id>)

  /**
    What a destruction of `x` does from its `i`-th child link on, where `kids`
    holds the lists of links and `es` the links not dropped yet.
  */
  ghost function FallFrom(kids: map<Id, seq<Edge>>, es: set<Edge>, x: Id, i: nat): (f: Fall)
    ensures f.links <= es
    decreases |es|, if x in kids && i < |kids[x]| then |kids[x]| - i else 0
  {
    if x !in kids || i >= |kids[x]| || kids[x][i] !in es then Fall(es, [x])
    else
      var e := kids[x][i];
      LessLinks(es, es - {e}, e);
      if EdgesTo(es - {e}, e.child) != {} then FallFrom(kids, es - {e}, x, i + 1)
      else
        var below := FallFrom(kids, es - {e}, e.child, 0);
        LessLinks(es, below.links, e);
        var rest := FallFrom(kids, below.links, x, i + 1);
        Fall(rest.links, below.order + rest.order)
  }

  lemma LessLinks(es: set<Edge>, fs: set<Edge>, e: Edge)
    requires fs <= es - {e} && e in es
    ensures |fs| < |es|
  {
    SubsetSize(fs, es - {e});
  }

  lemma {:induction false} SubsetSize(a: set<Edge>, b: set<Edge>)
    requires a <= b
    ensures |a| <= |b|
  {
    if a != {} {
      var x :| x in a;
      SubsetSize(a - {x}, b - {x});
    }
  }

  /** A link to an object that has another one: it is dropped, and nothing more. */
  lemma FallPast(kids: map<Id, seq<Edge>>, es: set<Edge>, x: Id, i: nat)
    requires x in kids && i < |kids[x]| && kids[x][i] in es
    requires EdgesTo(es - {kids[x][i]}, kids[x][i].child) != {}
    ensures FallFrom(kids, es, x, i) == FallFrom(kids, es - {kids[x][i]}, x, i + 1)
  {
  }

  /** The last link to an object: the object falls before the walk goes on. */
  lemma FallInto(kids: map<Id, seq<Edge>>, es: set<Edge>, x: Id, i: nat)
    requires x in kids && i < |kids[x]| && kids[x][i] in es
    requires EdgesTo(es - {kids[x][i]}, kids[x][i].child) == {}
    ensures var below := FallFrom(kids, es - {kids[x][i]}, kids[x][i].child, 0);
            var rest := FallFrom(kids, below.links, x, i + 1);
            FallFrom(kids, es, x, i) == Fall(rest.links, below.order + rest.order)
  {
  }

  /** The walk at its end. */
  lemma FallEnds(kids: map<Id, seq<Edge>>, es: set<Edge>, x: Id, i: nat)
    requires x in kids && i == |kids[x]|
    ensures FallFrom(kids, es, x, i) == Fall(es, [x])
  {
  }

  // ---------------------------------------------------------------------
  // What the order means
  // ---------------------------------------------------------------------

  ghost predicate Ran(order: seq<Id>, x: Id) {
    exists j :: 0 <= j < |order| && order[j] == x
  }

  /**
    When the destructor of `x` runs, after those of `before` and with the links
    `now`, no link from or to `x` is left; and each child it had has been
    destructed if and only if no link to the child is left.
  */
  ghost predicate Settled(es: set<Edge>, before: seq<Id>, x: Id, now: set<Edge>) {
    && now <= es && (forall e :: e in now ==> e.parent != x && e.child != x)
    && forall e :: e in es && e.parent == x ==> (Ran(before, e.child) <==> Unlinked(now, e.child))
  }

  ghost predicate Unlinked(now: set<Edge>, x: Id) {
    forall f :: f in now ==> f.child != x
  }

  /** This holds at every destructor; `left[i]` are the links at the `i`-th. */
  ghost predicate InOrder(es: set<Edge>, order: seq<Id>, left: seq<set<Edge>>) {
    |order| == |left| && forall i :: 0 <= i < |order| ==> Settled(es, order[..i], order[i], left[i])
  }

  /** Every link of an object that is still there is still there. */
  ghost predicate LinksKept(es: set<Edge>, alive: set<Id>, es': set<Edge>) {
    forall e :: e in es && e.parent in alive ==> e in es'
  }

  /** A destruction after another one; `o` is being destructed around both of them. */
  lemma InOrderConcat(
      es: set<Edge>, a: seq<Id>, la: seq<set<Edge>>, es1: set<Edge>, alive: set<Id>, b: seq<Id>, lb: seq<set<Edge>>,
      out: set<Id>)
    requires InOrder(es, a, la) && InOrder(es1, b, lb) && LinksKept(es, alive - out, es1) && es1 <= es
    requires forall x :: x in a ==> x !in alive
    requires forall x :: x in b ==> x in alive && x !in out
    requires forall e :: e in es1 ==> e.child in alive
    ensures InOrder(es, a + b, la + lb)
  {
    hide Settled;
    forall i | 0 <= i < |a + b|
      ensures Settled(es, (a + b)[..i], (a + b)[i], (la + lb)[i])
    {
      if i < |a| {
        assert (a + b)[..i] == a[..i];
      } else {
        var k := i - |a|;
        assert (a + b)[..i] == a + b[..k];
        assert b[k] in b;
        SettledAfter(es, a, es1, alive, b[..k], b[k], lb[k], out);
      }
    }
  }

  lemma SettledAfter(
      es: set<Edge>, a: seq<Id>, es1: set<Edge>, alive: set<Id>, before: seq<Id>, x: Id, now: set<Edge>, out: set<Id>)
    requires Settled(es1, before, x, now) && LinksKept(es, alive - out, es1) && es1 <= es && x in alive && x !in out
    requires forall y :: y in a ==> y !in alive
    requires forall e :: e in es1 ==> e.child in alive
    ensures Settled(es, a + before, x, now)
  {
    hide Unlinked;
    forall e | e in es && e.parent == x
      ensures Ran(a + before, e.child) <==> Unlinked(now, e.child)
    {
      assert e in es1;
      RanConcat(a, before, e.child);
      assert !Ran(a, e.child);
    }
  }

  lemma RanConcat(a: seq<Id>, b: seq<Id>, x: Id)
    ensures Ran(a + b, x) <==> Ran(a, x) || Ran(b, x)
  {
    if j :| 0 <= j < |b| && b[j] == x {
      assert (a + b)[|a| + j] == x;
    }
    if j :| 0 <= j < |a| && a[j] == x {
      assert (a + b)[j] == x;
    }
  }

  /** A link of an object that is not destructed does not matter. */
  lemma InOrderMore(es: set<Edge>, e: Edge, order: seq<Id>, left: seq<set<Edge>>)
    requires InOrder(es - {e}, order, left) && e.parent !in order
    ensures InOrder(es, order, left)
  {
    hide Unlinked, Ran;
    forall i | 0 <= i < |order|
      ensures Settled(es, order[..i], order[i], left[i])
    {
      assert Settled(es - {e}, order[..i], order[i], left[i]);
      assert order[i] in order;
    }
  }

  lemma InOrderNone(es: set<Edge>)
    ensures InOrder(es, [], [])
  {
  }

  /** One more destructor at the end. */
  lemma InOrderSnoc(es: set<Edge>, order: seq<Id>, left: seq<set<Edge>>, x: Id, now: set<Edge>)
    requires InOrder(es, order, left) && Settled(es, order, x, now)
    ensures InOrder(es, order + [x], left + [now])
  {
    hide Settled;
    forall i | 0 <= i < |order + [x]|
      ensures Settled(es, (order + [x])[..i], (order + [x])[i], (left + [now])[i])
    {
      if i < |order| {
        assert (order + [x])[..i] == order[..i];
      } else {
        assert (order + [x])[..i] == order;
      }
    }
  }

  /** An object all of whose links came from one parent is destructed before it. */
  lemma OnlyChildFirst(es: set<Edge>, order: seq<Id>, left: seq<set<Edge>>, e: Edge, i: nat)
    requires InOrder(es, order, left) && e in es && i < |order| && order[i] == e.parent
    requires forall f :: f in es && f.child == e.child ==> f.parent == e.parent
    ensures Ran(order[..i], e.child)
  {
    assert Settled(es, order[..i], order[i], left[i]);
  }

  // ---------------------------------------------------------------------
  // A child can outlive a parent
  // ---------------------------------------------------------------------

  const LEFT: Edge := Edge(0, 1, Embedded, 0)
  const RIGHT: Edge := Edge(0, 2, Embedded, 0)
  const LOW_LEFT: Edge := Edge(1, 3, Embedded, 0)
  const LOW_RIGHT: Edge := Edge(2, 3, Allocated, 7)

  /** Object 0 is above 1 and 2, and both of these are above 3. */
  const DIAMOND: map<Id, seq<Edge>> := map[0 := [LEFT, RIGHT], 1 := [LOW_LEFT], 2 := [LOW_RIGHT], 3 := []]

  /** Object 3 falls with its last parent: the destructor of its other parent has run before. */
  lemma ParentFirst()
    ensures FallFrom(DIAMOND, {LEFT, RIGHT, LOW_LEFT, LOW_RIGHT}, 0, 0) == Fall({}, [1, 3, 2, 0])
  {
    var all := {LEFT, RIGHT, LOW_LEFT, LOW_RIGHT};
    var e1: set<Edge> := {RIGHT, LOW_LEFT, LOW_RIGHT};
    var e2: set<Edge> := {RIGHT, LOW_RIGHT};
    var e3: set<Edge> := {LOW_RIGHT};
    assert all - {LEFT} == e1 && e1 - {LOW_LEFT} == e2 && e2 - {RIGHT} == e3 && e3 - {LOW_RIGHT} == {};
    assert EdgesTo(e1, 1) == {} && LOW_RIGHT in EdgesTo(e2, 3) && EdgesTo(e3, 2) == {} && EdgesTo({}, 3) == {};
    FallInto(DIAMOND, all, 0, 0);
    FallPast(DIAMOND, e1, 1, 0);
    FallEnds(DIAMOND, e2, 1, 1);
    FallInto(DIAMOND, e2, 0, 1);
    FallInto(DIAMOND, e3, 2, 0);
    FallEnds(DIAMOND, {}, 3, 0);
    FallEnds(DIAMOND, {}, 2, 1);
    FallEnds(DIAMOND, {}, 0, 2);
  }
}
