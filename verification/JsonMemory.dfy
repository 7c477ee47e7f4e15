/**
  Trees whose strings are positions inside the parsed buffer.

  A reference string is preceded by its tag byte and ends at the first NUL, so
  what it reads as depends on the current contents of the buffer.
*/
module JsonMemory {
  import opened Common
  import opened JsonSyntax

  type Ref = nat

  /** What the string at `off` reads as. */
  function ReadStr(b: Text, off: Ref): Text {
    if off <= |b| then CStr(b[off..]) else []
  }

  /** The string at `off`, its tag and its terminator lie inside `lo..hi`. */
  predicate StrOk(b: Text, off: Ref, lo: nat, hi: nat) {
    && lo < off <= |b| && hi <= |b|
    && b[off - 1] == REFERENCE_TAG
    && off + |ReadStr(b, off)| < hi
  }

  predicate NameOk(b: Text, name: Option<Ref>, lo: nat, hi: nat) {
    name.Some? ==> StrOk(b, name.value, lo, hi)
  }

  predicate DataOk(b: Text, d: Data<Ref>, lo: nat, hi: nat)
    decreases d
  {
    match d
    case Str(off) => StrOk(b, off, lo, hi)
    case Cont(_, kids) =>
      forall k :: 0 <= k < |kids| ==> NameOk(b, kids[k].name, lo, hi) && DataOk(b, kids[k].data, lo, hi)
    case _ => true
  }

  predicate KidsOk(b: Text, kids: seq<Node<Ref>>, lo: nat, hi: nat) {
    forall k :: 0 <= k < |kids| ==> NameOk(b, kids[k].name, lo, hi) && DataOk(b, kids[k].data, lo, hi)
  }

  function ViewName(b: Text, name: Option<Ref>): Option<Text> {
    match name
    case None => None
    case Some(off) => Some(ReadStr(b, off))
  }

  /** The tree that a reader of the buffer sees. */
  function ViewData(b: Text, d: Data<Ref>): Data<Text>
    decreases d
  {
    match d
    case Null => Null
    case Bool(v) => Bool(v)
    case Int(i) => Int(i)
    case Float(r) => Float(r)
    case Str(off) => Str(ReadStr(b, off))
    case Cont(isArray, kids) =>
      Cont(isArray,
           seq(|kids|, k requires 0 <= k < |kids| => Node(ViewName(b, kids[k].name), ViewData(b, kids[k].data))))
  }

  function ViewNode(b: Text, n: Node<Ref>): Node<Text> {
    Node(ViewName(b, n.name), ViewData(b, n.data))
  }

  function ViewKids(b: Text, kids: seq<Node<Ref>>): (r: seq<Node<Text>>)
    ensures |r| == |kids|
  {
    seq(|kids|, k requires 0 <= k < |kids| => ViewNode(b, kids[k]))
  }

  lemma ViewCont(b: Text, isArray: bool, kids: seq<Node<Ref>>)
    ensures ViewData(b, Cont(isArray, kids)) == Cont(isArray, ViewKids(b, kids))
  {
    assert ViewData(b, Cont(isArray, kids)).kids == ViewKids(b, kids);
  }

  // ---------------------------------------------------------------------
  // Counting references
  // ---------------------------------------------------------------------

  function NameRefs(name: Option<Ref>): nat {
    if name.Some? then 1 else 0
  }

  /** Number of reference strings in a tree. */
  function DataRefs(d: Data<Ref>): nat
    decreases d
  {
    match d
    case Str(_) => 1
    case Cont(_, kids) => KidsRefs(kids)
    case _ => 0
  }

  function NodeRefs(n: Node<Ref>): nat
    decreases n
  {
    NameRefs(n.name) + DataRefs(n.data)
  }

  function KidsRefs(kids: seq<Node<Ref>>): nat
    decreases kids
  {
    if kids == [] then 0 else NodeRefs(kids[0]) + KidsRefs(kids[1..])
  }

  lemma {:induction false} KidsRefsAppend(kids: seq<Node<Ref>>, n: Node<Ref>)
    ensures KidsRefs(kids + [n]) == KidsRefs(kids) + NodeRefs(n)
  {
    if kids == [] {
      assert kids + [n] == [n];
      assert [n][1..] == [];
    } else {
      assert (kids + [n])[1..] == kids[1..] + [n];
      KidsRefsAppend(kids[1..], n);
    }
  }

  lemma {:induction false} KidsRefsConcat(a: seq<Node<Ref>>, b: seq<Node<Ref>>)
    ensures KidsRefs(a + b) == KidsRefs(a) + KidsRefs(b)
  {
    if a == [] {
      assert a + b == b;
    } else {
      assert (a + b)[1..] == a[1..] + b;
      KidsRefsConcat(a[1..], b);
    }
  }

  lemma KidsRefsRemove(kids: seq<Node<Ref>>, k: nat)
    requires k < |kids|
    ensures KidsRefs(kids[..k] + kids[k + 1..]) == KidsRefs(kids) - NodeRefs(kids[k])
  {
    hide KidsRefs, NodeRefs;
    KidsRefsConcat(kids[..k], kids[k + 1..]);
    KidsRefsConcat(kids[..k], kids[k..]);
    assert kids == kids[..k] + kids[k..];
    KidsRefsFirst(kids[k..]);
    assert kids[k..][1..] == kids[k + 1..];
  }

  lemma KidsRefsFirst(kids: seq<Node<Ref>>)
    requires kids != []
    ensures KidsRefs(kids) == NodeRefs(kids[0]) + KidsRefs(kids[1..])
  {
  }

  lemma {:induction false} KidsRefsAt(kids: seq<Node<Ref>>, k: nat)
    requires k < |kids|
    ensures NodeRefs(kids[k]) <= KidsRefs(kids)
  {
    if k > 0 {
      KidsRefsAt(kids[1..], k - 1);
    }
  }

  // ---------------------------------------------------------------------
  // Strings outside the changed part of the buffer read the same
  // ---------------------------------------------------------------------

  predicate SameIn(b: Text, b': Text, lo: nat, hi: nat) {
    && |b| == |b'|
    && forall k :: lo <= k < hi && k < |b| ==> b'[k] == b[k]
  }

  lemma StrFrame(b: Text, b': Text, off: Ref, lo: nat, hi: nat)
    requires SameIn(b, b', lo, hi) && StrOk(b, off, lo, hi)
    ensures StrOk(b', off, lo, hi) && ReadStr(b', off) == ReadStr(b, off)
  {
    var s, s' := b[off..], b'[off..];
    var n := |CStr(s)|;
    assert s'[..n] == s[..n];
    CStrUnique(s', n);
  }

  lemma {:induction false} DataFrame(b: Text, b': Text, d: Data<Ref>, lo: nat, hi: nat)
    requires SameIn(b, b', lo, hi) && DataOk(b, d, lo, hi)
    ensures DataOk(b', d, lo, hi) && ViewData(b', d) == ViewData(b, d)
    decreases d
  {
    match d
    case Str(off) => StrFrame(b, b', off, lo, hi);
    case Cont(isArray, kids) =>
      KidsFrame(b, b', kids, lo, hi);
      ViewCont(b, isArray, kids);
      ViewCont(b', isArray, kids);
    case _ =>
  }

  lemma {:induction false} NodeFrame(b: Text, b': Text, n: Node<Ref>, lo: nat, hi: nat)
    requires SameIn(b, b', lo, hi) && NameOk(b, n.name, lo, hi) && DataOk(b, n.data, lo, hi)
    ensures NameOk(b', n.name, lo, hi) && DataOk(b', n.data, lo, hi) && ViewNode(b', n) == ViewNode(b, n)
    decreases n
  {
    if n.name.Some? {
      StrFrame(b, b', n.name.value, lo, hi);
    }
    DataFrame(b, b', n.data, lo, hi);
  }

  lemma {:induction false} KidsFrame(b: Text, b': Text, kids: seq<Node<Ref>>, lo: nat, hi: nat)
    requires SameIn(b, b', lo, hi) && KidsOk(b, kids, lo, hi)
    ensures KidsOk(b', kids, lo, hi) && ViewKids(b', kids) == ViewKids(b, kids)
    decreases kids
  {
    forall k | 0 <= k < |kids|
      ensures NameOk(b', kids[k].name, lo, hi) && DataOk(b', kids[k].data, lo, hi)
      ensures ViewNode(b', kids[k]) == ViewNode(b, kids[k])
    {
      NodeFrame(b, b', kids[k], lo, hi);
    }
  }

  lemma {:induction false} DataWiden(b: Text, d: Data<Ref>, lo: nat, hi: nat, lo': nat, hi': nat)
    requires DataOk(b, d, lo, hi) && lo' <= lo && hi <= hi' <= |b|
    ensures DataOk(b, d, lo', hi')
    decreases d
  {
    if d.Cont? {
      forall k | 0 <= k < |d.kids|
        ensures DataOk(b, d.kids[k].data, lo', hi')
      {
        DataWiden(b, d.kids[k].data, lo, hi, lo', hi');
      }
    }
  }
}
