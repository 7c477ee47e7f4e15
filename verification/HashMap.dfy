/**
  The intrusive hash map: objects carry the pointer that links them into the
  chain of their hash. It refines a finite map from keys to objects.
*/
module HashMap {

  const HASH_MAP_OK: int := 0
  const HASH_MAP_DUPLICATE: int := -1
  const HASH_MAP_NOT_FOUND: int := -2

  type Key = string

  class Item {
    const key: Key
    var next: Item?

    constructor (key: Key)
      ensures this.key == key && next == null
    {
      this.key := key;
      next := null;
    }
  }

  /** What a callback tells the walk to do with the object it was called for. */
  datatype Verdict = Verdict(remove: bool, stop: bool)

  // ---------------------------------------------------------------------
  // Chains
  // ---------------------------------------------------------------------

  function At(items: seq<Item>, k: nat): Item? {
    if k < |items| then items[k] else null
  }

  /** The objects that a head pointer leads to. */
  ghost predicate Linked(head: Item?, items: seq<Item>)
    reads set it | it in items
  {
    head == At(items, 0) && forall k :: 0 <= k < |items| ==> items[k].next == At(items, k + 1)
  }

  predicate Distinct(items: seq<Item>) {
    forall a, b :: 0 <= a < b < |items| ==> items[a].key != items[b].key
  }

  /** Every object is in the chain of its hash, and no key occurs twice. */
  predicate Keyed(chains: seq<seq<Item>>, hash: Key -> nat) {
    && (forall i, a :: 0 <= i < |chains| && 0 <= a < |chains[i]| ==> hash(chains[i][a].key) == i)
    && forall i :: 0 <= i < |chains| ==> Distinct(chains[i])
  }

  predicate HasKey(items: seq<Item>, key: Key) {
    exists k :: 0 <= k < |items| && items[k].key == key
  }

  /** The finite map that the chains stand for. */
  ghost predicate Refines(chains: seq<seq<Item>>, hash: Key -> nat, m: map<Key, Item>) {
    && (forall i, a :: 0 <= i < |chains| && 0 <= a < |chains[i]| ==>
          chains[i][a].key in m && m[chains[i][a].key] == chains[i][a])
    && forall key :: key in m ==> hash(key) < |chains| && m[key].key == key && m[key] in chains[hash(key)]
  }

  ghost function All(chains: seq<seq<Item>>): set<Item> {
    set i, it | 0 <= i < |chains| && it in chains[i] :: it
  }

  class Map {
    const heads: array<Item?>
    const hash: Key -> nat
    ghost var chains: seq<seq<Item>>
    ghost var contents: map<Key, Item>

    ghost predicate Valid()
      reads this, heads, All(chains)
    {
      && |chains| == heads.Length
      && (forall key :: hash(key) < heads.Length)
      && (forall i :: 0 <= i < |chains| ==> Linked(heads[i], chains[i]))
      && Keyed(chains, hash)
      && Refines(chains, hash, contents)
    }

    constructor (size: nat, hash: Key -> nat)
      requires forall key :: hash(key) < size
      ensures Valid() && contents == map[] && fresh(heads)
      ensures this.hash == hash && heads.Length == size
    {
      heads := new Item?[size](_ => null);
      this.hash := hash;
      chains := seq(size, _ => []);
      contents := map[];
    }

    /** The object with a key, or null. */
    method Find(key: Key) returns (iter: Item?)
      requires Valid()
      ensures iter == if key in contents then contents[key] else null
    {
      ghost var c := chains[hash(key)];
      ghost var k: nat := 0;
      iter := heads[hash(key)];
      while iter != null
        invariant k <= |c| && iter == At(c, k)
        invariant forall a :: 0 <= a < k ==> c[a].key != key
        decreases |c| - k
      {
        if iter.key == key {
          break;
        }
        iter := iter.next;
        k := k + 1;
      }
    }

    /** The last object of a chain, unless the key is found on the way to it. */
    method FindTail(h: nat, key: Key) returns (found: bool, iter: Item?)
      requires Valid() && h == hash(key)
      ensures found <==> HasKey(chains[h], key)
      ensures iter == null <==> chains[h] == []
      ensures !found && iter != null ==> iter == chains[h][|chains[h]| - 1]
    {
      hide Keyed, Refines;
      ghost var c := chains[h];
      ghost var k: nat := 0;
      iter := heads[h];
      if iter == null {
        return false, null;
      }
      var next := iter.next;
      while true
        invariant k < |c| && iter == c[k] && next == At(c, k + 1)
        invariant forall a :: 0 <= a < k ==> c[a].key != key
        decreases |c| - k
      {
        if iter.key == key {
          return true, iter;
        }
        if next == null {
          break;
        }
        iter := next;
        next := iter.next;
        k := k + 1;
      }
      found := false;
    }

    /**
      Appends an object whose key is new to the chain of its hash. The map stays
      well formed exactly when the object's own link was null: it is not reset,
      neither here nor when an object is taken out.
    */
    method Insert(obj: Item) returns (ret: int)
      requires Valid()
      modifies this, heads, All(chains)
      ensures ret == if obj.key in old(contents) then HASH_MAP_DUPLICATE else HASH_MAP_OK
      ensures Valid() <==> ret == HASH_MAP_DUPLICATE || old(obj.next) == null
      ensures contents == if ret == HASH_MAP_OK then old(contents)[obj.key := obj] else old(contents)
      ensures hash(obj.key) < |old(chains)| && chains == if ret == HASH_MAP_OK
              then old(chains)[hash(obj.key) := old(chains)[hash(obj.key)] + [obj]] else old(chains)
    {
      hide Keyed, Refines, HasKey, Linked;
      var h := hash(obj.key);
      var found, tail := FindTail(h, obj.key);
      KeyPresent(chains, hash, contents, obj.key);
      if found {
        return HASH_MAP_DUPLICATE;
      }
      InsertRefines(chains, hash, contents, h, obj);
      ChainsApart(chains, hash);
      LinkedFacts(heads[h], chains[h]);
      if tail == null {
        heads[h] := obj;
      } else {
        assert tail in chains[h];
        tail.next := obj;
      }
      assert forall i :: 0 <= i < |chains| && i != h ==> Linked(heads[i], chains[i]);
      AppendLinked(heads[h], old(chains)[h], obj);
      assert Linked(heads[h], chains[h] + [obj]) <==> old(obj.next) == null;
      chains := chains[h := chains[h] + [obj]];
      contents := contents[obj.key := obj];
      ret := HASH_MAP_OK;
    }

    /** Takes the object at position `k` out of chain `i`; the object keeps its own link. */
    method Unlink(i: nat, ghost k: nat, prev: Item?, next: Item?)
      requires Valid() && i < |chains| && k < |chains[i]|
      requires prev == (if k == 0 then null else chains[i][k - 1]) && next == At(chains[i], k + 1)
      modifies this, heads, All(chains)
      ensures Valid()
      ensures chains == old(chains)[i := Drop(old(chains)[i], k)]
      ensures contents == old(contents) - {old(chains)[i][k].key}
      ensures old(chains)[i][k].next == next && All(chains) <= old(All(chains))
    {
      hide Keyed, Refines, Linked, Drop;
      DropRefines(chains, hash, contents, i, k);
      DropAll(chains, i, k);
      ChainsApart(chains, hash);
      LinkedFacts(heads[i], chains[i]);
      if prev == null {
        heads[i] := next;
      } else {
        assert prev in chains[i];
        prev.next := next;
      }
      assert forall j :: 0 <= j < |chains| && j != i ==> Linked(heads[j], chains[j]);
      DropLinked(heads[i], old(chains)[i], k);
      chains := chains[i := Drop(chains[i], k)];
      contents := contents - {old(chains)[i][k].key};
    }

    /** Removes an object, if it is the very one in the map. */
    method Remove(obj: Item) returns (ret: int)
      requires Valid()
      modifies this, heads, All(chains)
      ensures Valid()
      ensures ret == if obj.key in old(contents) && old(contents)[obj.key] == obj then HASH_MAP_OK
                     else HASH_MAP_NOT_FOUND
      ensures contents == if ret == HASH_MAP_OK then old(contents) - {obj.key} else old(contents)
      ensures ret == HASH_MAP_NOT_FOUND ==> chains == old(chains)
      ensures hash(obj.key) < |old(chains)|
      ensures ret == HASH_MAP_OK ==> exists k: nat :: DroppedAt(old(chains), chains, hash(obj.key), k, obj)
      ensures obj.next == old(obj.next)
    {
      hide Keyed, Refines, Linked;
      var h := hash(obj.key);
      ghost var c := chains[h];
      ObjectPresent(chains, hash, contents, obj);
      LinkedFacts(heads[h], c);
      if heads[h] == null {
        return HASH_MAP_NOT_FOUND;
      }
      if heads[h] == obj {
        Unlink(h, 0, null, obj.next);
        assert DroppedAt(old(chains), chains, h, 0, obj);
      } else {
        ghost var k: nat := 0;
        var iter := heads[h];
        var next := iter.next;
        while next != obj
          invariant k < |c| && iter == c[k] && next == At(c, k + 1)
          invariant forall a :: 0 <= a <= k ==> c[a] != obj
          decreases |c| - k
        {
          if next == null {
            return HASH_MAP_NOT_FOUND;
          }
          iter := next;
          next := iter.next;
          k := k + 1;
        }
        Unlink(h, k + 1, iter, obj.next);
        assert DroppedAt(old(chains), chains, h, k + 1, obj);
      }
      ret := HASH_MAP_OK;
    }

    /** One visit of a walk over a chain that first was `c`, of a map that first was `m`. */
    method Visit(i: nat, decide: (nat, Item) -> Verdict, n: nat, visited: seq<Item>, prev: Item?, iter: Item,
                 ghost c: seq<Item>, ghost m: map<Key, Item>)
      returns (last: Item?, next: Item?, verdict: Verdict)
      requires Valid() && i < |chains| && Distinct(c) && Within(c, m)
      requires visited <= c && |visited| < |c| && iter == c[|visited|]
      requires chains[i] == Remaining(c, visited, decide, n) && prev == LastKept(visited, decide, n)
      requires contents == Without(m, Gone(visited, decide, n))
      modifies this, heads, All(chains)
      ensures Valid() && All(chains) <= old(All(chains))
      ensures visited + [iter] <= c && next == At(c, |visited| + 1) && verdict == decide(n + |visited|, iter)
      ensures chains == old(chains)[i := Remaining(c, visited + [iter], decide, n)]
      ensures last == LastKept(visited + [iter], decide, n)
      ensures contents == Without(m, Gone(visited + [iter], decide, n))
    {
      hide Keyed, Refines, Linked, Keep, Gone, Without, Distinct, All, LastKept, Remaining;
      Visits(c, visited, decide, n);
      WithoutOne(m, Gone(visited, decide, n), iter);
      LinkedFacts(heads[i], chains[i]);
      ghost var k := |Keep(visited, Gone(visited, decide, n))|;
      RemainingAt(c, visited, decide, n);
      last, next, verdict := prev, iter.next, decide(n + |visited|, iter);
      if verdict.remove {
        Unlink(i, k, prev, next);
      } else {
        assert chains == old(chains)[i := chains[i]];
        last := iter;
      }
    }

    /** Walks one chain; `n` objects of other chains were visited before. */
    method WalkChain(i: nat, decide: (nat, Item) -> Verdict, n: nat) returns (stop: Item?, visited: seq<Item>)
      requires Valid() && i < |chains|
      modifies this, heads, All(chains)
      ensures Valid() && All(chains) <= old(All(chains))
      ensures Walked(old(chains)[i], decide, n, visited, stop)
      ensures chains == old(chains)[i := Keep(old(chains)[i], Gone(visited, decide, n))]
      ensures contents == Without(old(contents), Gone(visited, decide, n))
    {
      hide Keyed, Refines, Linked, Keep, Gone, Without, Distinct, All, LastKept, Remaining, Within, Walked, NoStops,
           Walking;
      ghost var before, m := chains, contents;
      var prev: Item? := null;
      var iter := heads[i];
      visited := [];
      BeginWalk(i, decide, n);
      while iter != null
        invariant Walking(before, m, i, decide, n, visited, prev, iter) && All(chains) <= old(All(chains))
        decreases Ahead(before, i, visited)
      {
        var next, last, verdict;
        last, next, verdict := WalkOn(i, decide, n, visited, prev, iter, before, m);
        visited := visited + [iter];
        if verdict.stop {
          return iter, visited;
        }
        prev, iter := last, next;
      }
      EndWalk(i, decide, n, visited, prev, before, m);
      stop := null;
    }

    /** The state of a walk over chain `i` of `before`, after these visits. */
    ghost predicate Walking(
        before: seq<seq<Item>>, m: map<Key, Item>, i: nat, decide: (nat, Item) -> Verdict, n: nat, visited: seq<Item>,
        prev: Item?, iter: Item?)
      reads this, heads, All(chains)
    {
      && Valid() && i < |before| && visited <= before[i] && iter == At(before[i], |visited|)
      && Distinct(before[i]) && Within(before[i], m)
      && chains == before[i := Remaining(before[i], visited, decide, n)]
      && prev == LastKept(visited, decide, n) && contents == Without(m, Gone(visited, decide, n))
      && NoStops(visited, decide, n)
    }

    ghost function Ahead(before: seq<seq<Item>>, i: nat, visited: seq<Item>): nat {
      if i < |before| && |visited| <= |before[i]| then |before[i]| - |visited| else 0
    }

    lemma BeginWalk(i: nat, decide: (nat, Item) -> Verdict, n: nat)
      requires Valid() && i < |chains|
      ensures Walking(chains, contents, i, decide, n, [], null, heads[i])
    {
      hide Keyed, Refines, Keep, Gone, Without, Distinct, LastKept, Remaining, Within, NoStops;
      WalkStarts(chains[i], decide, n, contents);
      KeyedFacts(chains, hash, contents, i);
      LinkedFacts(heads[i], chains[i]);
      assert chains == chains[i := chains[i]];
    }

    /** One visit, and what is left if it was the last one. */
    method WalkOn(i: nat, decide: (nat, Item) -> Verdict, n: nat, visited: seq<Item>, prev: Item?, iter: Item,
                  ghost before: seq<seq<Item>>, ghost m: map<Key, Item>)
      returns (last: Item?, next: Item?, verdict: Verdict)
      requires Walking(before, m, i, decide, n, visited, prev, iter)
      modifies this, heads, All(chains)
      ensures Valid() && All(chains) <= old(All(chains))
      ensures Ahead(before, i, visited + [iter]) < Ahead(before, i, visited)
      ensures if verdict.stop then
                && i < |before| && Walked(before[i], decide, n, visited + [iter], iter)
                && chains == before[i := Keep(before[i], Gone(visited + [iter], decide, n))]
                && contents == Without(m, Gone(visited + [iter], decide, n))
              else Walking(before, m, i, decide, n, visited + [iter], last, next)
    {
      hide Keyed, Refines, Linked, Keep, Gone, Without, Distinct, All, LastKept, Remaining, Within, Walked, NoStops;
      ghost var c := before[i];
      last, next, verdict := Visit(i, decide, n, visited, prev, iter, c, m);
      WalksOn(c, decide, n, visited, iter);
      if verdict.stop {
        RemainingEnd(c, visited + [iter], decide, n);
      }
    }

    /** The end of the chain. */
    method EndWalk(i: nat, decide: (nat, Item) -> Verdict, n: nat, visited: seq<Item>, prev: Item?,
                   ghost before: seq<seq<Item>>, ghost m: map<Key, Item>)
      requires Walking(before, m, i, decide, n, visited, prev, null)
      modifies heads
      ensures Valid() && i < |before| && Walked(before[i], decide, n, visited, null)
      ensures chains == before[i := Keep(before[i], Gone(visited, decide, n))]
      ensures contents == Without(m, Gone(visited, decide, n))
    {
      hide Keyed, Refines, Linked, Keep, Gone, Without, Distinct, All, LastKept, Remaining, Within, Walked, NoStops;
      RemainingEnd(before[i], visited, decide, n);
      WalkEnds(before[i], decide, n, visited);
      EmptyChain(heads[i], chains[i], before[i], visited, decide, n);
      ResetEmpty(i, prev);
    }

    /** The head of a chain of which nothing was kept is cleared; it is null already. */
    method ResetEmpty(i: nat, prev: Item?)
      requires Valid() && i < |chains| && (prev == null ==> heads[i] == null)
      modifies heads
      ensures Valid() && heads[..] == old(heads[..])
    {
      hide Keyed, Refines, Linked, All;
      if prev == null {
        heads[i] := null;
        assert heads[..] == old(heads[..]);
      }
    }

    /**
      Walks all chains. The objects visited are a prefix of the chains in order,
      all of them unless the callback stops; those it flags are taken out.
    */
    method Walk(decide: (nat, Item) -> Verdict) returns (stop: Item?, visited: seq<Item>)
      requires Valid()
      modifies this, heads, All(chains)
      ensures Valid()
      ensures Walked(Flat(old(chains), |old(chains)|), decide, 0, visited, stop)
      ensures chains == KeepEach(old(chains), Gone(visited, decide, 0))
      ensures contents == Without(old(contents), Gone(visited, decide, 0))
    {
      hide Keyed, Refines, Linked, Keep, Gone, Without, All, Walked, NoStops, KeepEach;
      ghost var was := chains;
      visited := [];
      WalkAllStarts(was, decide, contents);
      var i := 0;
      while i < heads.Length
        invariant i <= |was| == heads.Length && Valid() && All(chains) <= old(All(chains))
        invariant visited == Flat(was, i) && NoStops(visited, decide, 0)
        invariant chains == KeepEach(was, Gone(visited, decide, 0))
        invariant contents == Without(old(contents), Gone(visited, decide, 0))
      {
        KeptSoFar(was, hash, i, decide);
        var v;
        stop, v := WalkChain(i, decide, |visited|);
        WalkedMore(was, hash, i, v, stop, decide, old(contents));
        visited := visited + v;
        if stop != null {
          return;
        }
        i := i + 1;
      }
      WalkEnds(visited, decide, 0, visited);
      stop := null;
    }
  }

  /** Objects of different chains differ. */
  lemma ChainsApart(chains: seq<seq<Item>>, hash: Key -> nat)
    requires Keyed(chains, hash)
    ensures forall i, j, it :: 0 <= i < |chains| && 0 <= j < |chains| && i != j && it in chains[i] ==> it !in chains[j]
    ensures forall i, a, b :: 0 <= i < |chains| && 0 <= a < b < |chains[i]| ==> chains[i][a] != chains[i][b]
  {
  }

  lemma KeyPresent(chains: seq<seq<Item>>, hash: Key -> nat, m: map<Key, Item>, key: Key)
    requires Refines(chains, hash, m) && hash(key) < |chains|
    ensures HasKey(chains[hash(key)], key) <==> key in m
  {
    if key in m {
      assert m[key] in chains[hash(key)];
    }
  }

  lemma LinkedFacts(head: Item?, c: seq<Item>)
    requires Linked(head, c)
    ensures head == At(c, 0) && forall k :: 0 <= k < |c| ==> c[k].next == At(c, k + 1)
  {
  }

  lemma AppendLinked(head: Item?, c: seq<Item>, obj: Item)
    requires if c == [] then head == obj else head == c[0] && c[|c| - 1].next == obj
    requires forall k :: 0 <= k < |c| - 1 ==> c[k].next == c[k + 1]
    ensures Linked(head, c + [obj]) <==> obj.next == null
  {
    assert (c + [obj])[|c|] == obj;
  }

  /** A new key at the end of its chain. */
  lemma InsertRefines(chains: seq<seq<Item>>, hash: Key -> nat, m: map<Key, Item>, h: nat, obj: Item)
    requires Keyed(chains, hash) && Refines(chains, hash, m)
    requires h == hash(obj.key) < |chains| && !HasKey(chains[h], obj.key)
    ensures obj.key !in m && forall i :: 0 <= i < |chains| ==> obj !in chains[i]
    ensures var more := chains[h := chains[h] + [obj]];
            Keyed(more, hash) && Refines(more, hash, m[obj.key := obj])
  {
  }

  function Drop(c: seq<Item>, k: nat): seq<Item>
    requires k < |c|
  {
    c[..k] + c[k + 1..]
  }

  /** Chain `i` lost the object at position `k` and nothing else changed. */
  predicate DroppedAt(before: seq<seq<Item>>, after: seq<seq<Item>>, i: nat, k: nat, obj: Item) {
    i < |before| && k < |before[i]| && before[i][k] == obj && after == before[i := Drop(before[i], k)]
  }

  lemma DropLinked(head: Item?, c: seq<Item>, k: nat)
    requires k < |c|
    requires head == if k == 0 then At(c, 1) else c[0]
    requires k > 0 ==> c[k - 1].next == At(c, k + 1)
    requires forall a :: 0 <= a < |c| && a != k && a + 1 != k ==> c[a].next == At(c, a + 1)
    ensures Linked(head, Drop(c, k))
  {
    var d := Drop(c, k);
    forall a | 0 <= a < |d|
      ensures d[a].next == At(d, a + 1)
    {
      if a >= k {
        assert d[a] == c[a + 1];
      }
    }
  }

  lemma DropAt(c: seq<Item>, k: nat, a: nat)
    requires k < |c| && a < |c| - 1
    ensures |Drop(c, k)| == |c| - 1 && Drop(c, k)[a] == c[if a < k then a else a + 1]
  {
  }

  lemma DropHas(c: seq<Item>, k: nat)
    requires k < |c| && Distinct(c)
    ensures Distinct(Drop(c, k))
    ensures forall a :: 0 <= a < |Drop(c, k)| ==> Drop(c, k)[a] in c && Drop(c, k)[a] != c[k]
    ensures forall a :: 0 <= a < |c| && a != k ==> c[a] in Drop(c, k)
  {
    hide Drop;
    var d := Drop(c, k);
    assert |d| == |c| - 1 by { DropLength(c, k); }
    forall a, b | 0 <= a < b < |d|
      ensures d[a].key != d[b].key
    {
      DropAt(c, k, a);
      DropAt(c, k, b);
    }
    forall a | 0 <= a < |c| && a != k
      ensures c[a] in d
    {
      DropAt(c, k, if a < k then a else a - 1);
    }
    forall a | 0 <= a < |d|
      ensures d[a] in c && d[a] != c[k]
    {
      DropAt(c, k, a);
    }
  }

  lemma DropLength(c: seq<Item>, k: nat)
    requires k < |c|
    ensures |Drop(c, k)| == |c| - 1
  {
  }

  lemma DropAll(chains: seq<seq<Item>>, i: nat, k: nat)
    requires i < |chains| && k < |chains[i]|
    ensures All(chains[i := Drop(chains[i], k)]) <= All(chains)
  {
    var c, less := chains[i], chains[i := Drop(chains[i], k)];
    forall it | it in All(less)
      ensures it in All(chains)
    {
      var j :| 0 <= j < |less| && it in less[j];
      assert j == i ==> it in c[..k] || it in c[k + 1..];
      assert it in chains[j];
    }
  }

  lemma DropRefines(chains: seq<seq<Item>>, hash: Key -> nat, m: map<Key, Item>, i: nat, k: nat)
    requires Keyed(chains, hash) && Refines(chains, hash, m) && i < |chains| && k < |chains[i]|
    ensures var less := chains[i := Drop(chains[i], k)];
            Keyed(less, hash) && Refines(less, hash, m - {chains[i][k].key})
  {
    hide Drop, Distinct;
    var d := Drop(chains[i], k);
    DropHas(chains[i], k);
    var less := chains[i := d];
    forall j, a | 0 <= j < |less| && 0 <= a < |less[j]|
      ensures less[j][a] in chains[j] && less[j][a] != chains[i][k] && hash(less[j][a].key) == j
    {
      if j == i {
        assert d[a] in chains[i] && d[a] != chains[i][k];
      } else {
        assert chains[j][a] in chains[j];
      }
    }
  }

  lemma ObjectPresent(chains: seq<seq<Item>>, hash: Key -> nat, m: map<Key, Item>, obj: Item)
    requires Refines(chains, hash, m) && hash(obj.key) < |chains|
    ensures obj in chains[hash(obj.key)] <==> obj.key in m && m[obj.key] == obj
  {
  }

  // ---------------------------------------------------------------------
  // Walking
  // ---------------------------------------------------------------------

  /** Objects that the callback had removed, where `n` objects were visited before. */
  function Gone(visited: seq<Item>, decide: (nat, Item) -> Verdict, n: nat): set<Item> {
    if visited == [] then {}
    else
      var k := |visited| - 1;
      Gone(visited[..k], decide, n) + if decide(n + k, visited[k]).remove then {visited[k]} else {}
  }

  /** What is left of a chain, in its order. */
  function Keep(c: seq<Item>, gone: set<Item>): seq<Item> {
    if c == [] then []
    else Keep(c[..|c| - 1], gone) + if c[|c| - 1] in gone then [] else [c[|c| - 1]]
  }

  function Without(m: map<Key, Item>, gone: set<Item>): map<Key, Item> {
    map key | key in m && m[key] !in gone :: m[key]
  }

  /** A walk ends at the first object for which the callback says so, or at the end. */
  predicate Walked(c: seq<Item>, decide: (nat, Item) -> Verdict, n: nat, visited: seq<Item>, stop: Item?) {
    && visited <= c
    && (forall a :: 0 <= a < |visited| ==> (decide(n + a, visited[a]).stop <==> stop != null && a == |visited| - 1))
    && if stop == null then visited == c else visited != [] && stop == visited[|visited| - 1]
  }

  predicate NoStops(v: seq<Item>, decide: (nat, Item) -> Verdict, n: nat) {
    forall a :: 0 <= a < |v| ==> !decide(n + a, v[a]).stop
  }

  lemma WalksOn(c: seq<Item>, decide: (nat, Item) -> Verdict, n: nat, v: seq<Item>, x: Item)
    requires NoStops(v, decide, n) && v + [x] <= c
    ensures if decide(n + |v|, x).stop then Walked(c, decide, n, v + [x], x) else NoStops(v + [x], decide, n)
  {
  }

  lemma WalkEnds(c: seq<Item>, decide: (nat, Item) -> Verdict, n: nat, v: seq<Item>)
    requires NoStops(v, decide, n) && v == c
    ensures Walked(c, decide, n, v, null)
  {
  }

  /** A chain while it is walked: what was kept of the visited objects, and the others. */
  function Remaining(c: seq<Item>, v: seq<Item>, decide: (nat, Item) -> Verdict, n: nat): seq<Item>
    requires |v| <= |c|
  {
    Keep(v, Gone(v, decide, n)) + c[|v|..]
  }

  function LastKept(v: seq<Item>, decide: (nat, Item) -> Verdict, n: nat): Item? {
    var kept := Keep(v, Gone(v, decide, n));
    if kept == [] then null else kept[|kept| - 1]
  }

  lemma WalkStarts(c: seq<Item>, decide: (nat, Item) -> Verdict, n: nat, m: map<Key, Item>)
    ensures Remaining(c, [], decide, n) == c && LastKept([], decide, n) == null
    ensures Without(m, Gone([], decide, n)) == m && NoStops([], decide, n)
  {
  }

  ghost predicate Within(c: seq<Item>, m: map<Key, Item>) {
    && (forall a :: 0 <= a < |c| ==> c[a].key in m && m[c[a].key] == c[a])
    && forall key :: key in m ==> m[key].key == key
  }

  lemma RemainingAt(c: seq<Item>, v: seq<Item>, decide: (nat, Item) -> Verdict, n: nat)
    requires v <= c && |v| < |c|
    ensures var k, r := |Keep(v, Gone(v, decide, n))|, Remaining(c, v, decide, n);
            && k < |r| && r[k] == c[|v|] && At(r, k + 1) == At(c, |v| + 1)
            && LastKept(v, decide, n) == if k == 0 then null else r[k - 1]
  {
    hide Keep, Gone;
  }

  /** Just the visited objects for which the callback said so. */
  lemma {:induction false} GoneExact(v: seq<Item>, decide: (nat, Item) -> Verdict, n: nat, it: Item)
    ensures it in Gone(v, decide, n) <==> exists k :: 0 <= k < |v| && v[k] == it && decide(n + k, it).remove
    decreases |v|
  {
    if v != [] {
      var most := v[..|v| - 1];
      GoneExact(most, decide, n, it);
      if k :| 0 <= k < |v| && v[k] == it && decide(n + k, it).remove {
        assert k < |v| - 1 ==> most[k] == it;
      }
      if k :| 0 <= k < |most| && most[k] == it && decide(n + k, it).remove {
        assert v[k] == it;
      }
    }
  }

  /** `a` and `b` stand in `c` one behind the other. */
  predicate Behind(c: seq<Item>, a: Item, b: Item) {
    exists i, j :: 0 <= i < j < |c| && c[i] == a && c[j] == b
  }

  /** What is kept are the objects that are not gone, one behind the other as before. */
  lemma {:induction false} KeepExact(c: seq<Item>, gone: set<Item>)
    ensures forall it :: it in Keep(c, gone) <==> it in c && it !in gone
    ensures forall a :: 0 <= a < |Keep(c, gone)| ==> Keep(c, gone)[a] in c
    ensures forall a, b :: 0 <= a < b < |Keep(c, gone)| ==> Behind(c, Keep(c, gone)[a], Keep(c, gone)[b])
    decreases |c|
  {
    if c != [] {
      var most, x := c[..|c| - 1], c[|c| - 1];
      KeepExact(most, gone);
      assert c == most + [x];
      var kept := Keep(c, gone);
      forall a, b | 0 <= a < b < |kept|
        ensures Behind(c, kept[a], kept[b])
      {
        if b < |Keep(most, gone)| {
          assert Behind(most, kept[a], kept[b]);
          var i, j :| 0 <= i < j < |most| && most[i] == kept[a] && most[j] == kept[b];
          assert c[i] == kept[a] && c[j] == kept[b];
        } else {
          var y := Keep(most, gone)[a];
          assert kept[a] == y && y in most;
          var i :| 0 <= i < |most| && most[i] == y;
          assert c[i] == kept[a] && c[|c| - 1] == kept[b];
        }
      }
    }
  }

  /** When no object of a chain was kept its head is null already. */
  lemma EmptyChain(head: Item?, d: seq<Item>, c: seq<Item>, v: seq<Item>, decide: (nat, Item) -> Verdict, n: nat)
    requires Linked(head, d) && v == c && d == Remaining(c, v, decide, n)
    ensures LastKept(v, decide, n) == null ==> head == null
  {
    hide Keep, Gone;
  }

  lemma KeyedFacts(chains: seq<seq<Item>>, hash: Key -> nat, m: map<Key, Item>, i: nat)
    requires Keyed(chains, hash) && Refines(chains, hash, m) && i < |chains|
    ensures Distinct(chains[i]) && Within(chains[i], m)
  {
  }

  lemma {:induction false} GoneVisited(v: seq<Item>, decide: (nat, Item) -> Verdict, n: nat)
    ensures forall it :: it in Gone(v, decide, n) ==> it in v
    decreases |v|
  {
    if v != [] {
      GoneVisited(v[..|v| - 1], decide, n);
    }
  }

  lemma {:induction false} KeepSame(c: seq<Item>, g: set<Item>, g': set<Item>)
    requires forall it :: it in c ==> (it in g <==> it in g')
    ensures Keep(c, g) == Keep(c, g')
    decreases |c|
  {
    if c != [] {
      KeepSame(c[..|c| - 1], g, g');
    }
  }

  /** One more visit. */
  lemma Visits(c: seq<Item>, v: seq<Item>, decide: (nat, Item) -> Verdict, n: nat)
    requires v <= c && |v| < |c| && Distinct(c)
    ensures var x, kept, g := c[|v|], Keep(v, Gone(v, decide, n)), Gone(v, decide, n);
            var v' := v + [x];
            && v' <= c
            && if decide(n + |v|, x).remove then
                 && Gone(v', decide, n) == g + {x}
                 && LastKept(v', decide, n) == LastKept(v, decide, n)
                 && |kept| < |Remaining(c, v, decide, n)|
                 && Remaining(c, v', decide, n) == Drop(Remaining(c, v, decide, n), |kept|)
               else
                 && Gone(v', decide, n) == g
                 && LastKept(v', decide, n) == x
                 && Remaining(c, v', decide, n) == Remaining(c, v, decide, n)
  {
    hide Keep, Gone, Distinct;
    var x, g := c[|v|], Gone(v, decide, n);
    var v', kept := v + [x], Keep(v, Gone(v, decide, n));
    VisitKeeps(c, v, decide, n);
    assert c[|v|..] == [x] + c[|v| + 1..];
    if decide(n + |v|, x).remove {
      assert (kept + c[|v|..])[..|kept|] == kept;
      assert (kept + c[|v|..])[|kept| + 1..] == c[|v| + 1..];
    }
  }

  lemma VisitKeeps(c: seq<Item>, v: seq<Item>, decide: (nat, Item) -> Verdict, n: nat)
    requires v <= c && |v| < |c| && Distinct(c)
    ensures var x, kept, g := c[|v|], Keep(v, Gone(v, decide, n)), Gone(v, decide, n);
            var v' := v + [x];
            if decide(n + |v|, x).remove then Gone(v', decide, n) == g + {x} && Keep(v', g + {x}) == kept
            else Gone(v', decide, n) == g && Keep(v', g) == kept + [x]
  {
    hide Distinct;
    var x, g := c[|v|], Gone(v, decide, n);
    var v' := v + [x];
    assert v'[..|v|] == v;
    GoneVisited(v, decide, n);
    NotVisited(c, v);
    KeepSame(v, g, g + {x});
  }

  lemma NotVisited(c: seq<Item>, v: seq<Item>)
    requires v <= c && |v| < |c| && Distinct(c)
    ensures c[|v|] !in v
  {
  }

  lemma WithoutOne(m: map<Key, Item>, g: set<Item>, x: Item)
    requires x.key in m && m[x.key] == x && forall key :: key in m ==> m[key].key == key
    ensures Without(m, g + {x}) == Without(m, g) - {x.key}
  {
  }

  lemma RemainingEnd(c: seq<Item>, v: seq<Item>, decide: (nat, Item) -> Verdict, n: nat)
    requires v <= c && Distinct(c)
    ensures Remaining(c, v, decide, n) == Keep(c, Gone(v, decide, n))
    decreases |c|
  {
    var g := Gone(v, decide, n);
    if |v| < |c| {
      var most := c[..|c| - 1];
      RemainingEnd(most, v, decide, n);
      GoneVisited(v, decide, n);
      NotVisited(c, most);
      assert c[|v|..] == most[|v|..] + [c[|c| - 1]];
      assert Keep(c, g) == Keep(most, g) + [c[|c| - 1]];
    } else {
      assert v == c;
    }
  }

  // ---------------------------------------------------------------------
  // All chains
  // ---------------------------------------------------------------------

  /** The objects of the first `n` chains, in order. */
  function Flat(chains: seq<seq<Item>>, n: nat): seq<Item>
    requires n <= |chains|
  {
    if n == 0 then [] else Flat(chains, n - 1) + chains[n - 1]
  }

  function KeepEach(chains: seq<seq<Item>>, gone: set<Item>): (r: seq<seq<Item>>)
    ensures |r| == |chains| && forall j :: 0 <= j < |chains| ==> r[j] == Keep(chains[j], gone)
  {
    seq(|chains|, j requires 0 <= j < |chains| => Keep(chains[j], gone))
  }

  lemma {:induction false} KeepNothing(c: seq<Item>)
    ensures Keep(c, {}) == c
    decreases |c|
  {
    if c != [] {
      KeepNothing(c[..|c| - 1]);
    }
  }

  lemma WalkAllStarts(chains: seq<seq<Item>>, decide: (nat, Item) -> Verdict, m: map<Key, Item>)
    ensures KeepEach(chains, Gone([], decide, 0)) == chains
    ensures Without(m, Gone([], decide, 0)) == m && NoStops([], decide, 0)
  {
    forall j | 0 <= j < |chains|
      ensures Keep(chains[j], {}) == chains[j]
    {
      KeepNothing(chains[j]);
    }
  }

  lemma {:induction false} FlatHas(chains: seq<seq<Item>>, n: nat, it: Item)
    requires n <= |chains| && it in Flat(chains, n)
    ensures exists j :: 0 <= j < n && it in chains[j]
    decreases n
  {
    if it !in chains[n - 1] {
      FlatHas(chains, n - 1, it);
    }
  }

  /** Objects of a chain are not among those of the chains before it. */
  lemma FlatApart(chains: seq<seq<Item>>, hash: Key -> nat, n: nat, j: nat, a: nat)
    requires Keyed(chains, hash) && n <= j < |chains| && a < |chains[j]|
    ensures chains[j][a] !in Flat(chains, n)
  {
    hide Keyed;
    ChainsApart(chains, hash);
    if chains[j][a] in Flat(chains, n) {
      FlatHas(chains, n, chains[j][a]);
    }
  }

  /** A chain that was not reached is whole. */
  lemma KeptSoFar(was: seq<seq<Item>>, hash: Key -> nat, i: nat, decide: (nat, Item) -> Verdict)
    requires Keyed(was, hash) && i < |was|
    ensures forall j :: i <= j < |was| ==> Keep(was[j], Gone(Flat(was, i), decide, 0)) == was[j]
  {
    hide Keyed, Gone, Keep;
    var g := Gone(Flat(was, i), decide, 0);
    GoneVisited(Flat(was, i), decide, 0);
    forall j | i <= j < |was|
      ensures Keep(was[j], g) == was[j]
    {
      forall a | 0 <= a < |was[j]|
        ensures was[j][a] !in g
      {
        FlatApart(was, hash, i, j, a);
      }
      KeepSame(was[j], g, {});
      KeepNothing(was[j]);
    }
  }

  lemma {:induction false} GoneConcat(v: seq<Item>, w: seq<Item>, decide: (nat, Item) -> Verdict, n: nat)
    ensures Gone(v + w, decide, n) == Gone(v, decide, n) + Gone(w, decide, n + |v|)
    decreases |w|
  {
    if w == [] {
      assert v + w == v;
    } else {
      var k := |w| - 1;
      assert (v + w)[..|v + w| - 1] == v + w[..k];
      GoneConcat(v, w[..k], decide, n);
    }
  }

  lemma {:induction false} FlatPrefix(chains: seq<seq<Item>>, i: nat, n: nat)
    requires i <= n <= |chains|
    ensures Flat(chains, i) <= Flat(chains, n)
    decreases n
  {
    if i < n {
      FlatPrefix(chains, i, n - 1);
    }
  }

  /** One more chain was walked. */
  lemma WalkedMore(was: seq<seq<Item>>, hash: Key -> nat, i: nat, v: seq<Item>, stop: Item?,
                   decide: (nat, Item) -> Verdict, m: map<Key, Item>)
    requires Keyed(was, hash) && i < |was| && NoStops(Flat(was, i), decide, 0)
    requires Walked(was[i], decide, |Flat(was, i)|, v, stop)
    ensures var u := Flat(was, i);
            var g, g' := Gone(u, decide, 0), Gone(v, decide, |u|);
            && Gone(u + v, decide, 0) == g + g'
            && KeepEach(was, g + g') == KeepEach(was, g)[i := Keep(was[i], g')]
            && Without(m, g + g') == Without(Without(m, g), g')
            && if stop == null then u + v == Flat(was, i + 1) && NoStops(u + v, decide, 0)
               else Walked(Flat(was, |was|), decide, 0, u + v, stop)
  {
    hide Keyed, Keep, Gone, NoStops;
    var u := Flat(was, i);
    GoneConcat(u, v, decide, 0);
    KeptMore(was, hash, i, v, decide);
    WalkedPrefix(was, i, v, stop, decide);
  }

  lemma KeptMore(was: seq<seq<Item>>, hash: Key -> nat, i: nat, v: seq<Item>, decide: (nat, Item) -> Verdict)
    requires Keyed(was, hash) && i < |was| && v <= was[i]
    ensures var g, g' := Gone(Flat(was, i), decide, 0), Gone(v, decide, |Flat(was, i)|);
            KeepEach(was, g + g') == KeepEach(was, g)[i := Keep(was[i], g')]
  {
    hide Keyed, Keep, Gone;
    var u := Flat(was, i);
    var g, g' := Gone(u, decide, 0), Gone(v, decide, |u|);
    GoneVisited(u, decide, 0);
    GoneVisited(v, decide, |u|);
    ChainsApart(was, hash);
    forall j | 0 <= j < |was|
      ensures Keep(was[j], g + g') == if j == i then Keep(was[i], g') else Keep(was[j], g)
    {
      if j == i {
        forall a | 0 <= a < |was[i]|
          ensures was[i][a] !in g
        {
          FlatApart(was, hash, i, i, a);
        }
        KeepSame(was[i], g + g', g');
      } else {
        KeepSame(was[j], g + g', g);
      }
    }
  }

  lemma WalkedPrefix(was: seq<seq<Item>>, i: nat, v: seq<Item>, stop: Item?, decide: (nat, Item) -> Verdict)
    requires i < |was| && NoStops(Flat(was, i), decide, 0)
    requires Walked(was[i], decide, |Flat(was, i)|, v, stop)
    ensures var u := Flat(was, i);
            if stop == null then u + v == Flat(was, i + 1) && NoStops(u + v, decide, 0)
            else Walked(Flat(was, |was|), decide, 0, u + v, stop)
  {
    hide Flat;
    var u := Flat(was, i);
    assert Flat(was, i + 1) == u + was[i] by { FlatStep(was, i); }
    FlatPrefix(was, i + 1, |was|);
    assert u + v <= u + was[i] <= Flat(was, |was|);
    forall a | 0 <= a < |u + v|
      ensures (u + v)[a] == if a < |u| then u[a] else v[a - |u|]
    {
    }
  }

  lemma FlatStep(chains: seq<seq<Item>>, i: nat)
    requires i < |chains|
    ensures Flat(chains, i + 1) == Flat(chains, i) + chains[i]
  {
  }

  /** The chains in order hold every object of the map once. */
  lemma {:induction false} FlatOnce(chains: seq<seq<Item>>, hash: Key -> nat, n: nat)
    requires Keyed(chains, hash) && n <= |chains|
    ensures forall a, b :: 0 <= a < b < |Flat(chains, n)| ==> Flat(chains, n)[a] != Flat(chains, n)[b]
    decreases n
  {
    hide Keyed;
    if n > 0 {
      FlatOnce(chains, hash, n - 1);
      ChainsApart(chains, hash);
      var u, c := Flat(chains, n - 1), chains[n - 1];
      forall a, b | 0 <= a < b < |u + c|
        ensures (u + c)[a] != (u + c)[b]
      {
        if a < |u| <= b {
          FlatApart(chains, hash, n - 1, n - 1, b - |u|);
        }
      }
    }
  }

  lemma {:induction false} FlatHolds(chains: seq<seq<Item>>, n: nat, j: nat, it: Item)
    requires j < n <= |chains| && it in chains[j]
    ensures it in Flat(chains, n)
    decreases n
  {
    if j < n - 1 {
      FlatHolds(chains, n - 1, j, it);
    }
  }

  lemma FlatIsMap(chains: seq<seq<Item>>, hash: Key -> nat, m: map<Key, Item>, it: Item)
    requires Refines(chains, hash, m)
    ensures it in Flat(chains, |chains|) <==> it.key in m && m[it.key] == it
  {
    if it in Flat(chains, |chains|) {
      FlatHas(chains, |chains|, it);
    }
    if it.key in m && m[it.key] == it {
      FlatHolds(chains, |chains|, hash(it.key), it);
    }
  }
}
