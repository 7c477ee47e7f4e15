/**
  Ordering the linearised free list by chunk address.

  The comparison looks only at the low 16 bits of an address, so it agrees with
  the order of offsets exactly when the page does not straddle a 64 KiB boundary;
  otherwise it rotates that order, so that it starts behind the boundary.
*/
module HeapSort {
  import opened Common
  import opened Tiling

  const UNIT: nat := 4
  const LOW16: nat := 0x10000

  /** Low 16 bits of the address of the chunk at offset `o`. */
  function Key(base: nat, o: nat): nat {
    (base + UNIT * o) % LOW16
  }

  /** The page's units do not cross a multiple of 64 KiB. */
  predicate NoStraddle(base: nat, total: nat) {
    base % LOW16 + UNIT * total <= LOW16
  }

  lemma KeyWithoutStraddle(base: nat, total: nat, o: nat)
    requires NoStraddle(base, total) && o < total
    ensures Key(base, o) == base % LOW16 + UNIT * o
  {}

  /** Addresses that are whole units: the keys keep the order of offsets iff the page does not straddle. */
  lemma KeyOrderExact(base: nat, total: nat)
    requires base % UNIT == 0 && UNIT * total <= LOW16
    ensures NoStraddle(base, total) <==>
            forall o: nat, p: nat :: o < p < total ==> Key(base, o) < Key(base, p)
  {
    if NoStraddle(base, total) {
      forall o: nat, p: nat | o < p < total
        ensures Key(base, o) < Key(base, p)
      {
        KeyWithoutStraddle(base, total, o);
        KeyWithoutStraddle(base, total, p);
      }
    } else {
      var p := (LOW16 - base % LOW16) / UNIT;
      assert 0 < p < total;
      assert Key(base, p) == 0;
      assert Key(base, p - 1) > Key(base, p);
    }
  }

  predicate KeySorted(base: nat, s: seq<nat>) {
    forall i, j :: 0 <= i < j < |s| ==> Key(base, s[i]) <= Key(base, s[j])
  }

  predicate Increasing(s: seq<nat>) {
    forall i, j :: 0 <= i < j < |s| ==> s[i] < s[j]
  }

  function InsertByKey(base: nat, x: nat, s: seq<nat>): seq<nat> {
    if s == [] then [x]
    else if Key(base, x) <= Key(base, s[0]) then [x] + s
    else [s[0]] + InsertByKey(base, x, s[1..])
  }

  /** The effect of the library sort with the low-16-bit comparison. */
  function SortByKey(base: nat, s: seq<nat>): seq<nat> {
    if s == [] then [] else InsertByKey(base, s[0], SortByKey(base, s[1..]))
  }

  lemma {:induction false} InsertByKeyElements(base: nat, x: nat, s: seq<nat>)
    ensures multiset(InsertByKey(base, x, s)) == multiset(s) + multiset{x}
    ensures |InsertByKey(base, x, s)| == |s| + 1
  {
    if s != [] && Key(base, x) > Key(base, s[0]) {
      InsertByKeyElements(base, x, s[1..]);
      assert s == [s[0]] + s[1..];
    }
  }

  lemma {:induction false} InsertByKeySorted(base: nat, x: nat, s: seq<nat>)
    requires KeySorted(base, s)
    ensures KeySorted(base, InsertByKey(base, x, s))
  {
    if s != [] && Key(base, x) > Key(base, s[0]) {
      var rest := InsertByKey(base, x, s[1..]);
      InsertByKeySorted(base, x, s[1..]);
      InsertByKeyElements(base, x, s[1..]);
      forall k | 0 <= k < |rest|
        ensures Key(base, s[0]) <= Key(base, rest[k])
      {
        assert rest[k] in multiset(rest);
        assert rest[k] == x || rest[k] in s[1..];
      }
    }
  }

  lemma {:induction false} InsertByKeySum(base: nat, x: nat, s: seq<nat>, m: Sizes)
    ensures SumOf(m, InsertByKey(base, x, s)) == SumOf(m, [x] + s)
  {
    if s != [] && Key(base, x) > Key(base, s[0]) {
      InsertByKeySum(base, x, s[1..], m);
      SumOfConcat(m, [x], s[1..]);
      SumOfConcat(m, [x], s);
      assert ([s[0]] + InsertByKey(base, x, s[1..]))[1..] == InsertByKey(base, x, s[1..]);
    }
  }

  /** Sorting permutes the list, so it keeps the total size. */
  lemma {:induction false} SortFacts(base: nat, s: seq<nat>, m: Sizes)
    ensures multiset(SortByKey(base, s)) == multiset(s)
    ensures |SortByKey(base, s)| == |s|
    ensures KeySorted(base, SortByKey(base, s))
    ensures SumOf(m, SortByKey(base, s)) == SumOf(m, s)
  {
    if s != [] {
      SortFacts(base, s[1..], m);
      var rest := SortByKey(base, s[1..]);
      InsertByKeyElements(base, s[0], rest);
      InsertByKeySorted(base, s[0], rest);
      InsertByKeySum(base, s[0], rest, m);
      SumOfConcat(m, [s[0]], rest);
      SumOfConcat(m, [s[0]], s[1..]);
      assert s == [s[0]] + s[1..];
    }
  }

  lemma NoRepeatsCount(s: seq<nat>)
    ensures NoRepeats(s) <==> forall x :: multiset(s)[x] <= 1
  {
    if NoRepeats(s) {
      forall x
        ensures multiset(s)[x] <= 1
      {
        CountAtMostOne(s, x);
      }
    } else {
      var i, j :| 0 <= i < j < |s| && s[i] == s[j];
      assert s == s[..j] + [s[j]] + s[j + 1..];
      assert s[i] in s[..j];
      assert multiset(s)[s[i]] >= 2;
    }
  }

  lemma {:induction false} CountAtMostOne(s: seq<nat>, x: nat)
    requires NoRepeats(s)
    ensures multiset(s)[x] <= 1
  {
    if s != [] {
      CountAtMostOne(s[1..], x);
      assert s == [s[0]] + s[1..];
      if s[0] == x {
        assert x !in s[1..];
      }
    }
  }

  lemma SortNoRepeats(base: nat, s: seq<nat>)
    requires NoRepeats(s)
    ensures NoRepeats(SortByKey(base, s))
  {
    SortFacts(base, s, map[]);
    NoRepeatsCount(s);
    NoRepeatsCount(SortByKey(base, s));
  }

  // ---------------------------------------------------------------------
  // The order of the sorted list
  // ---------------------------------------------------------------------

  /** First offset behind the boundary that a page straddles, or 0. */
  function WrapPoint(base: nat, total: nat): nat {
    if NoStraddle(base, total) then 0 else (LOW16 - base % LOW16 + UNIT - 1) / UNIT
  }

  /** Offsets from `w` on come first. */
  predicate Precedes(w: nat, o: nat, p: nat) {
    if o >= w <==> p >= w then o < p else o >= w
  }

  predicate Rotated(w: nat, s: seq<nat>) {
    forall i, j :: 0 <= i < j < |s| ==> Precedes(w, s[i], s[j])
  }

  lemma KeyOfOffset(base: nat, total: nat, o: nat)
    requires UNIT * total <= LOW16 && o < total
    ensures var behind := !NoStraddle(base, total) && o >= WrapPoint(base, total);
            Key(base, o) == base % LOW16 + UNIT * o - (if behind then LOW16 else 0)
  {
    var r := base % LOW16 + UNIT * o;
    assert Key(base, o) == r % LOW16;
    assert r < 2 * LOW16;
  }

  lemma KeyOrder(base: nat, total: nat, o: nat, p: nat)
    requires UNIT * total <= LOW16 && o < total && p < total
    ensures Key(base, o) < Key(base, p) <==> Precedes(WrapPoint(base, total), o, p)
  {
    hide Key;
    KeyOfOffset(base, total, o);
    KeyOfOffset(base, total, p);
  }

  /** The sorted list is in the order of offsets, from the boundary on and then up to it. */
  lemma SortRotated(base: nat, total: nat, s: seq<nat>)
    requires UNIT * total <= LOW16
    requires NoRepeats(s) && forall o :: o in s ==> o < total
    ensures Rotated(WrapPoint(base, total), SortByKey(base, s))
  {
    hide Key, WrapPoint, SortByKey;
    var r := SortByKey(base, s);
    SortFacts(base, s, map[]);
    SortNoRepeats(base, s);
    forall i, j | 0 <= i < j < |r|
      ensures Precedes(WrapPoint(base, total), r[i], r[j])
    {
      assert r[i] in multiset(r) && r[j] in multiset(r);
      assert r[i] in s && r[j] in s;
      KeyOrder(base, total, r[i], r[j]);
      KeyOrder(base, total, r[j], r[i]);
    }
  }

  /** Without a straddle the sorted list is strictly increasing in offset. */
  lemma SortIncreasing(base: nat, total: nat, s: seq<nat>)
    requires UNIT * total <= LOW16 && NoStraddle(base, total)
    requires NoRepeats(s) && forall o :: o in s ==> o < total
    ensures Increasing(SortByKey(base, s))
  {
    hide SortByKey;
    SortRotated(base, total, s);
  }
}
