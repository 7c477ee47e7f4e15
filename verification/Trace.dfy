/**
  Trace replay: the requests of a step are collected from a log in which steps
  interleave, sorted by their ids, and bound to the requests of the next
  workload of the chain.
*/
module Trace {
  import opened Common

  const STEP_OK: int := 0
  const STEP_ERROR: int := -2

  /** A log entry; `payload` stands for the fields replay only copies. */
  datatype Record = Record(step: nat, request: int, chainRequest: int, payload: int)

  // ---------------------------------------------------------------------
  // The records of a step
  // ---------------------------------------------------------------------

  /** Records of a step at positions `from..end`, in file order. */
  function Matching(file: seq<Record>, from: nat, end: nat, step: int): (r: seq<Record>)
    requires from <= end <= |file|
    ensures |r| <= end - from
    decreases end
  {
    if from == end then []
    else Matching(file, from, end - 1, step) + (if file[end - 1].step == step then [file[end - 1]] else [])
  }

  function Of(file: seq<Record>, step: int): seq<Record> {
    Matching(file, 0, |file|, step)
  }

  lemma {:induction false} MatchingSplit(file: seq<Record>, from: nat, mid: nat, end: nat, step: int)
    requires from <= mid <= end <= |file|
    ensures Matching(file, from, end, step) == Matching(file, from, mid, step) + Matching(file, mid, end, step)
    decreases end
  {
    if mid < end {
      MatchingSplit(file, from, mid, end - 1, step);
    }
  }

  lemma {:induction false} MatchingNone(file: seq<Record>, from: nat, end: nat, step: int)
    requires from <= end <= |file| && forall k :: from <= k < end ==> file[k].step != step
    ensures Matching(file, from, end, step) == []
    decreases end
  {
    if from < end {
      MatchingNone(file, from, end - 1, step);
    }
  }

  /** All records before `index` belong to steps up to `last`. */
  predicate Passed(file: seq<Record>, index: nat, last: int) {
    index <= |file| && forall k :: 0 <= k < index ==> file[k].step <= last
  }

  /** Skipping what was passed loses no record of a later step. */
  lemma PassedLosesNothing(file: seq<Record>, index: nat, last: int, step: int)
    requires Passed(file, index, last) && step > last
    ensures Matching(file, index, |file|, step) == Of(file, step)
  {
    MatchingSplit(file, 0, index, |file|, step);
    MatchingNone(file, 0, index, step);
  }

  /** First record of a later step in `from..end`, or `end`. */
  function NextIndex(file: seq<Record>, from: nat, end: nat, step: int): (k: nat)
    requires from <= end <= |file|
    ensures from <= k <= end && forall i :: from <= i < k ==> file[i].step <= step
    ensures k < end ==> file[k].step > step
    decreases end
  {
    if from == end then end
    else
      var k := NextIndex(file, from, end - 1, step);
      if k < end - 1 || file[end - 1].step > step then k else end
  }

  /** What the scan has noted: the first later record, or -1. */
  function Noted(file: seq<Record>, from: nat, end: nat, step: int): int
    requires from <= end <= |file|
  {
    if NextIndex(file, from, end, step) == end then -1 else NextIndex(file, from, end, step)
  }

  /** The scan for `n` records of a step stops right after the last of them. */
  predicate ScanEnds(file: seq<Record>, from: nat, step: int, n: nat, end: nat) {
    && from <= end <= |file|
    && |Matching(file, from, end, step)| == n
    && if n == 0 then end == from else end > from && file[end - 1].step == step
  }

  // ---------------------------------------------------------------------
  // Reads that fail
  // ---------------------------------------------------------------------

  /** Tells for each position whether reading it fails. */
  type Failing = nat -> bool

  function FirstFailing(fails: Failing, from: nat, end: nat): (k: nat)
    requires from <= end
    ensures from <= k <= end && (k < end ==> fails(k)) && forall i :: from <= i < k ==> !fails(i)
    decreases end - from
  {
    if from == end || fails(from) then from else FirstFailing(fails, from + 1, end)
  }

  /** The part of a log that a scan from `from` can reach. */
  function Seen(file: seq<Record>, from: nat, fails: Failing): seq<Record>
    requires from <= |file|
  {
    file[..FirstFailing(fails, from, |file|)]
  }

  lemma {:induction false} MatchingPrefix(file: seq<Record>, from: nat, end: nat, stop: nat, step: int)
    requires from <= end <= stop <= |file|
    ensures Matching(file[..stop], from, end, step) == Matching(file, from, end, step)
    decreases end
  {
    if from < end {
      MatchingPrefix(file, from, end - 1, stop, step);
    }
  }

  /** A scan that read up to `index` without a failure has the first reachable records. */
  lemma SeenSoFar(file: seq<Record>, from: nat, last: int, step: int, fails: Failing, index: nat)
    requires Passed(file, from, last) && step > last && from <= index <= |file|
    requires forall k :: from <= k < index ==> !fails(k)
    ensures Matching(file, from, index, step) <= Of(Seen(file, from, fails), step) <= Of(file, step)
    ensures index == |file| || fails(index) ==> Matching(file, from, index, step) == Of(Seen(file, from, fails), step)
  {
    hide Matching;
    var stop := FirstFailing(fails, from, |file|);
    MatchingPrefix(file, 0, stop, stop, step);
    MatchingSplit(file, 0, from, stop, step);
    MatchingNone(file, 0, from, step);
    MatchingSplit(file, from, index, stop, step);
    MatchingSplit(file, 0, stop, |file|, step);
  }

  // ---------------------------------------------------------------------
  // Sorting by id
  // ---------------------------------------------------------------------

  predicate Sorted(rs: seq<Record>) {
    forall i, j :: 0 <= i < j < |rs| ==> rs[i].request <= rs[j].request
  }

  /** Where a request with this id goes: after the last smaller one. */
  function Place(rs: seq<Record>, id: int): (p: nat)
    ensures p <= |rs|
    ensures p > 0 ==> rs[p - 1].request < id
    ensures forall k :: p <= k < |rs| ==> rs[k].request >= id
  {
    if rs == [] then 0
    else if rs[|rs| - 1].request < id then |rs|
    else Place(rs[..|rs| - 1], id)
  }

  function InsertAt<T>(s: seq<T>, p: nat, x: T): (r: seq<T>)
    requires p <= |s|
    ensures |r| == |s| + 1
  {
    s[..p] + [x] + s[p..]
  }

  function SortById(rs: seq<Record>): seq<Record> {
    if rs == [] then []
    else
      var sorted := SortById(rs[..|rs| - 1]);
      var r := rs[|rs| - 1];
      InsertAt(sorted, Place(sorted, r.request), r)
  }

  lemma InsertAtIndex<T>(s: seq<T>, p: nat, x: T, k: nat)
    requires p <= |s| && k <= |s|
    ensures InsertAt(s, p, x)[k] == if k < p then s[k] else if k == p then x else s[k - 1]
  {
  }

  lemma InsertKeepsSorted(rs: seq<Record>, r: Record)
    requires Sorted(rs)
    ensures Sorted(InsertAt(rs, Place(rs, r.request), r))
  {
    hide Place, InsertAt;
    var p := Place(rs, r.request);
    var t := InsertAt(rs, p, r);
    forall i, j | 0 <= i < j < |t|
      ensures t[i].request <= t[j].request
    {
      InsertAtIndex(rs, p, r, i);
      InsertAtIndex(rs, p, r, j);
      assert i < p ==> rs[i].request <= rs[p - 1].request;
    }
  }

  lemma InsertAdds<T>(s: seq<T>, p: nat, x: T)
    requires p <= |s|
    ensures multiset(InsertAt(s, p, x)) == multiset(s) + multiset{x}
  {
    assert s == s[..p] + s[p..];
  }

  /** Whatever the order of arrival, the list is sorted and holds what arrived. */
  lemma {:induction false} SortByIdSorts(rs: seq<Record>)
    ensures Sorted(SortById(rs)) && multiset(SortById(rs)) == multiset(rs) && |SortById(rs)| == |rs|
  {
    hide InsertAt, Place, Sorted;
    if rs != [] {
      var most, r := rs[..|rs| - 1], rs[|rs| - 1];
      SortByIdSorts(most);
      InsertKeepsSorted(SortById(most), r);
      InsertAdds(SortById(most), Place(SortById(most), r.request), r);
      assert rs == most + [r];
    } else {
      assert Sorted([]) by { SortedEmpty(); }
    }
  }

  lemma SortedEmpty()
    ensures Sorted([])
  {
  }

  lemma FetchedNone(file: seq<Record>, start: nat, step: int)
    requires start <= |file|
    ensures Matching(file, start, start, step) == [] && SortById([]) == [] && Noted(file, start, start, step) == -1
  {
  }

  /** One more record of the step. */
  lemma FetchedOne(file: seq<Record>, start: nat, index: nat, step: int)
    requires start <= index < |file| && file[index].step == step
    ensures var m := Matching(file, start, index, step);
            && Matching(file, start, index + 1, step) == m + [file[index]]
            && |Matching(file, start, index + 1, step)| == |m| + 1
            && SortById(m + [file[index]])
               == InsertAt(SortById(m), Place(SortById(m), file[index].request), file[index])
    ensures Noted(file, start, index + 1, step) == Noted(file, start, index, step)
  {
    hide InsertAt, Place;
    var m, r := Matching(file, start, index, step), file[index];
    assert (m + [r])[..|m + [r]| - 1] == m;
  }

  // ---------------------------------------------------------------------
  // Fetching
  // ---------------------------------------------------------------------

  class Request {
    const rqe: Record
    var chainNext: Request?

    constructor (rqe: Record)
      ensures this.rqe == rqe && chainNext == null
    {
      this.rqe := rqe;
      chainNext := null;
    }
  }

  function Values(rs: seq<Request>): (vs: seq<Record>)
    ensures |vs| == |rs| && forall k :: 0 <= k < |rs| ==> vs[k] == rs[k].rqe
  {
    seq(|rs|, k requires 0 <= k < |rs| => rs[k].rqe)
  }

  /** Distinct requests that are not bound yet. */
  ghost predicate Unbound(rs: seq<Request>)
    reads set r | r in rs
  {
    && (forall i, j :: 0 <= i < j < |rs| ==> rs[i] != rs[j])
    && forall k :: 0 <= k < |rs| ==> rs[k].chainNext == null
  }

  lemma UnboundInsert(rs: seq<Request>, p: nat, r: Request)
    requires Unbound(rs) && p <= |rs| && r !in rs && r.chainNext == null
    ensures Unbound(InsertAt(rs, p, r))
    ensures forall x :: x in InsertAt(rs, p, r) <==> x in rs || x == r
  {
    hide InsertAt;
    var t := InsertAt(rs, p, r);
    forall i, j | 0 <= i < j < |t|
      ensures t[i] != t[j]
    {
      InsertAtIndex(rs, p, r, i);
      InsertAtIndex(rs, p, r, j);
    }
    forall k | 0 <= k < |t|
      ensures t[k].chainNext == null && (t[k] == r || t[k] in rs)
    {
      InsertAtIndex(rs, p, r, k);
    }
    forall x | x in rs
      ensures x in t
    {
      var k :| 0 <= k < |rs| && rs[k] == x;
      InsertAtIndex(rs, p, r, if k < p then k else k + 1);
    }
    InsertAtIndex(rs, p, r, p);
  }

  lemma ValuesInsert(rs: seq<Request>, p: nat, r: Request)
    requires p <= |rs|
    ensures Values(InsertAt(rs, p, r)) == InsertAt(Values(rs), p, r.rqe)
  {
    hide InsertAt;
    var vs, t := Values(InsertAt(rs, p, r)), InsertAt(Values(rs), p, r.rqe);
    forall k | 0 <= k < |rs| + 1
      ensures vs[k] == t[k]
    {
      InsertAtIndex(rs, p, r, k);
      InsertAtIndex(Values(rs), p, r.rqe, k);
    }
  }

  class Workload {
    const file: seq<Record>
    var fileIndex: nat
    var requests: seq<Request>

    /** The last step that was fetched. */
    ghost var last: int

    ghost predicate Valid()
      reads this
      ensures Valid() ==> fileIndex <= |file|
    {
      Passed(file, fileIndex, last)
    }

    constructor (file: seq<Record>)
      ensures Valid() && this.file == file && requests == [] && last == -1
    {
      this.file := file;
      fileIndex, requests := 0, [];
      last := -1;
    }

    /** Searches backwards for a smaller id and inserts after it, or at the front. */
    method InsertRq(strq: Request)
      modifies this`requests
      ensures requests == InsertAt(old(requests), Place(Values(old(requests)), strq.rqe.request), strq)
      ensures Values(requests)
              == InsertAt(Values(old(requests)), Place(Values(old(requests)), strq.rqe.request), strq.rqe)
    {
      hide InsertAt, Values;
      ghost var vs := Values(requests);
      var p := |requests|;
      assert vs[..p] == vs;
      while p > 0
        invariant p <= |requests|
        invariant Place(vs, strq.rqe.request) == Place(vs[..p], strq.rqe.request)
      {
        if requests[p - 1].rqe.request < strq.rqe.request {
          break;
        }
        assert vs[..p][..p - 1] == vs[..p - 1];
        p := p - 1;
      }
      ValuesInsert(requests, p, strq);
      requests := InsertAt(requests, p, strq);
    }

    method LinkRecord(r: Record)
      requires Unbound(requests)
      modifies this`requests
      ensures Unbound(requests)
      ensures Values(requests) == InsertAt(Values(old(requests)), Place(Values(old(requests)), r.request), r)
      ensures forall x :: x in requests ==> x in old(requests) || fresh(x)
    {
      hide Place, InsertAt;
      var strq := new Request(r);
      InsertRq(strq);
      UnboundInsert(old(requests), Place(Values(old(requests)), r.request), strq);
    }

    /** Scans to the next record of the step, noting the first of a later one, until a read fails. */
    method ScanOn(step: int, fails: Failing, ghost start: nat, from: nat, noted: int)
        returns (failed: bool, index: nat, nextIndex: int)
      requires start <= from <= |file|
      requires noted == Noted(file, start, from, step)
      ensures from <= index <= |file| && forall k :: from <= k < index ==> !fails(k)
      ensures Matching(file, start, index, step) == Matching(file, start, from, step)
      ensures nextIndex == Noted(file, start, index, step)
      ensures if failed then index < |file| && fails(index)
              else index < |file| ==> file[index].step == step && !fails(index)
      ensures index == |file| && from < |file| ==> file[|file| - 1].step != step
    {
      failed, index, nextIndex := false, from, noted;
      while index < |file|
        invariant from <= index <= |file| && forall k :: from <= k < index ==> !fails(k)
        invariant Matching(file, start, index, step) == Matching(file, start, from, step)
        invariant nextIndex == Noted(file, start, index, step)
        invariant from < index ==> file[index - 1].step != step
      {
        if fails(index) {
          failed := true;
          break;
        }
        if file[index].step == step {
          break;
        } else if file[index].step > step && nextIndex == -1 {
          nextIndex := index;
        }
        index := index + 1;
      }
    }

    /**
      Collects `n` records of a step later than all those fetched before. It
      succeeds exactly when the log has that many before the first read that
      fails, wherever they lie. The request that was made for the next record is
      freed when a read fails, but not when the log ends.
    */
    method FetchStep(step: int, n: nat, fails: Failing) returns (ret: int, leaked: bool)
      requires Valid() && requests == [] && step > last
      modifies this
      ensures Valid() && last == step
      ensures ret == if n <= |Of(Seen(file, old(fileIndex), fails), step)| then STEP_OK else STEP_ERROR
      ensures Unbound(requests) && (forall x :: x in requests ==> fresh(x))
      ensures ret == STEP_OK ==>
                && n <= |Of(file, step)| && Of(Seen(file, old(fileIndex), fails), step)[..n] == Of(file, step)[..n]
                && Values(requests) == SortById(Of(file, step)[..n])
                && exists end :: && ScanEnds(file, old(fileIndex), step, n, end)
                                 && fileIndex == NextIndex(file, old(fileIndex), end, step)
      ensures ret == STEP_ERROR ==> fileIndex == old(fileIndex)
      ensures leaked <==> ret == STEP_ERROR && old(fileIndex) < |file| && file[|file| - 1].step != step
                          && FirstFailing(fails, old(fileIndex), |file|) == |file|
    {
      hide Matching, NextIndex, InsertAt, Place, SortById, Seen, Of;
      ghost var start, before := fileIndex, last;
      var nextIndex: int, index := -1, fileIndex;
      var fetched, failed := 0, false;
      leaked := false;
      FetchedNone(file, start, step);
      SeenSoFar(file, start, before, step, fails, index);
      last := step;
      while fetched < n
        invariant start == fileIndex <= index <= |file| && fetched <= n && last == step > before
        invariant ScanEnds(file, start, step, fetched, index)
        invariant Values(requests) == SortById(Matching(file, start, index, step))
        invariant nextIndex == Noted(file, start, index, step)
        invariant forall k :: start <= k < index ==> !fails(k)
        invariant Unbound(requests) && (forall x :: x in requests ==> fresh(x)) && !leaked
        decreases n - fetched
      {
        if index == |file| {
          SeenSoFar(file, start, before, step, fails, index);
          return STEP_ERROR, false;
        }
        failed, index, nextIndex := ScanOn(step, fails, start, index, nextIndex);
        SeenSoFar(file, start, before, step, fails, index);
        if failed {
          return STEP_ERROR, false;
        }
        if index == |file| {
          return STEP_ERROR, true;
        }
        FetchedOne(file, start, index, step);
        LinkRecord(file[index]);
        index := index + 1;
        fetched := fetched + 1;
      }
      SeenSoFar(file, start, before, step, fails, index);
      assert Of(file, step)[..n] == Matching(file, start, index, step);
      if nextIndex == -1 {
        nextIndex := index;
      }
      fileIndex := nextIndex;
      ret := STEP_OK;
    }
  }

  // ---------------------------------------------------------------------
  // Binding
  // ---------------------------------------------------------------------

  /** Requests of the next workload that are bound once `k` requests have been looked at. */
  function Taken(p: seq<Record>, c: seq<Record>, k: nat): (t: nat)
    requires k <= |p|
    ensures t <= |c|
  {
    if k == 0 then 0
    else
      var t := Taken(p, c, k - 1);
      if t < |c| && p[k - 1].request == c[t].request then t + 1 else t
  }

  function Link(p: seq<Record>, c: seq<Record>, k: nat): (j: Option<nat>)
    requires k < |p|
    ensures j.Some? ==> j.value < |c| && p[k].request == c[j.value].request
  {
    var t := Taken(p, c, k);
    if t < |c| && p[k].request == c[t].request then Some(t) else None
  }

  predicate StrictlySorted(rs: seq<Record>) {
    forall i, j :: 0 <= i < j < |rs| ==> rs[i].request < rs[j].request
  }

  /** One of the first `n` requests has this id. */
  predicate HasId(rs: seq<Record>, n: nat, id: int) {
    exists k :: 0 <= k < n <= |rs| && rs[k].request == id
  }

  /** What was bound was found among the requests looked at, and what comes next was not. */
  lemma {:induction false} TakenFacts(p: seq<Record>, c: seq<Record>, k: nat)
    requires k <= |p| && StrictlySorted(p) && StrictlySorted(c)
    ensures forall j :: 0 <= j < Taken(p, c, k) ==> HasId(p, k, c[j].request)
    ensures Taken(p, c, k) < |c| ==> !HasId(p, k, c[Taken(p, c, k)].request)
  {
    if k > 0 {
      TakenFacts(p, c, k - 1);
      var t := Taken(p, c, k - 1);
      if Taken(p, c, k) == t + 1 {
        assert HasId(p, k, c[t].request);
      }
      forall j | 0 <= j < t
        ensures HasId(p, k, c[j].request)
      {
        assert HasId(p, k - 1, c[j].request);
      }
    }
  }

  /**
    With distinct ids in order, a request is bound to the one with its id exactly
    when every smaller id of the next workload occurs among the requests, too:
    one that does not stops the merge for good.
  */
  lemma LinkExact(p: seq<Record>, c: seq<Record>, k: nat, j: nat)
    requires StrictlySorted(p) && StrictlySorted(c) && k < |p| && j < |c|
    ensures Link(p, c, k) == Some(j) <==>
            p[k].request == c[j].request && forall i :: 0 <= i < j ==> HasId(p, |p|, c[i].request)
  {
    hide Taken;
    var t := Taken(p, c, k);
    TakenFacts(p, c, k);
    if Link(p, c, k) == Some(j) {
      forall i | 0 <= i < j
        ensures HasId(p, |p|, c[i].request)
      {
        assert HasId(p, k, c[i].request);
      }
    }
  }

  /** The request that the one at `k` is to be bound to. */
  ghost function Target(parents: seq<Request>, chain: seq<Request>, k: nat): Request?
    requires k < |parents|
  {
    match Link(Values(parents), Values(chain), k)
    case None => null
    case Some(j) => chain[j]
  }

  ghost predicate Bound(parents: seq<Request>, chain: seq<Request>)
    reads set r | r in parents
  {
    forall k :: 0 <= k < |parents| ==> parents[k].chainNext == Target(parents, chain, k)
  }

  /** Walks both lists once, moving on in the second one at every match. */
  method Bind(parents: seq<Request>, chain: seq<Request>)
    requires Unbound(parents)
    modifies set r | r in parents
    ensures Bound(parents, chain)
  {
    hide Taken, Link, Values;
    ghost var p, c := Values(parents), Values(chain);
    var k, t := 0, 0;
    TakenStart(p, c);
    while k < |parents|
      invariant k <= |parents| && t == Taken(p, c, k)
      invariant forall i :: 0 <= i < k ==> parents[i].chainNext == Target(parents, chain, i)
      invariant forall i :: k <= i < |parents| ==> parents[i].chainNext == null
    {
      if t == |chain| {
        TakenAll(p, c, k);
        break;
      }
      TakenStep(p, c, k);
      if parents[k].rqe.request == chain[t].rqe.request {
        parents[k].chainNext := chain[t];
        t := t + 1;
      }
      k := k + 1;
    }
  }

  lemma TakenStart(p: seq<Record>, c: seq<Record>)
    ensures Taken(p, c, 0) == 0
  {
  }

  lemma TakenStep(p: seq<Record>, c: seq<Record>, k: nat)
    requires k < |p| && Taken(p, c, k) < |c|
    ensures var t := Taken(p, c, k);
            if p[k].request == c[t].request
            then Link(p, c, k) == Some(t) && Taken(p, c, k + 1) == t + 1
            else Link(p, c, k) == None && Taken(p, c, k + 1) == t
  {
  }

  /** Once the second list is exhausted nothing more is bound. */
  lemma {:induction false} TakenAll(p: seq<Record>, c: seq<Record>, k: nat)
    requires k <= |p| && Taken(p, c, k) == |c|
    ensures forall i :: k <= i < |p| ==> Link(p, c, i) == None
  {
    forall i | k <= i < |p|
      ensures Link(p, c, i) == None
    {
      TakenStays(p, c, k, i);
    }
  }

  lemma {:induction false} TakenStays(p: seq<Record>, c: seq<Record>, k: nat, i: nat)
    requires k <= i <= |p| && Taken(p, c, k) == |c|
    ensures Taken(p, c, i) == |c|
    decreases i
  {
    if k < i {
      TakenStays(p, c, k, i - 1);
    }
  }

  /** Requests that continue in the next workload. */
  function Chained(rs: seq<Record>): nat {
    if rs == [] then 0
    else Chained(rs[..|rs| - 1]) + if rs[|rs| - 1].chainRequest >= 0 then 1 else 0
  }

  lemma {:induction false} ChainedExact(rs: seq<Record>)
    ensures Chained(rs) == |set k | 0 <= k < |rs| && rs[k].chainRequest >= 0|
    decreases |rs|
  {
    if rs != [] {
      var most, last := rs[..|rs| - 1], |rs| - 1;
      ChainedExact(most);
      var before := set k | 0 <= k < |most| && most[k].chainRequest >= 0;
      var all := set k | 0 <= k < |rs| && rs[k].chainRequest >= 0;
      assert all == before + if rs[last].chainRequest >= 0 then {last} else {};
    }
  }

  method CountChained(requests: seq<Request>) returns (count: nat)
    ensures count == Chained(Values(requests))
    ensures count == |set k | 0 <= k < |requests| && requests[k].rqe.chainRequest >= 0|
  {
    ghost var vs := Values(requests);
    ChainedExact(vs);
    assert (set k | 0 <= k < |requests| && requests[k].rqe.chainRequest >= 0)
        == set k | 0 <= k < |vs| && vs[k].chainRequest >= 0;
    count := 0;
    for k := 0 to |requests|
      invariant count == Chained(vs[..k])
    {
      assert vs[..k + 1][..k] == vs[..k];
      if requests[k].rqe.chainRequest >= 0 {
        count := count + 1;
      }
    }
    assert vs[..|requests|] == vs;
  }

  // ---------------------------------------------------------------------
  // One step of a chain of workloads
  // ---------------------------------------------------------------------

  type Files = seq<seq<Record>>

  /** How many records the workload at `i` must provide: the first is told, the others count. */
  function Need(files: Files, step: int, n: nat, i: nat): nat
    requires i < |files|
    decreases i, 0
  {
    if i == 0 then n else Chained(Level(files, step, n, i - 1))
  }

  /** The requests collected from the workload at `i`. */
  function Level(files: Files, step: int, n: nat, i: nat): (rs: seq<Record>)
    requires i < |files|
    decreases i, 1
  {
    var m, need := Of(files[i], step), Need(files, step, n, i);
    SortById(if need <= |m| then m[..need] else m)
  }

  predicate Enough(files: Files, step: int, n: nat) {
    forall i :: 0 <= i < |files| ==> Need(files, step, n, i) <= |Of(files[i], step)|
  }

  function Levels(files: Files, step: int, n: nat): (ls: seq<seq<Record>>)
    ensures |ls| == |files| && forall i :: 0 <= i < |files| ==> ls[i] == Level(files, step, n, i)
  {
    seq(|files|, i requires 0 <= i < |files| => Level(files, step, n, i))
  }

  /** A request handed over for execution, with the position of its workload in the chain. */
  datatype Created = Created(level: nat, rqe: Record)

  /** A request and the ones bound to it. */
  function Follow(ls: seq<seq<Record>>, l: nat, k: nat): (r: seq<Created>)
    requires l < |ls| && k < |ls[l]|
    decreases |ls| - l
  {
    [Created(l, ls[l][k])] + FollowLink(ls, l, k)
  }

  function FollowLink(ls: seq<seq<Record>>, l: nat, k: nat): seq<Created>
    requires l < |ls| && k < |ls[l]|
    decreases |ls| - l, 0
  {
    if l + 1 == |ls| then []
    else
      match Link(ls[l], ls[l + 1], k)
      case None => []
      case Some(j) => Follow(ls, l + 1, j)
  }

  /** Everything created for the first `k` requests of the root workload. */
  function Output(ls: seq<seq<Record>>, k: nat): seq<Created>
    requires ls != [] && k <= |ls[0]|
  {
    if k == 0 then [] else Output(ls, k - 1) + Follow(ls, 0, k - 1)
  }

  ghost function All(lists: seq<seq<Request>>): set<Request> {
    set i, r | 0 <= i < |lists| && r in lists[i] :: r
  }

  /** No request is on two lists. */
  ghost predicate Apart(lists: seq<seq<Request>>) {
    forall i, j, r :: 0 <= i < j < |lists| && r in lists[i] ==> r !in lists[j]
  }

  ghost predicate AllUnbound(lists: seq<seq<Request>>, from: nat)
    reads All(lists)
  {
    forall i :: from <= i < |lists| ==> Unbound(lists[i])
  }

  /** The lists collected so far are the first levels, and each was complete. */
  ghost predicate Got(files: Files, step: int, n: nat, lists: seq<seq<Request>>) {
    && |lists| <= |files|
    && forall i :: 0 <= i < |lists| ==>
         Need(files, step, n, i) <= |Of(files[i], step)| && Values(lists[i]) == Level(files, step, n, i)
  }

  /** Complete levels do not depend on what is behind the records that were needed. */
  lemma {:induction false} LevelSeen(seen: Files, files: Files, step: int, n: nat, i: nat)
    requires |seen| == |files| && (forall k :: 0 <= k < |files| ==> Of(seen[k], step) <= Of(files[k], step))
    requires Enough(seen, step, n) && i < |files|
    ensures Need(seen, step, n, i) == Need(files, step, n, i) <= |Of(files[i], step)|
    ensures Level(seen, step, n, i) == Level(files, step, n, i)
    decreases i
  {
    hide Of, SortById, Chained;
    if i > 0 {
      LevelSeen(seen, files, step, n, i - 1);
    }
    var need := Need(seen, step, n, i);
    assert Of(seen[i], step)[..need] == Of(files[i], step)[..need];
  }

  lemma LevelsSeen(seen: Files, files: Files, step: int, n: nat)
    requires |seen| == |files| && (forall k :: 0 <= k < |files| ==> Of(seen[k], step) <= Of(files[k], step))
    requires Enough(seen, step, n)
    ensures Enough(files, step, n) && Levels(seen, step, n) == Levels(files, step, n)
    ensures files != [] ==> Level(seen, step, n, 0) == Level(files, step, n, 0)
  {
    hide Of, Level, Need;
    forall i | 0 <= i < |files|
      ensures Need(files, step, n, i) <= |Of(files[i], step)| && Level(seen, step, n, i) == Level(files, step, n, i)
    {
      LevelSeen(seen, files, step, n, i);
    }
  }

  lemma GotNone(files: Files, step: int, n: nat)
    ensures Got(files, step, n, []) && (files != [] ==> Need(files, step, n, 0) == n)
  {
  }

  /** If the next workload has too few records, the step is incomplete. */
  lemma GotNext(files: Files, step: int, n: nat, lists: seq<seq<Request>>)
    requires Got(files, step, n, lists) && |lists| < |files|
    ensures var i := |lists|; Enough(files, step, n) ==> Need(files, step, n, i) <= |Of(files[i], step)|
  {
    hide Level, Need, Of;
  }

  lemma GotSnoc(files: Files, step: int, n: nat, lists: seq<seq<Request>>, l: seq<Request>)
    requires Got(files, step, n, lists) && |lists| < |files|
    requires var i := |lists|;
             && Need(files, step, n, i) <= |Of(files[i], step)|
             && Values(l) == SortById(Of(files[i], step)[..Need(files, step, n, i)])
    ensures Got(files, step, n, lists + [l])
    ensures var i := |lists|; i + 1 < |files| ==> Need(files, step, n, i + 1) == Chained(Values(l))
  {
    hide Chained, SortById, Of;
    var i := |lists|;
    assert Level(files, step, n, i) == Values(l);
    assert i + 1 < |files| ==> Need(files, step, n, i + 1) == Chained(Values(l));
    GotMore(files, step, n, lists, l);
  }

  lemma GotMore(files: Files, step: int, n: nat, lists: seq<seq<Request>>, l: seq<Request>)
    requires Got(files, step, n, lists) && |lists| < |files|
    requires var i := |lists|; Need(files, step, n, i) <= |Of(files[i], step)| && Values(l) == Level(files, step, n, i)
    ensures Got(files, step, n, lists + [l])
  {
    hide Level, Need, Of;
  }

  lemma GotAll(files: Files, step: int, n: nat, lists: seq<seq<Request>>)
    requires Got(files, step, n, lists) && |lists| == |files|
    ensures Enough(files, step, n) && AllValues(lists) == Levels(files, step, n)
  {
    hide Level, Need, Of;
  }

  ghost predicate AllBound(lists: seq<seq<Request>>, m: nat)
    requires m < |lists|
    reads All(lists)
  {
    forall i :: 0 <= i < m ==> Bound(lists[i], lists[i + 1])
  }

  /** Binds every list to the next one. */
  method BindAll(lists: seq<seq<Request>>)
    requires lists != [] && Apart(lists) && AllUnbound(lists, 0)
    modifies All(lists)
    ensures AllBound(lists, |lists| - 1) && Unbound(lists[|lists| - 1])
  {
    hide Bound, Unbound;
    var i := 0;
    while i + 1 < |lists|
      invariant i < |lists| && AllBound(lists, i) && AllUnbound(lists, i)
    {
      Bind(lists[i], lists[i + 1]);
      i := i + 1;
    }
  }

  lemma NoLists()
    ensures All([]) == {} && Apart([]) && AllUnbound([], 0)
  {
  }

  lemma ListsSnoc(lists: seq<seq<Request>>, l: seq<Request>)
    requires AllUnbound(lists, 0) && Apart(lists) && Unbound(l)
    requires forall r :: r in l ==> r !in All(lists)
    ensures AllUnbound(lists + [l], 0) && Apart(lists + [l])
    ensures forall r :: r in All(lists + [l]) ==> r in All(lists) || r in l
  {
    hide Unbound;
    var more := lists + [l];
    forall i, j, r | 0 <= i < j < |more| && r in more[i]
      ensures r !in more[j]
    {
      assert r in lists[i];
    }
  }

  ghost function AllValues(lists: seq<seq<Request>>): (ls: seq<seq<Record>>)
    ensures |ls| == |lists| && forall i :: 0 <= i < |lists| ==> ls[i] == Values(lists[i])
  {
    seq(|lists|, i requires 0 <= i < |lists| => Values(lists[i]))
  }

  /**
    Requests were created in order up to the first that was not accepted, where
    `n` requests had been created before.
  */
  ghost predicate Made(out: seq<Created>, all: seq<Created>, n: nat, accepts: nat -> bool, ok: bool) {
    && out <= all
    && (forall i: nat :: n <= i < n + |out| ==> accepts(i))
    && if ok then out == all else |out| < |all| && !accepts(n + |out|)
  }

  lemma MadeNothing(n: nat, accepts: nat -> bool)
    ensures Made([], [], n, accepts, true)
  {
  }

  lemma MadeMore(
      out: seq<Created>, all: seq<Created>, n: nat, more: seq<Created>, rest: seq<Created>, accepts: nat -> bool,
      ok: bool)
    requires Made(out, all, n, accepts, true) && Made(more, rest, n + |out|, accepts, ok)
    ensures Made(out + more, all + rest, n, accepts, ok)
  {
  }

  ghost function NextAt(ls: seq<seq<Record>>, l: nat, k: nat): nat
    requires l < |ls| && k < |ls[l]|
  {
    if l + 1 == |ls| || Link(ls[l], ls[l + 1], k) == None then 0 else Link(ls[l], ls[l + 1], k).value
  }

  /** The link of a request leads to what follows it. */
  lemma NextRequest(lists: seq<seq<Request>>, l: nat, k: nat)
    requires l < |lists| && k < |lists[l]|
    requires AllBound(lists, |lists| - 1) && Unbound(lists[|lists| - 1])
    ensures var ls, strq := AllValues(lists), lists[l][k];
            if strq.chainNext == null then Follow(ls, l, k) == [Created(l, strq.rqe)]
            else
              var at := NextAt(ls, l, k);
              && l + 1 < |lists| && at < |lists[l + 1]| && strq.chainNext == lists[l + 1][at]
              && Follow(ls, l, k) == [Created(l, strq.rqe)] + Follow(ls, l + 1, at)
  {
    hide Link, Values, Follow, FollowLink;
    FollowStep(AllValues(lists), l, k);
    assert l + 1 < |lists| ==> Bound(lists[l], lists[l + 1]);
  }

  /** Creates a request of the root list and the ones bound to it, while they are accepted. */
  method FillOne(lists: seq<seq<Request>>, k: nat, n: nat, accepts: nat -> bool) returns (ok: bool, out: seq<Created>)
    requires lists != [] && k < |lists[0]|
    requires AllBound(lists, |lists| - 1) && Unbound(lists[|lists| - 1])
    ensures Made(out, Follow(AllValues(lists), 0, k), n, accepts, ok)
  {
    hide Link, Values, Follow, FollowLink, NextAt, Bound, AllValues;
    ghost var ls := AllValues(lists);
    var strq: Request? := lists[0][k];
    var l := 0;
    ghost var at: nat := k;
    out := [];
    while strq != null
      invariant strq != null ==> l < |lists| && at < |lists[l]| && strq == lists[l][at]
      invariant out + (if strq == null then [] else Follow(ls, l, at)) == Follow(ls, 0, k)
      invariant forall i: nat :: n <= i < n + |out| ==> accepts(i)
      decreases |lists| - l, strq != null
    {
      NextRequest(lists, l, at);
      if !accepts(n + |out|) {
        return false, out;
      }
      out := out + [Created(l, strq.rqe)];
      at := NextAt(ls, l, at);
      strq := strq.chainNext;
      l := l + 1;
    }
    ok := true;
  }

  lemma FollowStep(ls: seq<seq<Record>>, l: nat, k: nat)
    requires l < |ls| && k < |ls[l]|
    ensures l + 1 == |ls| ==> Follow(ls, l, k) == [Created(l, ls[l][k])]
    ensures l + 1 < |ls| ==>
              match Link(ls[l], ls[l + 1], k)
              case None => Follow(ls, l, k) == [Created(l, ls[l][k])]
              case Some(j) => Follow(ls, l, k) == [Created(l, ls[l][k])] + Follow(ls, l + 1, j)
  {
  }

  method Fill(lists: seq<seq<Request>>, accepts: nat -> bool) returns (ok: bool, out: seq<Created>)
    requires lists != [] && AllBound(lists, |lists| - 1) && Unbound(lists[|lists| - 1])
    ensures Made(out, Output(AllValues(lists), |lists[0]|), 0, accepts, ok)
  {
    hide Follow, Bound, Unbound, Made;
    out := [];
    ghost var ls := AllValues(lists);
    MadeNothing(0, accepts);
    for k := 0 to |lists[0]|
      invariant Made(out, Output(ls, k), 0, accepts, true)
    {
      var more;
      ok, more := FillOne(lists, k, |out|, accepts);
      MadeMore(out, Output(ls, k), 0, more, Follow(ls, 0, k), accepts, ok);
      out := out + more;
      if !ok {
        OutputPrefix(ls, k + 1, |lists[0]|);
        MadePart(out, Output(ls, k + 1), Output(ls, |lists[0]|), accepts);
        return;
      }
    }
    ok := true;
  }

  lemma MadePart(out: seq<Created>, all: seq<Created>, whole: seq<Created>, accepts: nat -> bool)
    requires Made(out, all, 0, accepts, false) && all <= whole
    ensures Made(out, whole, 0, accepts, false)
  {
  }

  lemma {:induction false} OutputPrefix(ls: seq<seq<Record>>, k: nat, m: nat)
    requires ls != [] && k <= m <= |ls[0]|
    ensures Output(ls, k) <= Output(ls, m)
    decreases m
  {
    hide Follow;
    if k < m {
      OutputPrefix(ls, k, m - 1);
    }
  }

  class Steps {
    const chain: seq<Workload>
    ghost var last: int

    ghost function Files(): (fs: Files)
      ensures |fs| == |chain| && forall i :: 0 <= i < |chain| ==> fs[i] == chain[i].file
    {
      seq(|chain|, i requires 0 <= i < |chain| => chain[i].file)
    }

    ghost predicate Valid()
      reads this, chain
    {
      && chain != []
      && (forall i, j :: 0 <= i < j < |chain| ==> chain[i] != chain[j])
      && forall i :: 0 <= i < |chain| ==> chain[i].Valid() && chain[i].last <= last && chain[i].requests == []
    }

    constructor (files: Files)
      requires files != []
      ensures Valid() && Files() == files && last == -1 && fresh(chain)
    {
      var ws: seq<Workload> := [];
      while |ws| < |files|
        invariant |ws| <= |files|
        invariant forall i :: 0 <= i < |ws| ==> fresh(ws[i]) && ws[i].file == files[i] && ws[i].Valid()
        invariant forall i :: 0 <= i < |ws| ==> ws[i].last == -1 && ws[i].requests == []
        invariant forall i, j :: 0 <= i < j < |ws| ==> ws[i] != ws[j]
      {
        var w := new Workload(files[|ws|]);
        ws := ws + [w];
      }
      chain := ws;
      last := -1;
    }

    function Lists(): (lists: seq<seq<Request>>)
      reads chain
      ensures |lists| == |chain| && forall i :: 0 <= i < |chain| ==> lists[i] == chain[i].requests
    {
      seq(|chain|, i requires 0 <= i < |chain| reads chain => chain[i].requests)
    }

    /** Workloads are distinct and in a state to fetch a step after `last`. */
    ghost predicate Ready(last: int)
      reads chain
    {
      && (forall i, j :: 0 <= i < j < |chain| ==> chain[i] != chain[j])
      && forall i :: 0 <= i < |chain| ==> chain[i].Valid() && chain[i].last <= last
    }

    /** Fetches from one workload; its requests are not on the lists collected before. */
    static method FetchLevel(w: Workload, step: int, need: nat, fails: Failing, ghost lists: seq<seq<Request>>)
      returns (ret: int, chained: nat)
      requires w.Valid() && w.requests == [] && step > w.last
      requires AllUnbound(lists, 0) && Apart(lists)
      modifies w
      ensures w.Valid() && w.last == step
      ensures ret == if need <= |Of(Seen(w.file, old(w.fileIndex), fails), step)| then STEP_OK else STEP_ERROR
      ensures ret == STEP_OK ==>
                Values(w.requests) == SortById(Of(Seen(w.file, old(w.fileIndex), fails), step)[..need])
      ensures ret == STEP_OK ==> chained == Chained(Values(w.requests))
      ensures AllUnbound(lists + [w.requests], 0) && Apart(lists + [w.requests])
      ensures forall r :: r in All(lists + [w.requests]) ==> r in All(lists) || fresh(r)
    {
      hide Unbound, SortById, Of, Apart, Seen;
      chained := 0;
      var leaked;
      ret, leaked := w.FetchStep(step, need, fails);
      if ret == STEP_OK {
        chained := CountChained(w.requests);
      }
      ListsSnoc(lists, w.requests);
    }

    /** The parts of the logs that can be reached in this step. */
    ghost function Reachable(fails: seq<Failing>): (fs: Files)
      requires |fails| == |chain| && forall i :: 0 <= i < |chain| ==> chain[i].fileIndex <= |chain[i].file|
      reads chain
      ensures |fs| == |chain|
      ensures forall i :: 0 <= i < |chain| ==> fs[i] == Seen(chain[i].file, chain[i].fileIndex, fails[i])
    {
      seq(|chain|, i requires 0 <= i < |chain| && chain[i].fileIndex <= |chain[i].file| reads chain =>
        Seen(chain[i].file, chain[i].fileIndex, fails[i]))
    }

    /** A workload that was not fetched from yet. */
    ghost predicate Waiting(w: Workload, seen: seq<Record>, fails: Failing)
      reads this, w
    {
      && w.last <= last && w.requests == []
      && w.fileIndex <= |w.file| && seen == Seen(w.file, w.fileIndex, fails)
    }

    /** The first `i` workloads were fetched from, and the next one must have `need` records. */
    ghost predicate Fetched(
        i: nat, step: int, n: nat, files: Files, fails: seq<Failing>, lists: seq<seq<Request>>, need: nat)
      requires |files| == |fails| == |chain|
      reads this, chain, All(lists)
    {
      && i <= |chain| && Ready(step)
      && (forall j :: i <= j < |chain| ==> Waiting(chain[j], files[j], fails[j]))
      && |lists| == i && (forall j :: 0 <= j < i ==> chain[j].requests == lists[j])
      && Got(files, step, n, lists) && (i < |chain| ==> need == Need(files, step, n, i))
      && AllUnbound(lists, 0) && Apart(lists)
    }

    method FetchNext(
        i: nat, step: int, need: nat, fail: Failing, ghost n: nat, ghost files: Files, ghost fails: seq<Failing>,
        ghost lists: seq<seq<Request>>)
      returns (ret: int, next: nat)
      requires |files| == |fails| == |chain| && i < |chain| && fail == fails[i] && step > last
      requires Fetched(i, step, n, files, fails, lists, need)
      modifies chain[i]
      ensures Ready(step)
      ensures ret == if need <= |Of(files[i], step)| then STEP_OK else STEP_ERROR
      ensures ret == STEP_OK ==> Fetched(i + 1, step, n, files, fails, lists + [chain[i].requests], next)
      ensures forall r :: r in All(lists + [chain[i].requests]) ==> r in All(lists) || fresh(r)
    {
      hide Level, Need, Unbound, SortById, Of, Passed, Apart, All, AllUnbound, Got, Seen, Chained, Values;
      ret, next := FetchLevel(chain[i], step, need, fail, lists);
      if ret == STEP_OK {
        GotSnoc(files, step, n, lists, chain[i].requests);
      }
    }

    lemma FetchStarts(step: int, n: nat, fails: seq<Failing>)
      requires Valid() && step > last && |fails| == |chain|
      ensures Fetched(0, step, n, Reachable(fails), fails, [], n)
    {
      hide Level, Need, Of, Passed, Seen;
      NoLists();
      GotNone(Reachable(fails), step, n);
    }

    lemma FetchedFacts(
        i: nat, step: int, n: nat, files: Files, fails: seq<Failing>, lists: seq<seq<Request>>, need: nat)
      requires |files| == |fails| == |chain| && Fetched(i, step, n, files, fails, lists, need)
      ensures i <= |chain| && Ready(step) && |lists| == i && Got(files, step, n, lists)
      ensures i < |chain| ==> need == Need(files, step, n, i)
      ensures i == |chain| ==> lists == Lists() && AllUnbound(lists, 0) && Apart(lists)
    {
      hide Level, Levels, Need, Of, Passed, Apart, AllUnbound, Got, Ready, Waiting;
    }

    /** Fetches the step from every workload, each telling how many the next one must have. */
    method FetchAll(step: int, n: nat, fails: seq<Failing>, ghost seen: Files)
        returns (ret: int, ghost lists: seq<seq<Request>>)
      requires |seen| == |fails| == |chain| && step > last && Fetched(0, step, n, seen, fails, [], n)
      modifies chain
      ensures Ready(step)
      ensures ret == if Enough(seen, step, n) then STEP_OK else STEP_ERROR
      ensures ret == STEP_OK ==>
                && lists == Lists() && AllUnbound(lists, 0) && Apart(lists)
                && AllValues(lists) == Levels(seen, step, n) && fresh(All(lists))
    {
      hide Level, Levels, Need, Of, Passed, Apart, All, AllUnbound, AllValues, Got, Enough, Ready, Waiting, Fetched;
      var need, i := n, 0;
      lists := [];
      NoLists();
      while i < |chain|
        invariant i <= |chain| && Fetched(i, step, n, seen, fails, lists, need) && fresh(All(lists))
      {
        FetchedFacts(i, step, n, seen, fails, lists, need);
        GotNext(seen, step, n, lists);
        ret, need := FetchNext(i, step, need, fails[i], n, seen, fails, lists);
        if ret != STEP_OK {
          return;
        }
        lists := lists + [chain[i].requests];
        i := i + 1;
      }
      FetchedFacts(i, step, n, seen, fails, lists, need);
      GotAll(seen, step, n, lists);
      ret := STEP_OK;
    }

    ghost predicate NoneFails(fails: seq<Failing>) {
      forall i, k: nat :: 0 <= i < |fails| ==> !fails[i](k)
    }

    /** If no read fails, all of every log can be reached. */
    lemma AllReachable(fails: seq<Failing>)
      requires Valid() && |fails| == |chain| && NoneFails(fails)
      ensures Reachable(fails) == Files()
    {
      forall i | 0 <= i < |chain|
        ensures Reachable(fails)[i] == Files()[i]
      {
        var w := chain[i];
        assert FirstFailing(fails[i], w.fileIndex, |w.file|) == |w.file|;
      }
    }

    lemma SeenPrefixes(fails: seq<Failing>, step: int)
      requires Valid() && step > last && |fails| == |chain|
      ensures forall i :: 0 <= i < |chain| ==> Of(Reachable(fails)[i], step) <= Of(Files()[i], step)
    {
      hide Of, Seen;
      forall i | 0 <= i < |chain|
        ensures Of(Reachable(fails)[i], step) <= Of(Files()[i], step)
      {
        var w := chain[i];
        SeenSoFar(w.file, w.fileIndex, w.last, step, fails[i], w.fileIndex);
      }
    }

    method DestroyRqs()
      requires Ready(last)
      modifies chain
      ensures Ready(last) && forall i :: 0 <= i < |chain| ==> chain[i].requests == []
    {
      for i := 0 to |chain|
        invariant Ready(last) && forall j :: 0 <= j < i ==> chain[j].requests == []
      {
        chain[i].requests := [];
      }
    }

    /** Fetches, binds and creates; what was fetched stays on the lists. */
    method CreateRqs(step: int, n: nat, fails: seq<Failing>, accepts: nat -> bool)
        returns (ret: int, out: seq<Created>)
      requires Valid() && step > last && |fails| == |chain|
      modifies chain
      ensures Ready(step)
      ensures ret == STEP_OK || ret == STEP_ERROR
      ensures var seen := old(Reachable(fails));
              if Enough(seen, step, n)
              then Made(out, Output(Levels(seen, step, n), |Level(seen, step, n, 0)|), 0, accepts, ret == STEP_OK)
              else ret == STEP_ERROR && out == []
    {
      hide Level, Need, Enough, Unbound, Apart, AllUnbound, AllBound, Output, Passed, Bound, Made, Of, Seen, Fetched;
      ghost var seen := Reachable(fails);
      ghost var collected;
      FetchStarts(step, n, fails);
      ret, collected := FetchAll(step, n, fails, seen);
      out := [];
      if ret == STEP_OK {
        var lists := Lists();
        BindAll(lists);
        var ok;
        ok, out := Fill(lists, accepts);
        assert AllValues(lists)[0] == Levels(seen, step, n)[0] == Level(seen, step, n, 0);
        ret := if ok then STEP_OK else STEP_ERROR;
      }
    }

    /**
      Replays a step that comes after all those replayed before. It succeeds
      exactly when every workload has enough records that can be read and every
      request is accepted; the requests created are those of the step up to the
      first that is not.
    */
    method GetStep(step: int, n: nat, fails: seq<Failing>, accepts: nat -> bool)
        returns (ret: int, out: seq<Created>)
      requires Valid() && step > last && |fails| == |chain|
      modifies this, chain
      ensures Valid() && last == step
      ensures ret == STEP_OK || ret == STEP_ERROR
      ensures NoneFails(fails) ==> old(Reachable(fails)) == Files()
      ensures if Enough(old(Reachable(fails)), step, n)
              then Made(out, Output(Levels(Files(), step, n), |Level(Files(), step, n, 0)|), 0, accepts, ret == STEP_OK)
              else ret == STEP_ERROR && out == []
    {
      hide Level, Levels, Enough, Output, Made, Of, Seen, NoneFails, Passed;
      SeenPrefixes(fails, step);
      if NoneFails(fails) {
        AllReachable(fails);
      }
      if Enough(Reachable(fails), step, n) {
        LevelsSeen(Reachable(fails), Files(), step, n);
      }
      ret, out := CreateRqs(step, n, fails, accepts);
      last := step;
      DestroyRqs();
    }
  }

  // ---------------------------------------------------------------------
  // A recorded step is replayed completely
  // ---------------------------------------------------------------------

  predicate DistinctIds(rs: seq<Record>) {
    forall i, j :: 0 <= i < j < |rs| ==> rs[i].request != rs[j].request
  }

  lemma InsertKeepsStrict(rs: seq<Record>, r: Record)
    requires StrictlySorted(rs) && forall k :: 0 <= k < |rs| ==> rs[k].request != r.request
    ensures StrictlySorted(InsertAt(rs, Place(rs, r.request), r))
  {
    hide Place, InsertAt;
    var p := Place(rs, r.request);
    var t := InsertAt(rs, p, r);
    forall i, j | 0 <= i < j < |t|
      ensures t[i].request < t[j].request
    {
      InsertAtIndex(rs, p, r, i);
      InsertAtIndex(rs, p, r, j);
      assert i < p ==> rs[i].request <= rs[p - 1].request;
    }
  }

  lemma {:induction false} SortByIdStrict(rs: seq<Record>)
    requires DistinctIds(rs)
    ensures StrictlySorted(SortById(rs))
  {
    hide InsertAt, Place;
    if rs != [] {
      var most, r := rs[..|rs| - 1], rs[|rs| - 1];
      SortByIdStrict(most);
      SortByIdHas(most);
      forall k | 0 <= k < |SortById(most)|
        ensures SortById(most)[k].request != r.request
      {
        assert SortById(most)[k] in most;
      }
      InsertKeepsStrict(SortById(most), r);
    }
  }

  lemma SortByIdHas(rs: seq<Record>)
    ensures |SortById(rs)| == |rs| && forall x :: x in SortById(rs) <==> x in rs
  {
    hide SortById;
    SortByIdSorts(rs);
    assert forall x :: x in SortById(rs) <==> x in multiset(SortById(rs));
  }

  lemma {:induction false} ChainedConcat(s: seq<Record>, t: seq<Record>)
    ensures Chained(s + t) == Chained(s) + Chained(t)
    decreases |t|
  {
    if t == [] {
      assert s + t == s;
    } else {
      assert (s + t)[..|s + t| - 1] == s + t[..|t| - 1];
      ChainedConcat(s, t[..|t| - 1]);
    }
  }

  lemma ChainedInsert(s: seq<Record>, p: nat, r: Record)
    requires p <= |s|
    ensures Chained(InsertAt(s, p, r)) == Chained(s) + if r.chainRequest >= 0 then 1 else 0
  {
    hide Chained;
    ChainedConcat(s[..p] + [r], s[p..]);
    ChainedConcat(s[..p], [r]);
    ChainedConcat(s[..p], s[p..]);
    assert s == s[..p] + s[p..];
    ChainedOne(r);
  }

  lemma ChainedOne(r: Record)
    ensures Chained([r]) == if r.chainRequest >= 0 then 1 else 0
  {
    assert [r][..0] == [];
  }

  /** Sorting does not change how many requests continue. */
  lemma {:induction false} ChainedSorted(rs: seq<Record>)
    ensures Chained(SortById(rs)) == Chained(rs)
  {
    hide InsertAt, Place;
    if rs != [] {
      var most, r := rs[..|rs| - 1], rs[|rs| - 1];
      ChainedSorted(most);
      ChainedInsert(SortById(most), Place(SortById(most), r.request), r);
    }
  }

  /** Ids are distinct and in order at each level, and occur at the level before. */
  predicate WellChained(ls: seq<seq<Record>>) {
    && (forall l :: 0 <= l < |ls| ==> StrictlySorted(ls[l]))
    && forall l, j :: 0 < l < |ls| && 0 <= j < |ls[l]| ==> HasId(ls[l - 1], |ls[l - 1]|, ls[l][j].request)
  }

  lemma {:induction false} IdBefore(ls: seq<seq<Record>>, l: nat, m: nat, id: int)
    requires WellChained(ls) && l <= m < |ls| && HasId(ls[m], |ls[m]|, id)
    ensures HasId(ls[l], |ls[l]|, id)
    decreases m
  {
    hide StrictlySorted;
    if l < m {
      var j :| 0 <= j < |ls[m]| && ls[m][j].request == id;
      IdBefore(ls, l, m - 1, id);
    }
  }

  /** A request is followed by exactly the requests of the later levels that have its id. */
  lemma {:induction false} FollowExact(ls: seq<seq<Record>>, l: nat, k: nat, m: nat, x: Record)
    requires WellChained(ls) && l < |ls| && k < |ls[l]|
    ensures Created(m, x) in Follow(ls, l, k) <==> l <= m < |ls| && x in ls[m] && x.request == ls[l][k].request
    decreases |ls| - l
  {
    hide Link, Follow, FollowLink;
    FollowStep(ls, l, k);
    var id := ls[l][k].request;
    if l + 1 < |ls| {
      match Link(ls[l], ls[l + 1], k)
      case Some(j) => FollowExact(ls, l + 1, j, m, x);
      case None =>
        NoLinkNoId(ls[l], ls[l + 1], k);
        if l + 1 <= m < |ls| && x in ls[m] && x.request == id {
          assert HasId(ls[m], |ls[m]|, id);
          IdBefore(ls, l + 1, m, id);
        }
    }
  }

  lemma NoLinkNoId(p: seq<Record>, c: seq<Record>, k: nat)
    requires StrictlySorted(p) && StrictlySorted(c) && k < |p| && Link(p, c, k) == None
    requires forall j :: 0 <= j < |c| ==> HasId(p, |p|, c[j].request)
    ensures !HasId(c, |c|, p[k].request)
  {
    hide Link;
    forall j | 0 <= j < |c|
      ensures c[j].request != p[k].request
    {
      LinkExact(p, c, k, j);
    }
  }

  /** A request is followed by at most one of each later level, in their order. */
  lemma {:induction false} FollowLevels(ls: seq<seq<Record>>, l: nat, k: nat)
    requires l < |ls| && k < |ls[l]|
    ensures forall i :: 0 <= i < |Follow(ls, l, k)| ==> Follow(ls, l, k)[i].level == l + i
    ensures forall i :: 0 <= i < |Follow(ls, l, k)| ==> Follow(ls, l, k)[i].rqe.request == ls[l][k].request
    decreases |ls| - l
  {
    hide Link, Follow, FollowLink;
    FollowStep(ls, l, k);
    if l + 1 < |ls| && Link(ls[l], ls[l + 1], k).Some? {
      FollowLevels(ls, l + 1, Link(ls[l], ls[l + 1], k).value);
    }
  }

  lemma {:induction false} OutputExact(ls: seq<seq<Record>>, k: nat)
    requires WellChained(ls) && ls != [] && k <= |ls[0]|
    ensures NoRepeats(Output(ls, k))
    ensures forall c :: c in Output(ls, k) <==> c.level < |ls| && c.rqe in ls[c.level] && HasId(ls[0], k, c.rqe.request)
    decreases k
  {
    hide Follow;
    if k > 0 {
      OutputExact(ls, k - 1);
      FollowLevels(ls, 0, k - 1);
      var before, more := Output(ls, k - 1), Follow(ls, 0, k - 1);
      forall c: Created
        ensures c in more <==> c.level < |ls| && c.rqe in ls[c.level] && c.rqe.request == ls[0][k - 1].request
      {
        FollowExact(ls, 0, k - 1, c.level, c.rqe);
      }
      forall id
        ensures HasId(ls[0], k, id) <==> HasId(ls[0], k - 1, id) || id == ls[0][k - 1].request
      {
        HasIdStep(ls[0], k, id);
      }
      assert !HasId(ls[0], k - 1, ls[0][k - 1].request);
      forall i, j | 0 <= i < |before| && 0 <= j < |more|
        ensures before[i] != more[j]
      {
        assert before[i] in before;
      }
    }
  }

  lemma HasIdStep(rs: seq<Record>, k: nat, id: int)
    requires 0 < k <= |rs|
    ensures HasId(rs, k, id) <==> HasId(rs, k - 1, id) || id == rs[k - 1].request
  {
  }

  /** A step as it was recorded: counts agree, ids are distinct, chained requests repeat ids. */
  predicate Recorded(files: Files, step: int, n: nat) {
    && files != [] && n == |Of(files[0], step)|
    && (forall l :: 0 <= l < |files| ==> DistinctIds(Of(files[l], step)))
    && (forall l :: 0 < l < |files| ==> |Of(files[l], step)| == Chained(Of(files[l - 1], step)))
    && forall l, x :: 0 < l < |files| && x in Of(files[l], step) ==>
         HasId(Of(files[l - 1], step), |Of(files[l - 1], step)|, x.request)
  }

  lemma {:induction false} RecordedLevel(files: Files, step: int, n: nat, i: nat)
    requires Recorded(files, step, n) && i < |files|
    ensures Need(files, step, n, i) == |Of(files[i], step)|
    ensures Level(files, step, n, i) == SortById(Of(files[i], step))
    decreases i
  {
    hide Of, SortById, Chained, DistinctIds, HasId;
    if i > 0 {
      RecordedLevel(files, step, n, i - 1);
      ChainedSorted(Of(files[i - 1], step));
    }
    var m := Of(files[i], step);
    assert m[..|m|] == m;
  }

  lemma RecordedWellChained(files: Files, step: int, n: nat)
    requires Recorded(files, step, n)
    ensures WellChained(Levels(files, step, n))
  {
    hide Of, SortById, Chained, Level, Need;
    var ls := Levels(files, step, n);
    forall l | 0 <= l < |files|
      ensures StrictlySorted(ls[l]) && ls[l] == SortById(Of(files[l], step))
    {
      RecordedLevel(files, step, n, l);
      SortByIdStrict(Of(files[l], step));
    }
    forall l, j | 0 < l < |files| && 0 <= j < |ls[l]|
      ensures HasId(ls[l - 1], |ls[l - 1]|, ls[l][j].request)
    {
      var m := Of(files[l - 1], step);
      SortByIdHas(Of(files[l], step));
      SortByIdHas(m);
      assert ls[l][j] in Of(files[l], step);
      var i :| 0 <= i < |m| && m[i].request == ls[l][j].request;
      assert m[i] in ls[l - 1];
    }
  }

  /** Replay of a recorded step creates every recorded request of every workload, once, and no other. */
  lemma ReplayComplete(files: Files, step: int, n: nat)
    requires Recorded(files, step, n)
    ensures Enough(files, step, n)
    ensures var out := Output(Levels(files, step, n), |Level(files, step, n, 0)|);
            NoRepeats(out) && forall c :: c in out <==> c.level < |files| && c.rqe in Of(files[c.level], step)
  {
    hide Of, SortById, Level, Need, Output, Recorded, StrictlySorted, HasId;
    var ls := Levels(files, step, n);
    forall i | 0 <= i < |files|
      ensures Need(files, step, n, i) <= |Of(files[i], step)| && forall x :: x in ls[i] <==> x in Of(files[i], step)
    {
      RecordedLevel(files, step, n, i);
      SortByIdHas(Of(files[i], step));
    }
    RecordedWellChained(files, step, n);
    RecordedNonempty(files, step, n);
    OutputExact(ls, |ls[0]|);
    forall m: nat, x: Record | m < |ls| && x in ls[m]
      ensures HasId(ls[0], |ls[0]|, x.request)
    {
      HasMember(ls[m], x);
      IdBefore(ls, 0, m, x.request);
    }
  }

  lemma RecordedNonempty(files: Files, step: int, n: nat)
    requires Recorded(files, step, n)
    ensures files != []
  {
  }

  lemma HasMember(rs: seq<Record>, x: Record)
    requires x in rs
    ensures HasId(rs, |rs|, x.request)
  {
  }
}
