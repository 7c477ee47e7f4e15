/**
  How a fragment request ends: alone, with the first run of clear bits that a
  cell can give, or aborted if there is none; under any interleaving, aborted
  only after every cell has refused three times.
*/
module FragmentScan {
  import opened Bitmap
  import opened Fragments

  // ---------------------------------------------------------------------
  // Runs
  // ---------------------------------------------------------------------

  lemma {:induction false} RunConcat(s: State, a: seq<Action>, b: seq<Action>)
    ensures Run(s, a + b) == Run(Run(s, a), b)
    decreases |a|
  {
    if a == [] {
      assert a + b == b;
    } else {
      assert (a + b)[1..] == a[1..] + b;
      RunConcat(Step(s, a[0]), a[1..], b);
    }
  }

  lemma RunOne(s: State, a: Action)
    ensures Run(s, [a]) == Step(s, a)
  {
    assert [a][1..] == [];
  }

  lemma RunSnoc(s: State, actions: seq<Action>)
    requires actions != []
    ensures Run(s, actions) == Step(Run(s, actions[..|actions| - 1]), actions[|actions| - 1])
  {
    hide Step, Run;
    var before, a := actions[..|actions| - 1], actions[|actions| - 1];
    assert actions == before + [a];
    RunConcat(s, before, [a]);
    RunOne(Run(s, before), a);
  }

  // ---------------------------------------------------------------------
  // A thread gives up only after every cell has refused three times
  // ---------------------------------------------------------------------

  /** In this step thread `t` finds cell `c` busy, or what it got from it cannot give the run. */
  ghost predicate RefusedBy(s: State, a: Action, t: Tid, c: nat) {
    var pc := PcOf(s, t);
    || (a == Exchange(t) && pc.Scanning? && pc.cell == c && c < |s.cells| && s.cells[c] == BUSY)
    || (a == Choose(t) && pc.Swapped? && pc.cell == c && NoneGiven(pc.bval, pc.n, s.numItems, c))
  }

  /** How often cell `c` has refused thread `t` since the thread's last request began. */
  ghost function Refusals(s: State, actions: seq<Action>, t: Tid, c: nat): nat {
    if actions == [] then 0
    else
      var before, a := actions[..|actions| - 1], actions[|actions| - 1];
      var now := Run(s, before);
      if a.StartAlloc? && a.t == t && PcOf(now, t).Idle? then 0
      else Refusals(s, before, t, c) + if RefusedBy(now, a, t, c) then 1 else 0
  }

  /** What the place of a thread tells about how often cell `c` has refused it. */
  predicate Tried(pc: Pc, numCells: nat, c: nat, k: nat) {
    match pc
    case Scanning(_, _, cell, r) => r < 3 && cell < numCells && k == r + if c < cell then 1 else 0
    case Swapped(_, _, cell, r, _) => r < 3 && cell < numCells && k == r + if c < cell then 1 else 0
    case Chosen(_, _, cell, r, _, b) =>
      r < 3 && cell < numCells && k == r + if c < cell || (b < 0 && c == cell) then 1 else 0
    case Aborted => k == 3
    case _ => true
  }

  lemma NextScanTried(numCells: nat, n: nat, flags: nat, cell: nat, r: nat, c: nat)
    requires c < numCells && cell <= numCells && r < 3
    ensures Tried(NextScan(numCells, n, flags, cell, r), numCells, c, r + if c < cell then 1 else 0)
  {
  }

  lemma StepTried(s: State, a: Action, t: Tid, c: nat, k: nat)
    requires Inv(s) && c < |s.cells| && Tried(PcOf(s, t), |s.cells|, c, k)
    ensures var k' := if a.StartAlloc? && a.t == t && PcOf(s, t).Idle? then 0
                      else k + if RefusedBy(s, a, t, c) then 1 else 0;
            |Step(s, a).cells| == |s.cells| && Tried(PcOf(Step(s, a), t), |s.cells|, c, k')
  {
    hide Gives, CellChoice, Region, NextScan, Inv, Tried, Step;
    InvShape(s);
    if a.t != t {
      OtherThread(s, a, t);
    } else {
      match a
      case StartAlloc(_, n, flags) => StartTried(s, t, n, flags, c, k);
      case Exchange(_) => ExchangeTried(s, t, c, k);
      case Choose(_) => ChooseTried(s, t, c, k);
      case AndBack(_) => AndBackTried(s, t, c, k);
      case _ => OtherStep(s, a, c, k);
    }
  }

  lemma StartTried(s: State, t: Tid, n: nat, flags: nat, c: nat, k: nat)
    requires !s.assertFailed && c < |s.cells| && Tried(PcOf(s, t), |s.cells|, c, k)
    ensures var s' := Step(s, StartAlloc(t, n, flags));
            |s'.cells| == |s.cells| && Tried(PcOf(s', t), |s.cells|, c, if PcOf(s, t).Idle? then 0 else k)
  {
    hide NextScan;
    NextScanTried(|s.cells|, n, flags, 0, 0, c);
  }

  lemma ExchangeTried(s: State, t: Tid, c: nat, k: nat)
    requires !s.assertFailed && c < |s.cells| && Tried(PcOf(s, t), |s.cells|, c, k)
    ensures var s' := Step(s, Exchange(t));
            && |s'.cells| == |s.cells|
            && Tried(PcOf(s', t), |s.cells|, c, k + if RefusedBy(s, Exchange(t), t, c) then 1 else 0)
  {
    hide NextScan;
    var pc := PcOf(s, t);
    if pc.Scanning? {
      NextScanTried(|s.cells|, pc.n, pc.flags, pc.cell + 1, pc.retries, c);
    }
  }

  lemma ChooseTried(s: State, t: Tid, c: nat, k: nat)
    requires !s.assertFailed && c < |s.cells| == NumCells(s.numItems) && Tried(PcOf(s, t), |s.cells|, c, k)
    requires PcOk(s.numItems, PcOf(s, t))
    ensures var s' := Step(s, Choose(t));
            && |s'.cells| == |s.cells|
            && Tried(PcOf(s', t), |s.cells|, c, k + if RefusedBy(s, Choose(t), t, c) then 1 else 0)
  {
    hide CellChoice, Region, NoneGiven;
    if PcOf(s, t).Swapped? {
      ChoiceTells(s, PcOf(s, t));
    }
  }

  lemma AndBackTried(s: State, t: Tid, c: nat, k: nat)
    requires !s.assertFailed && c < |s.cells| && Tried(PcOf(s, t), |s.cells|, c, k)
    ensures var s' := Step(s, AndBack(t));
            |s'.cells| == |s.cells| && Tried(PcOf(s', t), |s.cells|, c, k) && !RefusedBy(s, AndBack(t), t, c)
  {
    hide NextScan;
    var pc := PcOf(s, t);
    if pc.Chosen? {
      NextScanTried(|s.cells|, pc.n, pc.flags, pc.cell + 1, pc.retries, c);
    }
  }

  lemma OtherStep(s: State, a: Action, c: nat, k: nat)
    requires !s.assertFailed && c < |s.cells| && Tried(PcOf(s, a.t), |s.cells|, c, k)
    requires a.WriteDescr? || a.StartFree? || a.ClearDescr? || a.FreeAnd?
    ensures var s' := Step(s, a);
            |s'.cells| == |s.cells| && Tried(PcOf(s', a.t), |s.cells|, c, k) && !RefusedBy(s, a, a.t, c)
  {
  }

  lemma InvShape(s: State)
    requires Inv(s)
    ensures |s.cells| == NumCells(s.numItems) && !s.assertFailed
    ensures forall t :: PcOk(s.numItems, PcOf(s, t))
  {
  }

  /** A thread's place changes in its own steps only. */
  lemma OtherThread(s: State, a: Action, t: Tid)
    requires a.t != t
    ensures PcOf(Step(s, a), t) == PcOf(s, t) && |Step(s, a).cells| == |s.cells|
    ensures forall c :: !RefusedBy(s, a, t, c)
  {
    hide CellChoice, Region, NextScan, NoneGiven;
  }

  lemma ChoiceTells(s: State, pc: Pc)
    requires pc.Swapped? && PcOk(s.numItems, pc)
    ensures CellChoice(pc.bval, pc.n, ItemsInCell(s.numItems, pc.cell)) < 0
            <==> NoneGiven(pc.bval, pc.n, s.numItems, pc.cell)
  {
    hide CellChoice, Gives;
    ChoiceOrRefusal(pc.bval, pc.n, ItemsInCell(s.numItems, pc.cell));
    RefusesItems(pc.bval, pc.n, s.numItems, pc.cell);
  }

  lemma {:induction false} RunTried(s: State, actions: seq<Action>, t: Tid, c: nat)
    requires Inv(s) && NonEmptyRequests(actions) && s.threads == map[] && c < |s.cells|
    ensures |Run(s, actions).cells| == |s.cells|
    ensures Tried(PcOf(Run(s, actions), t), |s.cells|, c, Refusals(s, actions, t, c))
    decreases |actions|
  {
    hide Inv, Step, Tried;
    if actions != [] {
      var before, a := actions[..|actions| - 1], actions[|actions| - 1];
      RunTried(s, before, t, c);
      RunKeeps(s, before);
      RunSnoc(s, actions);
      StepTried(Run(s, before), a, t, c, Refusals(s, before, t, c));
    } else {
      NotStarted(s, t, c);
    }
  }

  lemma NotStarted(s: State, t: Tid, c: nat)
    requires s.threads == map[]
    ensures Tried(PcOf(s, t), |s.cells|, c, 0)
  {
  }

  /** Whatever the threads do, one gives up only after every cell has refused it exactly three times. */
  lemma GivesUpLate(numItems: nat, wraps: bool, actions: seq<Action>, t: Tid, c: nat)
    requires NonEmptyRequests(actions) && c < |Init(numItems, wraps).cells|
    requires PcOf(Run(Init(numItems, wraps), actions), t).Aborted?
    ensures Refusals(Init(numItems, wraps), actions, t, c) == 3
  {
    hide Inv, Run, Refusals;
    InitOk(numItems, wraps);
    RunTried(Init(numItems, wraps), actions, t, c);
  }

  // ---------------------------------------------------------------------
  // A request that runs alone
  // ---------------------------------------------------------------------

  /** One cell tried: exchange it, choose, AND the value back. Actions that are not enabled change nothing. */
  function Round(t: Tid): seq<Action> {
    [Exchange(t)] + ([Choose(t)] + [AndBack(t)])
  }

  function Rounds(t: Tid, k: nat): seq<Action> {
    if k == 0 then [] else Round(t) + Rounds(t, k - 1)
  }

  function Writes(t: Tid, k: nat): seq<Action> {
    if k == 0 then [] else [WriteDescr(t)] + Writes(t, k - 1)
  }

  /** All the steps a request can take on so many cells. */
  function Alone(t: Tid, n: nat, flags: nat, numCells: nat): seq<Action> {
    [StartAlloc(t, n, flags)] + (Rounds(t, 3 * numCells) + Writes(t, n))
  }

  /** Cell `c` is the first that can give the run, from its bit `b` on. */
  ghost predicate First(s: State, n: nat, c: nat, b: nat) {
    && c < |s.cells| && GivesItems(s.cells[c], n, s.numItems, c, b)
    && forall i :: 0 <= i < c ==> NoneGiven(s.cells[i], n, s.numItems, i)
  }

  ghost predicate NoCell(s: State, n: nat) {
    forall i :: 0 <= i < |s.cells| ==> NoneGiven(s.cells[i], n, s.numItems, i)
  }

  lemma RunRound(s: State, t: Tid)
    ensures Run(s, Round(t)) == Step(Step(Step(s, Exchange(t)), Choose(t)), AndBack(t))
  {
    hide Step;
    RunCons(s, Exchange(t), [Choose(t)] + [AndBack(t)]);
    RunCons(Step(s, Exchange(t)), Choose(t), [AndBack(t)]);
    RunOne(Step(Step(s, Exchange(t)), Choose(t)), AndBack(t));
  }

  /** Cell `c` and the place of thread `t` are replaced. */
  function Put(s: State, t: Tid, c: nat, w: Word, pc: Pc): State
    requires c < |s.cells|
  {
    SetPc(s.(cells := s.cells[c := w]), t, pc)
  }

  lemma PutPut(s: State, t: Tid, c: nat, v: Word, p: Pc, w: Word, q: Pc)
    requires c < |s.cells|
    ensures Put(Put(s, t, c, v, p), t, c, w, q) == Put(s, t, c, w, q)
  {
  }

  lemma PutFacts(s: State, t: Tid, c: nat, w: Word, pc: Pc)
    requires c < |s.cells|
    ensures var s' := Put(s, t, c, w, pc);
            && PcOf(s', t) == pc && |s'.cells| == |s.cells| && s'.cells[c] == w
            && s'.numItems == s.numItems && s'.assertFailed == s.assertFailed
  {
  }

  lemma ExchangeStep(s: State, t: Tid)
    requires !s.assertFailed && PcOf(s, t).Scanning? && PcOf(s, t).cell < |s.cells|
    ensures var pc := PcOf(s, t);
            var w := s.cells[pc.cell];
            Step(s, Exchange(t)) ==
              Put(s, t, pc.cell, BUSY,
                  if w == BUSY then NextScan(|s.cells|, pc.n, pc.flags, pc.cell + 1, pc.retries)
                  else Swapped(pc.n, pc.flags, pc.cell, pc.retries, w))
  {
    hide NextScan;
  }

  lemma ChooseStep(s: State, t: Tid)
    requires !s.assertFailed && PcOf(s, t).Swapped? && PcOk(s.numItems, PcOf(s, t)) && PcOf(s, t).cell < |s.cells|
    ensures var pc := PcOf(s, t);
            var b := CellChoice(pc.bval, pc.n, ItemsInCell(s.numItems, pc.cell));
            var w: Word := if b >= 0 then pc.bval + Region(pc.n, b) else pc.bval;
            Step(s, Choose(t)) ==
              Put(s, t, pc.cell, s.cells[pc.cell], Chosen(pc.n, pc.flags, pc.cell, pc.retries, w, b))
  {
    hide CellChoice, Region;
    var c := PcOf(s, t).cell;
    assert s.cells[c := s.cells[c]] == s.cells;
  }

  lemma AndBackStep(s: State, t: Tid)
    requires !s.assertFailed && PcOf(s, t).Chosen? && PcOf(s, t).cell < |s.cells|
    requires s.cells[PcOf(s, t).cell] == BUSY
    ensures var pc := PcOf(s, t);
            Step(s, AndBack(t)) ==
              Put(s, t, pc.cell, pc.bval,
                  if pc.bidx >= 0 then Writing(32 * pc.cell + pc.bidx, pc.n, pc.flags, 0)
                  else NextScan(|s.cells|, pc.n, pc.flags, pc.cell + 1, pc.retries))
  {
    hide NextScan;
    var w := PcOf(s, t).bval;
    assert BUSY * w == w;
  }

  /** Exchange, choice and AND back of a cell that is not busy, with nobody between them. */
  lemma RoundAt(s: State, t: Tid)
    requires Inv(s) && PcOf(s, t).Scanning? && PcOf(s, t).cell < |s.cells| && s.cells[PcOf(s, t).cell] != BUSY
    ensures var pc := PcOf(s, t);
            var w := s.cells[pc.cell];
            var b := CellChoice(w, pc.n, ItemsInCell(s.numItems, pc.cell));
            var w': Word := if b >= 0 then w + Region(pc.n, b) else w;
            Run(s, Round(t)) ==
              Put(s, t, pc.cell, w',
                  if b >= 0 then Writing(32 * pc.cell + b, pc.n, pc.flags, 0)
                  else NextScan(|s.cells|, pc.n, pc.flags, pc.cell + 1, pc.retries))
  {
    hide Inv, CellChoice, Region, NextScan, Step, Run, ItemsInCell, NumCells, Round, Put;
    InvShape(s);
    RunRound(s, t);
    var pc := PcOf(s, t);
    var c, w := pc.cell, s.cells[pc.cell];
    ExchangeStep(s, t);
    var p1 := Swapped(pc.n, pc.flags, c, pc.retries, w);
    PutFacts(s, t, c, BUSY, p1);
    var s1 := Put(s, t, c, BUSY, p1);
    ChooseStep(s1, t);
    var b := CellChoice(w, pc.n, ItemsInCell(s.numItems, c));
    var w': Word := if b >= 0 then w + Region(pc.n, b) else w;
    var p2 := Chosen(pc.n, pc.flags, c, pc.retries, w', b);
    PutFacts(s1, t, c, BUSY, p2);
    PutPut(s, t, c, BUSY, p1, BUSY, p2);
    var s2 := Put(s, t, c, BUSY, p2);
    AndBackStep(s2, t);
    PutPut(s, t, c, BUSY, p2, w', if b >= 0 then Writing(32 * c + b, pc.n, pc.flags, 0)
      else NextScan(|s.cells|, pc.n, pc.flags, c + 1, pc.retries));
  }

  /** A cell that gives nothing stays as it was, and the scan goes on. */
  lemma RoundRefused(s: State, t: Tid)
    requires Inv(s) && PcOf(s, t).Scanning?
    requires var pc := PcOf(s, t); pc.cell < |s.cells| && NoneGiven(s.cells[pc.cell], pc.n, s.numItems, pc.cell)
    ensures var pc := PcOf(s, t);
            Run(s, Round(t)) == SetPc(s, t, NextScan(|s.cells|, pc.n, pc.flags, pc.cell + 1, pc.retries))
  {
    hide Inv, NoneGiven, CellChoice, Region, Run, NextScan;
    InvShape(s);
    var pc := PcOf(s, t);
    var w := s.cells[pc.cell];
    if w == BUSY {
      BusyRound(s, t);
    } else {
      RoundAt(s, t);
      ChoiceTells(s, Swapped(pc.n, pc.flags, pc.cell, pc.retries, w));
      assert s.cells[pc.cell := w] == s.cells;
    }
  }

  lemma BusyRound(s: State, t: Tid)
    requires !s.assertFailed && PcOf(s, t).Scanning?
    requires PcOf(s, t).cell < |s.cells| && s.cells[PcOf(s, t).cell] == BUSY
    ensures var pc := PcOf(s, t);
            Run(s, Round(t)) == SetPc(s, t, NextScan(|s.cells|, pc.n, pc.flags, pc.cell + 1, pc.retries))
  {
    RunRound(s, t);
    ExchangeStep(s, t);
    assert s.cells[PcOf(s, t).cell := BUSY] == s.cells;
  }

  /** A cell that gives a run gains exactly its bits. */
  lemma RoundTaken(s: State, t: Tid, b: nat)
    requires Inv(s) && PcOf(s, t).Scanning?
    requires var pc := PcOf(s, t); pc.cell < |s.cells| && GivesItems(s.cells[pc.cell], pc.n, s.numItems, pc.cell, b)
    ensures var pc := PcOf(s, t);
            Run(s, Round(t)) ==
              SetPc(s, t, Writing(32 * pc.cell + b, pc.n, pc.flags, 0))
                .(cells := s.cells[pc.cell := s.cells[pc.cell] + Region(pc.n, b)])
  {
    hide Inv, CellChoice, Region, GivesItems, Run, NextScan;
    InvShape(s);
    var pc := PcOf(s, t);
    var w := s.cells[pc.cell];
    NotBusy(w, pc.n, s.numItems, pc.cell, b);
    GivesInItems(w, pc.n, s.numItems, pc.cell, b);
    CellChoiceExact(w, pc.n, ItemsInCell(s.numItems, pc.cell), b);
    RoundAt(s, t);
  }

  lemma NotBusy(w: Word, n: nat, numItems: nat, c: nat, b: nat)
    requires GivesItems(w, n, numItems, c, b)
    ensures w != BUSY
  {
    assert b in BUSY;
  }

  /** A thread that waits for nothing is not moved by rounds. */
  lemma {:induction false} RoundsIdle(s: State, t: Tid, k: nat)
    requires var pc := PcOf(s, t); pc.Aborted? || pc.Writing?
    ensures Run(s, Rounds(t, k)) == s
  {
    if k > 0 {
      RunRound(s, t);
      RoundsIdle(s, t, k - 1);
      RunConcat(s, Round(t), Rounds(t, k - 1));
    }
  }

  /** How many cells the scan still has to try. */
  function Left(pc: Pc, numCells: nat): int {
    if pc.Scanning? then (3 - pc.retries) * numCells - pc.cell else 0
  }

  ghost predicate ScanStarts(s: State, t: Tid, n: nat, flags: nat) {
    var pc := PcOf(s, t);
    && pc.Scanning? && pc.n == n && pc.flags == flags && pc.cell < |s.cells| && pc.retries < 3
    && forall i :: 0 <= i < pc.cell ==> NoneGiven(s.cells[i], n, s.numItems, i)
  }

  lemma NextLeft(numCells: nat, n: nat, flags: nat, cell: nat, r: nat)
    requires cell < numCells && r < 3
    ensures var pc := NextScan(numCells, n, flags, cell + 1, r);
            if r == 2 && cell + 1 == numCells then pc == Aborted
            else pc.Scanning? && pc.n == n && pc.flags == flags && pc.retries < 3
                 && (pc.cell == cell + 1 < numCells || pc.cell == 0 < numCells == cell + 1)
                 && Left(pc, numCells) == Left(Scanning(n, flags, cell, r), numCells) - 1
    ensures Left(Scanning(n, flags, cell, r), numCells) > 0
  {
    if r == 0 {
    } else if r == 1 {
    } else {
    }
  }

  /** A scan whose cells all refuse ends aborted and has changed nothing. */
  lemma {:induction false} ScanFails(s: State, t: Tid, n: nat, flags: nat, k: nat)
    requires Inv(s) && ScanStarts(s, t, n, flags) && NoCell(s, n) && k >= Left(PcOf(s, t), |s.cells|)
    ensures Run(s, Rounds(t, k)) == SetPc(s, t, Aborted)
    decreases k
  {
    hide Inv, NoneGiven, NextScan, Run;
    var pc := PcOf(s, t);
    NextLeft(|s.cells|, n, flags, pc.cell, pc.retries);
    RoundRefused(s, t);
    RunConcat(s, Round(t), Rounds(t, k - 1));
    var s' := Run(s, Round(t));
    RoundKeeps(s, t);
    if PcOf(s', t).Aborted? {
      RoundsIdle(s', t, k - 1);
    } else {
      ScanFails(s', t, n, flags, k - 1);
    }
    assert SetPc(s', t, Aborted) == SetPc(s, t, Aborted);
  }

  lemma RoundKeeps(s: State, t: Tid)
    requires Inv(s)
    ensures Inv(Run(s, Round(t)))
  {
    hide Inv;
    RunKeeps(s, Round(t));
  }

  /** A scan that has not passed the first cell that can give the run takes it there. */
  lemma {:induction false} ScanTakes(s: State, t: Tid, n: nat, flags: nat, c: nat, b: nat, k: nat)
    requires Inv(s) && ScanStarts(s, t, n, flags) && First(s, n, c, b) && k >= Left(PcOf(s, t), |s.cells|)
    ensures Run(s, Rounds(t, k)) ==
              SetPc(s, t, Writing(32 * c + b, n, flags, 0)).(cells := s.cells[c := s.cells[c] + Region(n, b)])
    decreases k
  {
    hide Inv, NextScan, Run, GivesItems;
    var pc := PcOf(s, t);
    NextLeft(|s.cells|, n, flags, pc.cell, pc.retries);
    RunConcat(s, Round(t), Rounds(t, k - 1));
    var s' := Run(s, Round(t));
    assert !NoneGiven(s.cells[c], n, s.numItems, c);
    if pc.cell == c {
      RoundTaken(s, t, b);
      RoundsIdle(s', t, k - 1);
    } else {
      RoundRefused(s, t);
      RoundKeeps(s, t);
      ScanTakes(s', t, n, flags, c, b, k - 1);
      assert SetPc(s', t, Writing(32 * c + b, n, flags, 0)) == SetPc(s, t, Writing(32 * c + b, n, flags, 0));
    }
  }

  /** Writing the descriptors ends with a live block. */
  lemma {:induction false} WritesFinish(s: State, t: Tid, k: nat)
    requires Inv(s) && PcOf(s, t).Writing? && k == PcOf(s, t).n - PcOf(s, t).k
    ensures var pc, s' := PcOf(s, t), Run(s, Writes(t, k));
            && PcOf(s', t) == Idle && s'.cells == s.cells
            && s'.live == s.live[s.nextTicket := Block(pc.idx, pc.n, pc.flags)]
    decreases k
  {
    hide Inv;
    InvShape(s);
    NextDescrUnallocated(s, t);
    StepKeeps(s, WriteDescr(t));
    RunCons(s, WriteDescr(t), Writes(t, k - 1));
    if k > 1 {
      WritesFinish(Step(s, WriteDescr(t)), t, k - 1);
    }
  }

  /** No writes are left over after the last. */
  lemma {:induction false} WritesIdle(s: State, t: Tid, k: nat)
    requires PcOf(s, t).Aborted?
    ensures Run(s, Writes(t, k)) == s
  {
    if k > 0 {
      RunCons(s, WriteDescr(t), Writes(t, k - 1));
      WritesIdle(s, t, k - 1);
    }
  }

  lemma RunAlone(s: State, t: Tid, n: nat, flags: nat)
    ensures Run(s, Alone(t, n, flags, |s.cells|)) ==
              Run(Run(Step(s, StartAlloc(t, n, flags)), Rounds(t, 3 * |s.cells|)), Writes(t, n))
  {
    hide Step;
    RunCons(s, StartAlloc(t, n, flags), Rounds(t, 3 * |s.cells|) + Writes(t, n));
    RunConcat(Step(s, StartAlloc(t, n, flags)), Rounds(t, 3 * |s.cells|), Writes(t, n));
  }

  /**
    A request that runs alone gets the run that starts at the lowest clear bit of
    the first cell that can give it, wherever that cell is and whatever other
    threads have been stopped at; it is aborted if and only if no cell can.
  */
  lemma AloneEnds(s: State, t: Tid, n: nat, flags: nat)
    requires Inv(s) && PcOf(s, t).Idle? && 1 <= n <= 32
    ensures forall c: nat, b: nat :: First(s, n, c, b) ==> AloneTakesAt(s, t, n, flags, c, b)
    ensures var s' := Run(s, Alone(t, n, flags, |s.cells|));
            && (PcOf(s', t).Aborted? <==> NoCell(s, n))
            && (NoCell(s, n) ==> s'.cells == s.cells && s'.live == s.live)
  {
    hide Inv, Run, First, NoCell;
    if NoCell(s, n) {
      AloneFails(s, t, n, flags);
    }
    forall c: nat, b: nat | First(s, n, c, b)
      ensures AloneTakesAt(s, t, n, flags, c, b)
    {
      AloneTakes(s, t, n, flags, c, b);
    }
    if !NoCell(s, n) {
      var c, b := FirstExists(s, n);
      assert AloneTakesAt(s, t, n, flags, c, b);
    }
  }

  /** Alone the request ends with a live block of these items, and the cell has gained just their bits. */
  ghost predicate AloneTakesAt(s: State, t: Tid, n: nat, flags: nat, c: nat, b: nat) {
    var s' := Run(s, Alone(t, n, flags, |s.cells|));
    && c < |s.cells| && PcOf(s', t) == Idle
    && s'.live == s.live[s.nextTicket := Block(32 * c + b, n, flags)]
    && s'.cells == s.cells[c := s.cells[c] + Region(n, b)]
  }

  lemma FirstExists(s: State, n: nat) returns (c: nat, b: nat)
    requires !NoCell(s, n)
    ensures First(s, n, c, b)
  {
    hide GivesItems;
    c := 0;
    while NoneGiven(s.cells[c], n, s.numItems, c)
      invariant c < |s.cells| && forall i :: 0 <= i < c ==> NoneGiven(s.cells[i], n, s.numItems, i)
      decreases |s.cells| - c
    {
      c := c + 1;
    }
    b :| GivesItems(s.cells[c], n, s.numItems, c, b);
  }

  /** The state in which the scan begins. */
  lemma AloneStarts(s: State, t: Tid, n: nat, flags: nat)
    requires Inv(s) && PcOf(s, t).Idle? && 1 <= n <= 32
    ensures var s1 := Step(s, StartAlloc(t, n, flags));
            && Inv(s1) && s1.cells == s.cells && s1.live == s.live && s1.nextTicket == s.nextTicket
            && s1.numItems == s.numItems
            && if |s.cells| == 0 then PcOf(s1, t) == Aborted
               else ScanStarts(s1, t, n, flags) && Left(PcOf(s1, t), |s.cells|) == 3 * |s.cells|
  {
    hide Inv, NoneGiven;
    InvShape(s);
    StepKeeps(s, StartAlloc(t, n, flags));
  }

  lemma AloneFails(s: State, t: Tid, n: nat, flags: nat)
    requires Inv(s) && PcOf(s, t).Idle? && 1 <= n <= 32 && NoCell(s, n)
    ensures var s' := Run(s, Alone(t, n, flags, |s.cells|));
            PcOf(s', t).Aborted? && s'.cells == s.cells && s'.live == s.live
  {
    hide Inv, Run, NoneGiven, ScanStarts, Left, Step;
    RunAlone(s, t, n, flags);
    AloneStarts(s, t, n, flags);
    var s1 := Step(s, StartAlloc(t, n, flags));
    if |s.cells| == 0 {
      RoundsIdle(s1, t, 3 * |s.cells|);
    } else {
      ScanFails(s1, t, n, flags, 3 * |s.cells|);
    }
    WritesIdle(Run(s1, Rounds(t, 3 * |s.cells|)), t, n);
  }

  lemma AloneTakes(s: State, t: Tid, n: nat, flags: nat, c: nat, b: nat)
    requires Inv(s) && PcOf(s, t).Idle? && 1 <= n <= 32 && First(s, n, c, b)
    ensures AloneTakesAt(s, t, n, flags, c, b)
  {
    hide Inv, Run, NoneGiven, GivesItems, ScanStarts, Left, Step;
    RunAlone(s, t, n, flags);
    AloneStarts(s, t, n, flags);
    var s1 := Step(s, StartAlloc(t, n, flags));
    ScanTakes(s1, t, n, flags, c, b, 3 * |s.cells|);
    var s2 := Run(s1, Rounds(t, 3 * |s.cells|));
    RoundsNonEmpty(t, 3 * |s.cells|);
    RunKeeps(s1, Rounds(t, 3 * |s.cells|));
    WritesFinish(s2, t, n);
  }

  lemma {:induction false} RoundsNonEmpty(t: Tid, k: nat)
    ensures NonEmptyRequests(Rounds(t, k))
  {
    if k > 0 {
      RoundsNonEmpty(t, k - 1);
    }
  }

  // ---------------------------------------------------------------------
  // A free that runs alone
  // ---------------------------------------------------------------------

  function Clears(t: Tid, k: nat): seq<Action> {
    if k == 0 then [] else [ClearDescr(t)] + Clears(t, k - 1)
  }

  /** All the steps of freeing a block of `n` fragments at `f`. */
  function FreeSteps(t: Tid, k: Ticket, f: nat, n: nat): seq<Action> {
    [StartFree(t, k, f)] + (Clears(t, n) + [FreeAnd(t)])
  }

  /** The descriptors from `from` to `to` have become unallocated, and the others are as they were. */
  predicate Cleared(descr: seq<Descr>, descr': seq<Descr>, from: nat, to: nat) {
    && |descr'| == |descr|
    && forall f :: 0 <= f < |descr| ==>
         descr'[f] == if from <= f < to then descr[f].(fdType := UNALLOCATED) else descr[f]
  }

  lemma ClearOne(s: State, t: Tid)
    requires Inv(s) && PcOf(s, t).Clearing? && PcOf(s, t).k < PcOf(s, t).n
    ensures var pc, s' := PcOf(s, t), Step(s, ClearDescr(t));
            && PcOf(s', t) == Clearing(pc.idx, pc.n, pc.flags, pc.k + 1)
            && s'.cells == s.cells && s'.live == s.live && s'.wraps == s.wraps
            && Cleared(s.descr, s'.descr, pc.idx + pc.k, pc.idx + pc.k + 1)
  {
    hide Inv;
    InvShape(s);
    InvDescr(s);
  }

  lemma InvDescr(s: State)
    requires Inv(s)
    ensures |s.descr| == s.numItems
  {
  }

  lemma ClearedTrans(a: seq<Descr>, b: seq<Descr>, c: seq<Descr>, i: nat, j: nat, k: nat)
    requires Cleared(a, b, i, j) && Cleared(b, c, j, k) && i <= j <= k
    ensures Cleared(a, c, i, k)
  {
  }

  lemma {:induction false} ClearsFinish(s: State, t: Tid, j: nat)
    requires Inv(s) && PcOf(s, t).Clearing? && PcOf(s, t).k <= PcOf(s, t).n && j == PcOf(s, t).n - PcOf(s, t).k
    ensures var pc, s' := PcOf(s, t), Run(s, Clears(t, j));
            && Inv(s') && PcOf(s', t) == Clearing(pc.idx, pc.n, pc.flags, pc.n)
            && s'.cells == s.cells && s'.live == s.live && s'.wraps == s.wraps
            && Cleared(s.descr, s'.descr, pc.idx + pc.k, pc.idx + pc.n)
    decreases j
  {
    hide Inv, Step, Cleared;
    if j == 0 {
      NothingCleared(s.descr, PcOf(s, t).idx + PcOf(s, t).n);
    } else {
      var pc, s1 := PcOf(s, t), Step(s, ClearDescr(t));
      ClearOne(s, t);
      StepKeeps(s, ClearDescr(t));
      RunCons(s, ClearDescr(t), Clears(t, j - 1));
      ClearsFinish(s1, t, j - 1);
      ClearedTrans(s.descr, s1.descr, Run(s1, Clears(t, j - 1)).descr, pc.idx + pc.k, pc.idx + pc.k + 1, pc.idx + pc.n);
    }
  }

  lemma NothingCleared(descr: seq<Descr>, i: nat)
    ensures Cleared(descr, descr, i, i)
  {
  }

  /**
    A free that runs alone ends: the block is no longer live, its descriptors and no
    others are unallocated, and its cell has lost just its bits, except that shift
    counts that wrap leave a whole cell as it was.
  */
  lemma FreeEnds(s: State, t: Tid, k: Ticket)
    requires Inv(s) && PcOf(s, t).Idle? && k in s.live
    ensures var blk := s.live[k];
            var s' := Run(s, FreeSteps(t, k, blk.idx, blk.n));
            && PcOf(s', t) == Idle && s'.live == s.live - {k}
            && Cleared(s.descr, s'.descr, blk.idx, blk.idx + blk.n)
            && blk.idx / 32 < |s.cells|
            && s'.cells == if s.wraps && blk.n == 32 then s.cells
                           else s.cells[blk.idx / 32 := s.cells[blk.idx / 32] - Region(blk.n, blk.idx % 32)]
  {
    hide Inv, Step, Cleared, Run, Region;
    var blk := s.live[k];
    var s1 := Step(s, StartFree(t, k, blk.idx));
    FreeStarts(s, t, k);
    ClearsFinish(s1, t, blk.n);
    var s2 := Run(s1, Clears(t, blk.n));
    RunCons(s, StartFree(t, k, blk.idx), Clears(t, blk.n) + [FreeAnd(t)]);
    RunConcat(s1, Clears(t, blk.n), [FreeAnd(t)]);
    RunOne(s2, FreeAnd(t));
    FreeStops(s2, t);
  }

  lemma FreeStarts(s: State, t: Tid, k: Ticket)
    requires Inv(s) && PcOf(s, t).Idle? && k in s.live
    ensures var blk := s.live[k];
            var s1 := Step(s, StartFree(t, k, blk.idx));
            && Inv(s1) && PcOf(s1, t) == Clearing(blk.idx, blk.n, blk.flags, 0) && s1.live == s.live - {k}
            && s1.cells == s.cells && s1.descr == s.descr && s1.wraps == s.wraps && 1 <= blk.n <= 32
  {
    hide Inv;
    InvShape(s);
    LiveHead(s, k);
    LiveInside(s, k);
    StepKeeps(s, StartFree(t, k, s.live[k].idx));
  }

  lemma LiveInside(s: State, k: Ticket)
    requires Inv(s) && k in s.live
    ensures OneCell(s.numItems, s.live[k].idx, s.live[k].n)
  {
  }

  lemma FreeStops(s: State, t: Tid)
    requires Inv(s) && PcOf(s, t).Clearing? && PcOf(s, t).k == PcOf(s, t).n
    ensures var pc, s' := PcOf(s, t), Step(s, FreeAnd(t));
            && PcOf(s', t) == Idle && s'.live == s.live && s'.descr == s.descr && pc.idx / 32 < |s.cells|
            && s'.cells == if s.wraps && pc.n == 32 then s.cells
                           else s.cells[pc.idx / 32 := s.cells[pc.idx / 32] - Region(pc.n, pc.idx % 32)]
  {
    hide Inv;
    InvShape(s);
    var pc := PcOf(s, t);
    var c := pc.idx / 32;
    assert PcOk(s.numItems, pc);
    if s.wraps && pc.n == 32 {
      assert RegMask(32, pc.idx % 32, true) == {};
      assert s.cells[c] - {} == s.cells[c] && s.cells[c := s.cells[c]] == s.cells;
    }
  }
}
