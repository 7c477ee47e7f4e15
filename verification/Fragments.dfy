/**
  The page-fragment allocator under concurrency.

  Any number of threads allocate and free runs of at most 32 fragments. Each
  shared access is one step: exchanging a bitmap cell with BUSY, ANDing a value
  back, writing one fragment descriptor, clearing one descriptor, ANDing a
  freed run away. Steps of different threads interleave in any order.

  The central invariant is a token per bit: every bit is in exactly one place,
  which is the cell (as a zero), the private copy of one thread (as a zero),
  the run one thread is working on, one live block, or a cell that was lost:
  where the machine takes shift counts modulo 32, freeing a block of 32
  fragments clears none of its bits.
*/
module Fragments {
  import opened Bitmap

  const UNALLOCATED: int := -2
  const REFERENCE: int := -1

  /** `word` is the union of a block's size and a reference's offset. */
  datatype Descr = Descr(fdType: int, word: nat)

  datatype Block = Block(idx: nat, n: nat, flags: nat)

  /** What a thread is about to do next, with its local variables. */
  datatype Pc =
    | Idle
    | Scanning(n: nat, flags: nat, cell: nat, retries: nat)
    | Swapped(n: nat, flags: nat, cell: nat, retries: nat, bval: Word)
    | Chosen(n: nat, flags: nat, cell: nat, retries: nat, bval: Word, bidx: int)
    | Writing(idx: nat, n: nat, flags: nat, k: nat)
    | Clearing(idx: nat, n: nat, flags: nat, k: nat)
    | Aborted

  type Tid = nat
  type Ticket = nat

  /** `freedWhole` records the cells in which a block of 32 fragments was freed. */
  datatype State = State(
    numItems: nat,
    wraps: bool,
    cells: seq<Word>,
    descr: seq<Descr>,
    threads: map<Tid, Pc>,
    live: map<Ticket, Block>,
    nextTicket: nat,
    assertFailed: bool,
    freedWhole: set<nat>)

  datatype Action =
    | StartAlloc(t: Tid, n: nat, flags: nat)
    | Exchange(t: Tid)
    | Choose(t: Tid)
    | AndBack(t: Tid)
    | WriteDescr(t: Tid)
    | StartFree(t: Tid, ticket: Ticket, f: nat)
    | ClearDescr(t: Tid)
    | FreeAnd(t: Tid)

  function Init(numItems: nat, wraps: bool): (s: State) {
    State(numItems, wraps, seq(NumCells(numItems), _ => {}), seq(numItems, _ => Descr(UNALLOCATED, 0)),
          map[], map[], 0, false, {})
  }

  // ---------------------------------------------------------------------
  // Steps. An action that is not enabled leaves the state unchanged.
  // ---------------------------------------------------------------------

  function PcOf(s: State, t: Tid): Pc {
    if t in s.threads then s.threads[t] else Idle
  }

  function SetPc(s: State, t: Tid, pc: Pc): State {
    s.(threads := s.threads[t := pc])
  }

  /** Next cell to try; after the last cell the scan restarts, three times in all. */
  function NextScan(numCells: nat, n: nat, flags: nat, cell: nat, retries: nat): (pc: Pc) {
    if cell < numCells then Scanning(n, flags, cell, retries)
    else if retries + 1 < MAX_RETRIES && numCells > 0 then Scanning(n, flags, 0, retries + 1)
    else Aborted
  }

  function DoStartAlloc(s: State, t: Tid, n: nat, flags: nat): State {
    if PcOf(s, t).Idle? && n <= 32 then SetPc(s, t, NextScan(|s.cells|, n, flags, 0, 0)) else s
  }

  function DoExchange(s: State, t: Tid): State {
    match PcOf(s, t)
    case Scanning(n, flags, c, r) =>
      if c < |s.cells| then
        var s' := s.(cells := s.cells[c := BUSY]);
        if s.cells[c] == BUSY then SetPc(s', t, NextScan(|s.cells|, n, flags, c + 1, r))
        else SetPc(s', t, Swapped(n, flags, c, r, s.cells[c]))
      else s
    case _ => s
  }

  function DoChoose(s: State, t: Tid): State {
    match PcOf(s, t)
    case Swapped(n, flags, c, r, bval) =>
      if bval != BUSY && n <= 32 && c < NumCells(s.numItems) then
        var b := CellChoice(bval, n, ItemsInCell(s.numItems, c));
        var bval' := if b >= 0 then bval + Region(n, b) else bval;
        SetPc(s, t, Chosen(n, flags, c, r, bval', b))
      else s
    case _ => s
  }

  function DoAndBack(s: State, t: Tid): State {
    match PcOf(s, t)
    case Chosen(n, flags, c, r, bval, b) =>
      if c < |s.cells| then
        var s' := s.(cells := s.cells[c := s.cells[c] * bval]);
        if b >= 0 then SetPc(s', t, Writing(32 * c + b, n, flags, 0))
        else SetPc(s', t, NextScan(|s.cells|, n, flags, c + 1, r))
      else s
    case _ => s
  }

  /** The first descriptor is written even when no fragment was requested. */
  function DoWriteDescr(s: State, t: Tid): State {
    match PcOf(s, t)
    case Writing(idx, n, flags, k) =>
      if idx + k >= |s.descr| then s
      else if s.descr[idx + k].fdType != UNALLOCATED then s.(assertFailed := true)
      else
        var d := if k == 0 then Descr(flags, n) else Descr(REFERENCE, k);
        var s' := s.(descr := s.descr[idx + k := d]);
        if k + 1 < n then SetPc(s', t, Writing(idx, n, flags, k + 1))
        else SetPc(s', t, Idle).(live := s.live[s.nextTicket := Block(idx, n, flags)],
                                 nextTicket := s.nextTicket + 1)
    case _ => s
  }

  /** The owner of a live block frees it; its size is read from the descriptor. */
  function DoStartFree(s: State, t: Tid, ticket: Ticket): State {
    if PcOf(s, t).Idle? && ticket in s.live && s.live[ticket].idx < |s.descr| then
      var blk := s.live[ticket];
      var d := s.descr[blk.idx];
      if d.fdType < 0 then s
      else SetPc(s, t, Clearing(blk.idx, d.word, blk.flags, 0)).(live := s.live - {ticket})
    else s
  }

  /**
    A pointer into fragment `f` is freed. A negative type is refused; a pointer
    to the start of a block must come from its owner.
  */
  function DoFree(s: State, t: Tid, ticket: Ticket, f: nat): State {
    if !PcOf(s, t).Idle? || f >= |s.descr| || s.descr[f].fdType < 0 then s
    else if ticket in s.live && s.live[ticket].idx == f then DoStartFree(s, t, ticket)
    else s
  }

  function DoClearDescr(s: State, t: Tid): State {
    match PcOf(s, t)
    case Clearing(idx, n, flags, k) =>
      if k < n && idx + k < |s.descr| then
        SetPc(s.(descr := s.descr[idx + k := s.descr[idx + k].(fdType := UNALLOCATED)]),
              t, Clearing(idx, n, flags, k + 1))
      else s
    case _ => s
  }

  function DoFreeAnd(s: State, t: Tid): State {
    match PcOf(s, t)
    case Clearing(idx, n, flags, k) =>
      if k == n && idx / 32 < |s.cells| then
        var cell := s.cells[idx / 32] - RegMask(n, idx % 32, s.wraps);
        SetPc(s.(cells := s.cells[idx / 32 := cell],
                 freedWhole := s.freedWhole + if n == 32 then {idx / 32} else {}), t, Idle)
      else s
    case _ => s
  }

  function Step(s: State, a: Action): State {
    if s.assertFailed then s else
    match a
    case StartAlloc(t, n, flags) => DoStartAlloc(s, t, n, flags)
    case Exchange(t) => DoExchange(s, t)
    case Choose(t) => DoChoose(s, t)
    case AndBack(t) => DoAndBack(s, t)
    case WriteDescr(t) => DoWriteDescr(s, t)
    case StartFree(t, ticket, f) => DoFree(s, t, ticket, f)
    case ClearDescr(t) => DoClearDescr(s, t)
    case FreeAnd(t) => DoFreeAnd(s, t)
  }

  function Run(s: State, actions: seq<Action>): State
    decreases |actions|
  {
    if actions == [] then s else Run(Step(s, actions[0]), actions[1..])
  }

  /** Every request asks for at least one fragment. */
  predicate NonEmptyRequests(actions: seq<Action>) {
    forall i :: 0 <= i < |actions| ==> (actions[i].StartAlloc? ==> actions[i].n > 0)
  }

  // ---------------------------------------------------------------------
  // The token invariant
  // ---------------------------------------------------------------------

  datatype Place = InCell | InCopy(t: Tid) | InRun(t: Tid) | InLive(ticket: Ticket) | InLost

  predicate Within(idx: nat, n: nat, f: nat) {
    idx <= f < idx + n
  }

  /** A run lies inside one cell and inside the bitmap. */
  predicate OneCell(numItems: nat, idx: nat, n: nat) {
    && 1 <= n <= 32
    && idx % 32 + n <= 32
    && idx + n <= numItems
  }

  predicate InRunOf(pc: Pc, f: nat) {
    match pc
    case Chosen(n, _, c, _, _, b) => b >= 0 && Within(32 * c + b, n, f)
    case Writing(idx, n, _, _) => Within(idx, n, f)
    case Clearing(idx, n, _, _) => Within(idx, n, f)
    case _ => false
  }

  predicate InCopyOf(pc: Pc, c: nat, b: nat) {
    (pc.Swapped? || pc.Chosen?) && pc.cell == c && b !in pc.bval
  }

  /** A block of the whole cell was freed without effect on the bitmap. */
  predicate Lost(s: State, c: nat) {
    s.wraps && c in s.freedWhole
  }

  /** Bit `b` of cell `c` is at place `p`. */
  predicate Holds(s: State, p: Place, c: nat, b: nat)
    requires c < |s.cells|
  {
    match p
    case InCell => b !in s.cells[c]
    case InCopy(t) => InCopyOf(PcOf(s, t), c, b)
    case InRun(t) => InRunOf(PcOf(s, t), 32 * c + b)
    case InLive(k) => k in s.live && Within(s.live[k].idx, s.live[k].n, 32 * c + b)
    case InLost => Lost(s, c)
  }

  ghost predicate Placed(s: State, c: nat, b: nat)
    requires c < |s.cells|
  {
    exists p :: Holds(s, p, c, b)
  }

  ghost predicate TokensExist(s: State) {
    forall c, b :: 0 <= c < |s.cells| && 0 <= b < 32 ==> Placed(s, c, b)
  }

  ghost predicate TokensUnique(s: State) {
    forall c, b, p, q :: 0 <= c < |s.cells| && 0 <= b < 32 && Holds(s, p, c, b) && Holds(s, q, c, b) ==> p == q
  }

  // ---------------------------------------------------------------------
  // Descriptors agree with the tokens
  // ---------------------------------------------------------------------

  predicate Describes(d: Descr, blk: Block, f: nat)
    requires blk.idx <= f
  {
    if f == blk.idx then d == Descr(blk.flags, blk.n) else d == Descr(REFERENCE, f - blk.idx)
  }

  predicate RunDescr(pc: Pc, d: Descr, f: nat)
    requires InRunOf(pc, f)
  {
    match pc
    case Writing(idx, n, flags, k) =>
      if f < idx + k then Describes(d, Block(idx, n, flags), f) else d.fdType == UNALLOCATED
    case Clearing(idx, n, flags, k) =>
      if f < idx + k then d.fdType == UNALLOCATED else Describes(d, Block(idx, n, flags), f)
    case _ => d.fdType == UNALLOCATED
  }

  predicate PlaceDescr(s: State, p: Place, c: nat, b: nat)
    requires c < |s.cells|
    requires Holds(s, p, c, b)
    requires 32 * c + b < |s.descr|
  {
    match p
    case InCell => s.descr[32 * c + b].fdType == UNALLOCATED
    case InCopy(t) => s.descr[32 * c + b].fdType == UNALLOCATED
    case InLost => s.descr[32 * c + b].fdType == UNALLOCATED
    case InRun(t) => RunDescr(PcOf(s, t), s.descr[32 * c + b], 32 * c + b)
    case InLive(k) => Describes(s.descr[32 * c + b], s.live[k], 32 * c + b)
  }

  ghost predicate DescrAgree(s: State) {
    forall c, b, p :: 0 <= c < |s.cells| && 0 <= b < 32 && 32 * c + b < |s.descr| && Holds(s, p, c, b)
                      ==> PlaceDescr(s, p, c, b)
  }

  predicate PcOk(numItems: nat, pc: Pc) {
    match pc
    case Idle => true
    case Aborted => true
    case Scanning(n, _, c, _) => 1 <= n <= 32 && c < NumCells(numItems)
    case Swapped(n, _, c, _, bval) => 1 <= n <= 32 && c < NumCells(numItems) && bval != BUSY
    case Chosen(n, _, c, _, bval, b) =>
      1 <= n <= 32 && c < NumCells(numItems) && b >= -1 && (b >= 0 ==> OneCell(numItems, 32 * c + b, n) && b < 32)
    case Writing(idx, n, _, k) => OneCell(numItems, idx, n) && k < n
    case Clearing(idx, n, _, k) => OneCell(numItems, idx, n) && k <= n
  }

  ghost predicate Shape(s: State) {
    && |s.cells| == NumCells(s.numItems)
    && |s.descr| == s.numItems
    && (forall t :: t in s.threads ==> PcOk(s.numItems, s.threads[t]))
    && (forall k :: k in s.live ==> k < s.nextTicket && OneCell(s.numItems, s.live[k].idx, s.live[k].n))
  }

  ghost predicate Inv(s: State) {
    Shape(s) && TokensExist(s) && TokensUnique(s) && DescrAgree(s) && !s.assertFailed
  }

  // ---------------------------------------------------------------------
  // Every step keeps the invariant
  // ---------------------------------------------------------------------

  /** Bits move from one place to another; everything else stays where it is. */
  ghost predicate MovesAt(s: State, s': State, from: Place, to: Place, c: nat, b: nat)
    requires c < |s.cells| == |s'.cells|
  {
    && (forall p :: p != from && p != to ==> Holds(s', p, c, b) == Holds(s, p, c, b))
    && (Holds(s', from, c, b) || Holds(s', to, c, b) <==> Holds(s, from, c, b) || Holds(s, to, c, b))
    && !(Holds(s', from, c, b) && Holds(s', to, c, b))
  }

  lemma MovePlaces(s: State, s': State, from: Place, to: Place, c: nat, b: nat)
    requires c < |s.cells| == |s'.cells|
    requires Placed(s, c, b)
    requires MovesAt(s, s', from, to, c, b)
    ensures Placed(s', c, b)
  {
    var p :| Holds(s, p, c, b);
    if p == from || p == to {
      assert Holds(s', from, c, b) || Holds(s', to, c, b);
    } else {
      assert Holds(s', p, c, b);
    }
  }

  lemma MoveKeepsTokens(s: State, s': State, from: Place, to: Place)
    requires |s.cells| == |s'.cells|
    requires from != to
    requires TokensExist(s) && TokensUnique(s)
    requires forall c, b :: 0 <= c < |s.cells| && 0 <= b < 32 ==> MovesAt(s, s', from, to, c, b)
    ensures TokensExist(s') && TokensUnique(s')
  {
    forall c, b | 0 <= c < |s.cells| && 0 <= b < 32
      ensures Placed(s', c, b)
    {
      MovePlaces(s, s', from, to, c, b);
    }
    forall c, b, p, q | 0 <= c < |s.cells| && 0 <= b < 32 && Holds(s', p, c, b) && Holds(s', q, c, b)
      ensures p == q
    {
      assert MovesAt(s, s', from, to, c, b);
      var p0 := if Holds(s, p, c, b) then p else if p == from then to else from;
      var q0 := if Holds(s, q, c, b) then q else if q == from then to else from;
      assert Holds(s, p0, c, b) && Holds(s, q0, c, b);
    }
  }

  lemma StartAllocKeeps(s: State, t: Tid, n: nat, flags: nat)
    requires Inv(s) && n > 0
    ensures Inv(DoStartAlloc(s, t, n, flags))
  {
    var s' := DoStartAlloc(s, t, n, flags);
    forall c, b, p | 0 <= c < |s.cells| && 0 <= b < 32
      ensures Holds(s', p, c, b) == Holds(s, p, c, b)
    {
    }
    forall c, b | 0 <= c < |s.cells| && 0 <= b < 32
      ensures Placed(s', c, b)
    {
      assert Placed(s, c, b);
    }
  }

  lemma ExchangeStays(s: State, t: Tid, c: nat, b: nat, p: Place)
    requires Shape(s) && PcOf(s, t).Scanning?
    requires c < |s.cells| && b < 32
    requires p != InCell && p != InCopy(t)
    ensures Holds(DoExchange(s, t), p, c, b) == Holds(s, p, c, b)
  {
    hide NumCells, PcOk;
  }

  lemma ExchangeMoves(s: State, t: Tid, c: nat, b: nat)
    requires Shape(s) && PcOf(s, t).Scanning?
    requires c < |s.cells| && b < 32
    ensures MovesAt(s, DoExchange(s, t), InCell, InCopy(t), c, b)
  {
    hide NumCells, PcOk;
    forall p | p != InCell && p != InCopy(t)
      ensures Holds(DoExchange(s, t), p, c, b) == Holds(s, p, c, b)
    {
      ExchangeStays(s, t, c, b, p);
    }
  }

  lemma ExchangeDescr(s: State, t: Tid, c: nat, b: nat, p: Place)
    requires Shape(s) && PcOf(s, t).Scanning?
    requires c < |s.cells| && b < 32 && 32 * c + b < |s.descr|
    requires Holds(DoExchange(s, t), p, c, b)
    requires var p0 := if p == InCopy(t) then InCell else p;
             Holds(s, p0, c, b) && PlaceDescr(s, p0, c, b)
    ensures PlaceDescr(DoExchange(s, t), p, c, b)
  {
  }

  lemma ExchangeKeeps(s: State, t: Tid)
    requires Inv(s)
    ensures Inv(DoExchange(s, t))
  {
    hide CellChoice, Region, OneCell, NumCells, ItemsInCell, PlaceDescr;
    var s' := DoExchange(s, t);
    if s' != s {
      forall c, b | 0 <= c < |s.cells| && 0 <= b < 32
        ensures MovesAt(s, s', InCell, InCopy(t), c, b)
      {
        ExchangeMoves(s, t, c, b);
      }
      MoveKeepsTokens(s, s', InCell, InCopy(t));
      forall c, b, p | 0 <= c < |s.cells| && 0 <= b < 32 && 32 * c + b < |s.descr| && Holds(s', p, c, b)
        ensures PlaceDescr(s', p, c, b)
      {
        var p0 := if p == InCopy(t) then InCell else p;
        assert MovesAt(s, s', InCell, InCopy(t), c, b);
        assert PlaceDescr(s, p0, c, b);
        ExchangeDescr(s, t, c, b, p);
      }
    }
  }

  lemma ChooseStays(s: State, t: Tid, c: nat, b: nat, p: Place)
    requires Shape(s) && PcOf(s, t).Swapped?
    requires c < |s.cells| && b < 32
    requires p != InCopy(t) && p != InRun(t)
    ensures Holds(DoChoose(s, t), p, c, b) == Holds(s, p, c, b)
  {
    hide CellChoice, NumCells, ItemsInCell, Region, PcOk, OneCell;
  }

  /** The chosen bits leave the copy for the run. */
  lemma ChosenBits(pc: Pc, pc': Pc, c: nat, b: nat, maxItems: nat)
    requires pc.Swapped? && pc.bval != BUSY && pc.n <= 32 && maxItems <= 32 && b < 32
    requires var i := CellChoice(pc.bval, pc.n, maxItems);
             var bval' := if i >= 0 then pc.bval + Region(pc.n, i) else pc.bval;
             pc' == Chosen(pc.n, pc.flags, pc.cell, pc.retries, bval', i)
    ensures InCopyOf(pc', c, b) || InRunOf(pc', 32 * c + b) <==> InCopyOf(pc, c, b)
    ensures !(InCopyOf(pc', c, b) && InRunOf(pc', 32 * c + b))
  {
    hide CellChoice;
    CellChoiceIsClear(pc.bval, pc.n, maxItems);
  }

  lemma ChooseMoves(s: State, t: Tid, c: nat, b: nat)
    requires Shape(s) && PcOf(s, t).Swapped?
    requires c < |s.cells| && b < 32
    ensures MovesAt(s, DoChoose(s, t), InCopy(t), InRun(t), c, b)
  {
    hide CellChoice, ItemsInCell, Region, InCopyOf, InRunOf, NumCells;
    var pc, s' := PcOf(s, t), DoChoose(s, t);
    assert PcOk(s.numItems, pc);
    ChosenBits(pc, PcOf(s', t), c, b, ItemsInCell(s.numItems, pc.cell));
    SwappedNoRun(pc, 32 * c + b);
    forall p | p != InCopy(t) && p != InRun(t)
      ensures Holds(s', p, c, b) == Holds(s, p, c, b)
    {
      ChooseStays(s, t, c, b, p);
    }
  }

  lemma SwappedNoRun(pc: Pc, f: nat)
    requires pc.Swapped?
    ensures !InRunOf(pc, f)
  {
  }

  lemma ChooseDescr(s: State, t: Tid, c: nat, b: nat, p: Place)
    requires Shape(s) && PcOf(s, t).Swapped?
    requires c < |s.cells| && b < 32 && 32 * c + b < |s.descr|
    requires Holds(DoChoose(s, t), p, c, b)
    requires var p0 := if p == InRun(t) then InCopy(t) else p;
             Holds(s, p0, c, b) && PlaceDescr(s, p0, c, b)
    ensures PlaceDescr(DoChoose(s, t), p, c, b)
  {
    var pc := PcOf(s, t);
    CellChoiceIsClear(pc.bval, pc.n, ItemsInCell(s.numItems, pc.cell));
  }

  lemma ChooseShape(s: State, t: Tid)
    requires Shape(s) && PcOf(s, t).Swapped?
    ensures Shape(DoChoose(s, t))
  {
    hide CellChoice, Region, OneCell, PcOk, NumCells, ItemsInCell;
    var pc := PcOf(s, t);
    assert PcOk(s.numItems, pc);
    ChosenOk(s.numItems, pc);
  }

  lemma ChosenOk(numItems: nat, pc: Pc)
    requires pc.Swapped? && PcOk(numItems, pc)
    ensures pc.bval != BUSY && pc.n <= 32 && pc.cell < NumCells(numItems) ==>
              var b := CellChoice(pc.bval, pc.n, ItemsInCell(numItems, pc.cell));
              var bval' := if b >= 0 then pc.bval + Region(pc.n, b) else pc.bval;
              PcOk(numItems, Chosen(pc.n, pc.flags, pc.cell, pc.retries, bval', b))
  {
    hide CellChoice, NumCells, ItemsInCell, OneCell;
    if pc.bval != BUSY && pc.n <= 32 && pc.cell < NumCells(numItems) {
      var b := CellChoice(pc.bval, pc.n, ItemsInCell(numItems, pc.cell));
      CellChoiceIsClear(pc.bval, pc.n, ItemsInCell(numItems, pc.cell));
      if b >= 0 {
        RunInCell(numItems, pc.cell, b, pc.n);
      }
      CellChoiceRange(pc.bval, pc.n, ItemsInCell(numItems, pc.cell));
    }
  }

  /** A run inside the items of a cell. */
  lemma RunInCell(numItems: nat, c: nat, b: nat, n: nat)
    requires c < NumCells(numItems) && b < 32 && 1 <= n <= 32 && b + n <= ItemsInCell(numItems, c)
    ensures OneCell(numItems, 32 * c + b, n)
  {
    hide NumCells, ItemsInCell;
    assert (32 * c + b) % 32 == b;
  }

  lemma CellChoiceRange(bval: Word, num: nat, maxItems: nat)
    requires bval != BUSY && num <= 32
    ensures CellChoice(bval, num, maxItems) >= -1
  {
  }

  lemma ChooseKeeps(s: State, t: Tid)
    requires Inv(s)
    ensures Inv(DoChoose(s, t))
  {
    hide CellChoice, Region, OneCell, NumCells, ItemsInCell, PlaceDescr;
    var s' := DoChoose(s, t);
    if s' != s {
      ChooseShape(s, t);
      forall c, b | 0 <= c < |s.cells| && 0 <= b < 32
        ensures MovesAt(s, s', InCopy(t), InRun(t), c, b)
      {
        ChooseMoves(s, t, c, b);
      }
      MoveKeepsTokens(s, s', InCopy(t), InRun(t));
      forall c, b, p | 0 <= c < |s.cells| && 0 <= b < 32 && 32 * c + b < |s.descr| && Holds(s', p, c, b)
        ensures PlaceDescr(s', p, c, b)
      {
        var p0 := if p == InRun(t) then InCopy(t) else p;
        assert MovesAt(s, s', InCopy(t), InRun(t), c, b);
        assert PlaceDescr(s, p0, c, b);
        ChooseDescr(s, t, c, b, p);
      }
    }
  }

  lemma AndBackStays(s: State, t: Tid, c: nat, b: nat, p: Place)
    requires Shape(s) && PcOf(s, t).Chosen?
    requires c < |s.cells| && b < 32
    requires p != InCopy(t) && p != InCell
    ensures Holds(DoAndBack(s, t), p, c, b) == Holds(s, p, c, b)
  {
    hide NumCells, PcOk;
  }

  lemma AndBackMoves(s: State, t: Tid, c: nat, b: nat)
    requires Shape(s) && PcOf(s, t).Chosen?
    requires c < |s.cells| && b < 32
    ensures MovesAt(s, DoAndBack(s, t), InCopy(t), InCell, c, b)
  {
    hide NumCells, PcOk;
    forall p | p != InCopy(t) && p != InCell
      ensures Holds(DoAndBack(s, t), p, c, b) == Holds(s, p, c, b)
    {
      AndBackStays(s, t, c, b, p);
    }
  }

  lemma AndBackDescr(s: State, t: Tid, c: nat, b: nat, p: Place)
    requires Shape(s) && PcOf(s, t).Chosen?
    requires c < |s.cells| && b < 32 && 32 * c + b < |s.descr|
    requires Holds(DoAndBack(s, t), p, c, b)
    requires var p0 := if p == InCell && !Holds(s, p, c, b) then InCopy(t) else p;
             Holds(s, p0, c, b) && PlaceDescr(s, p0, c, b)
    ensures PlaceDescr(DoAndBack(s, t), p, c, b)
  {
  }

  lemma AndBackKeeps(s: State, t: Tid)
    requires Inv(s)
    ensures Inv(DoAndBack(s, t))
  {
    hide CellChoice, Region, OneCell, NumCells, ItemsInCell, PlaceDescr;
    var s' := DoAndBack(s, t);
    if s' != s {
      forall c, b | 0 <= c < |s.cells| && 0 <= b < 32
        ensures MovesAt(s, s', InCopy(t), InCell, c, b)
      {
        AndBackMoves(s, t, c, b);
      }
      MoveKeepsTokens(s, s', InCopy(t), InCell);
      forall c, b, p | 0 <= c < |s.cells| && 0 <= b < 32 && 32 * c + b < |s.descr| && Holds(s', p, c, b)
        ensures PlaceDescr(s', p, c, b)
      {
        var p0 := if p == InCell && !Holds(s, p, c, b) then InCopy(t) else p;
        assert MovesAt(s, s', InCopy(t), InCell, c, b);
        assert PlaceDescr(s, p0, c, b);
        AndBackDescr(s, t, c, b, p);
      }
    }
  }

  /** The descriptor of a live block's first fragment carries its type and size. */
  lemma LiveHead(s: State, k: Ticket)
    requires Inv(s) && k in s.live
    ensures s.live[k].idx < |s.descr| && s.descr[s.live[k].idx] == Descr(s.live[k].flags, s.live[k].n)
  {
    var idx := s.live[k].idx;
    assert Holds(s, InLive(k), idx / 32, idx % 32);
    assert PlaceDescr(s, InLive(k), idx / 32, idx % 32);
  }

  lemma StartFreeMoves(s: State, t: Tid, k: Ticket, c: nat, b: nat)
    requires Shape(s) && k in s.live && PcOf(s, t).Idle?
    requires s.live[k].idx < |s.descr| && s.descr[s.live[k].idx] == Descr(s.live[k].flags, s.live[k].n)
    requires c < |s.cells| && b < 32
    ensures MovesAt(s, DoStartFree(s, t, k), InLive(k), InRun(t), c, b)
  {
  }

  lemma StartFreeDescr(s: State, t: Tid, k: Ticket, c: nat, b: nat, p: Place)
    requires Shape(s) && k in s.live && PcOf(s, t).Idle?
    requires s.live[k].idx < |s.descr| && s.descr[s.live[k].idx] == Descr(s.live[k].flags, s.live[k].n)
    requires c < |s.cells| && b < 32 && 32 * c + b < |s.descr|
    requires Holds(DoStartFree(s, t, k), p, c, b)
    requires var p0 := if p == InRun(t) then InLive(k) else p;
             Holds(s, p0, c, b) && PlaceDescr(s, p0, c, b)
    ensures PlaceDescr(DoStartFree(s, t, k), p, c, b)
  {
  }

  lemma StartFreeKeeps(s: State, t: Tid, k: Ticket)
    requires Inv(s)
    ensures Inv(DoStartFree(s, t, k))
  {
    var s' := DoStartFree(s, t, k);
    if s' != s {
      LiveHead(s, k);
      forall c, b | 0 <= c < |s.cells| && 0 <= b < 32
        ensures MovesAt(s, s', InLive(k), InRun(t), c, b)
      {
        StartFreeMoves(s, t, k, c, b);
      }
      MoveKeepsTokens(s, s', InLive(k), InRun(t));
      forall c, b, p | 0 <= c < |s.cells| && 0 <= b < 32 && 32 * c + b < |s.descr| && Holds(s', p, c, b)
        ensures PlaceDescr(s', p, c, b)
      {
        var p0 := if p == InRun(t) then InLive(k) else p;
        assert MovesAt(s, s', InLive(k), InRun(t), c, b);
        assert PlaceDescr(s, p0, c, b);
        StartFreeDescr(s, t, k, c, b, p);
      }
    }
  }

  /** Where the bits of a freed run go. */
  function FreedPlace(s: State, t: Tid): Place {
    if s.wraps && PcOf(s, t).Clearing? && PcOf(s, t).n == 32 then InLost else InCell
  }

  lemma FreeAndStays(s: State, t: Tid, c: nat, b: nat, p: Place)
    requires Shape(s) && PcOf(s, t).Clearing? && PcOf(s, t).k == PcOf(s, t).n
    requires c < |s.cells| && b < 32
    requires p != InRun(t) && p != FreedPlace(s, t)
    ensures Holds(DoFreeAnd(s, t), p, c, b) == Holds(s, p, c, b)
  {
    hide NumCells;
    assert PcOk(s.numItems, PcOf(s, t));
  }

  lemma FreeAndMoves(s: State, t: Tid, c: nat, b: nat)
    requires Shape(s) && PcOf(s, t).Clearing? && PcOf(s, t).k == PcOf(s, t).n
    requires c < |s.cells| && b < 32
    ensures MovesAt(s, DoFreeAnd(s, t), InRun(t), FreedPlace(s, t), c, b)
  {
    hide NumCells;
    assert PcOk(s.numItems, PcOf(s, t));
    forall p | p != InRun(t) && p != FreedPlace(s, t)
      ensures Holds(DoFreeAnd(s, t), p, c, b) == Holds(s, p, c, b)
    {
      FreeAndStays(s, t, c, b, p);
    }
  }

  lemma FreeAndDescr(s: State, t: Tid, c: nat, b: nat, p: Place)
    requires Shape(s) && PcOf(s, t).Clearing? && PcOf(s, t).k == PcOf(s, t).n
    requires c < |s.cells| && b < 32 && 32 * c + b < |s.descr|
    requires Holds(DoFreeAnd(s, t), p, c, b)
    requires var p0 := if p == FreedPlace(s, t) && !Holds(s, p, c, b) then InRun(t) else p;
             Holds(s, p0, c, b) && PlaceDescr(s, p0, c, b)
    ensures PlaceDescr(DoFreeAnd(s, t), p, c, b)
  {
  }

  lemma FreeAndKeeps(s: State, t: Tid)
    requires Inv(s)
    ensures Inv(DoFreeAnd(s, t))
  {
    var s', to := DoFreeAnd(s, t), FreedPlace(s, t);
    if s' != s {
      forall c, b | 0 <= c < |s.cells| && 0 <= b < 32
        ensures MovesAt(s, s', InRun(t), to, c, b)
      {
        FreeAndMoves(s, t, c, b);
      }
      MoveKeepsTokens(s, s', InRun(t), to);
      forall c, b, p | 0 <= c < |s.cells| && 0 <= b < 32 && 32 * c + b < |s.descr| && Holds(s', p, c, b)
        ensures PlaceDescr(s', p, c, b)
      {
        var p0 := if p == to && !Holds(s, p, c, b) then InRun(t) else p;
        assert MovesAt(s, s', InRun(t), to, c, b);
        assert PlaceDescr(s, p0, c, b);
        FreeAndDescr(s, t, c, b, p);
      }
    }
  }

  lemma ClearDescrPlace(s: State, t: Tid, c: nat, b: nat, p: Place)
    requires Shape(s) && PcOf(s, t).Clearing? && PcOf(s, t).k < PcOf(s, t).n
    requires c < |s.cells| && b < 32 && 32 * c + b < |s.descr|
    requires Holds(s, p, c, b) && PlaceDescr(s, p, c, b)
    requires forall q :: Holds(s, q, c, b) ==> q == p
    ensures Holds(DoClearDescr(s, t), p, c, b) && PlaceDescr(DoClearDescr(s, t), p, c, b)
  {
    var pc := PcOf(s, t);
    if 32 * c + b == pc.idx + pc.k {
      assert Holds(s, InRun(t), c, b);
    }
  }

  /** Clearing one descriptor moves no bit. */
  lemma ClearDescrKeeps(s: State, t: Tid)
    requires Inv(s)
    ensures Inv(DoClearDescr(s, t))
  {
    var s' := DoClearDescr(s, t);
    if s' != s {
      forall c, b, p | 0 <= c < |s.cells| && 0 <= b < 32
        ensures Holds(s', p, c, b) == Holds(s, p, c, b)
      {
      }
      forall c, b | 0 <= c < |s.cells| && 0 <= b < 32
        ensures Placed(s', c, b)
      {
        assert Placed(s, c, b);
      }
      forall c, b, p | 0 <= c < |s.cells| && 0 <= b < 32 && 32 * c + b < |s.descr| && Holds(s', p, c, b)
        ensures PlaceDescr(s', p, c, b)
      {
        ClearDescrPlace(s, t, c, b, p);
      }
    }
  }

  /** The fragment whose descriptor is written next is still unallocated. */
  lemma NextDescrUnallocated(s: State, t: Tid)
    requires Inv(s) && PcOf(s, t).Writing?
    ensures var pc := PcOf(s, t);
            pc.idx + pc.k < |s.descr| && s.descr[pc.idx + pc.k].fdType == UNALLOCATED
  {
    var pc := PcOf(s, t);
    var f := pc.idx + pc.k;
    assert Holds(s, InRun(t), f / 32, f % 32);
    assert PlaceDescr(s, InRun(t), f / 32, f % 32);
  }

  lemma WriteDescrStays(s: State, t: Tid, c: nat, b: nat, p: Place)
    requires Shape(s) && PcOf(s, t).Writing?
    requires var pc := PcOf(s, t);
             pc.idx + pc.k < |s.descr| && s.descr[pc.idx + pc.k].fdType == UNALLOCATED
    requires c < |s.cells| && b < 32
    requires p != InRun(t) && p != InLive(s.nextTicket)
    ensures Holds(DoWriteDescr(s, t), p, c, b) == Holds(s, p, c, b)
  {
    hide NumCells, PcOk, OneCell;
  }

  lemma WriteDescrMoves(s: State, t: Tid, c: nat, b: nat)
    requires Shape(s) && PcOf(s, t).Writing?
    requires var pc := PcOf(s, t);
             pc.idx + pc.k < |s.descr| && s.descr[pc.idx + pc.k].fdType == UNALLOCATED
    requires c < |s.cells| && b < 32
    ensures MovesAt(s, DoWriteDescr(s, t), InRun(t), InLive(s.nextTicket), c, b)
  {
    hide NumCells, PcOk, OneCell;
    forall p | p != InRun(t) && p != InLive(s.nextTicket)
      ensures Holds(DoWriteDescr(s, t), p, c, b) == Holds(s, p, c, b)
    {
      WriteDescrStays(s, t, c, b, p);
    }
  }

  /** Where a bit was before a descriptor was written. */
  function WriteSource(s: State, t: Tid, p: Place): Place {
    if p == InLive(s.nextTicket) then InRun(t) else p
  }

  lemma WriteDescrPlace(s: State, t: Tid, c: nat, b: nat, p: Place)
    requires Shape(s) && PcOf(s, t).Writing?
    requires c < |s.cells| && b < 32 && Holds(DoWriteDescr(s, t), p, c, b)
    ensures Holds(s, WriteSource(s, t, p), c, b)
  {
    hide NumCells;
  }

  /** The descriptor that was written. */
  lemma WrittenDescr(s: State, t: Tid, c: nat, b: nat, p: Place)
    requires Shape(s) && PcOf(s, t).Writing? && c < |s.cells| && b < 32
    requires var pc := PcOf(s, t);
             32 * c + b == pc.idx + pc.k < |s.descr| && s.descr[pc.idx + pc.k].fdType == UNALLOCATED
    requires WriteSource(s, t, p) == InRun(t) && Holds(DoWriteDescr(s, t), p, c, b)
    ensures PlaceDescr(DoWriteDescr(s, t), p, c, b)
  {
    hide NumCells;
  }

  /** A descriptor that was not written. */
  lemma OtherDescr(s: State, t: Tid, c: nat, b: nat, p: Place)
    requires Shape(s) && PcOf(s, t).Writing? && c < |s.cells| && b < 32 && 32 * c + b < |s.descr|
    requires var pc := PcOf(s, t);
             pc.idx + pc.k < |s.descr| && 32 * c + b != pc.idx + pc.k
    requires Holds(DoWriteDescr(s, t), p, c, b)
    requires Holds(s, WriteSource(s, t, p), c, b) && PlaceDescr(s, WriteSource(s, t, p), c, b)
    ensures PlaceDescr(DoWriteDescr(s, t), p, c, b)
  {
    hide NumCells;
    assert DoWriteDescr(s, t).descr[32 * c + b] == s.descr[32 * c + b];
  }

  lemma WriteDescrDescr(s: State, t: Tid, c: nat, b: nat, p: Place)
    requires Shape(s) && PcOf(s, t).Writing?
    requires var pc := PcOf(s, t);
             pc.idx + pc.k < |s.descr| && s.descr[pc.idx + pc.k].fdType == UNALLOCATED
    requires c < |s.cells| && b < 32 && 32 * c + b < |s.descr|
    requires Holds(DoWriteDescr(s, t), p, c, b)
    requires forall q :: Holds(s, q, c, b) ==> PlaceDescr(s, q, c, b)
    requires forall q, r :: Holds(s, q, c, b) && Holds(s, r, c, b) ==> q == r
    ensures PlaceDescr(DoWriteDescr(s, t), p, c, b)
  {
    hide DoWriteDescr, PlaceDescr, WriteSource;
    var pc := PcOf(s, t);
    WriteDescrPlace(s, t, c, b, p);
    if 32 * c + b == pc.idx + pc.k {
      assert PcOk(s.numItems, pc);
      assert Holds(s, InRun(t), c, b);
      WrittenDescr(s, t, c, b, p);
    } else {
      OtherDescr(s, t, c, b, p);
    }
  }

  lemma WriteDescrKeeps(s: State, t: Tid)
    requires Inv(s)
    ensures Inv(DoWriteDescr(s, t))
  {
    var s' := DoWriteDescr(s, t);
    if s' != s {
      NextDescrUnallocated(s, t);
      forall c, b | 0 <= c < |s.cells| && 0 <= b < 32
        ensures MovesAt(s, s', InRun(t), InLive(s.nextTicket), c, b)
      {
        WriteDescrMoves(s, t, c, b);
      }
      MoveKeepsTokens(s, s', InRun(t), InLive(s.nextTicket));
      forall c, b, p | 0 <= c < |s.cells| && 0 <= b < 32 && 32 * c + b < |s.descr| && Holds(s', p, c, b)
        ensures PlaceDescr(s', p, c, b)
      {
        WriteDescrDescr(s, t, c, b, p);
      }
    }
  }

  lemma StepKeeps(s: State, a: Action)
    requires Inv(s)
    requires a.StartAlloc? ==> a.n > 0
    ensures Inv(Step(s, a))
  {
    match a
    case StartAlloc(t, n, flags) => StartAllocKeeps(s, t, n, flags);
    case Exchange(t) => ExchangeKeeps(s, t);
    case Choose(t) => ChooseKeeps(s, t);
    case AndBack(t) => AndBackKeeps(s, t);
    case WriteDescr(t) => WriteDescrKeeps(s, t);
    case StartFree(t, k, f) => StartFreeKeeps(s, t, k);
    case ClearDescr(t) => ClearDescrKeeps(s, t);
    case FreeAnd(t) => FreeAndKeeps(s, t);
  }

  lemma InitOk(numItems: nat, wraps: bool)
    ensures Inv(Init(numItems, wraps))
  {
    var s := Init(numItems, wraps);
    forall c, b | 0 <= c < |s.cells| && 0 <= b < 32
      ensures Placed(s, c, b)
    {
      assert Holds(s, InCell, c, b);
    }
  }

  lemma {:induction false} RunKeeps(s: State, actions: seq<Action>)
    requires Inv(s) && NonEmptyRequests(actions)
    ensures Inv(Run(s, actions))
    decreases |actions|
  {
    if actions != [] {
      StepKeeps(s, actions[0]);
      var rest := actions[1..];
      assert forall i :: 0 <= i < |rest| ==> rest[i] == actions[i + 1];
      RunKeeps(Step(s, actions[0]), rest);
    }
  }

  // ---------------------------------------------------------------------
  // Main results, over every interleaving
  // ---------------------------------------------------------------------

  ghost predicate Reachable(s: State) {
    exists numItems: nat, wraps: bool, actions: seq<Action> ::
      NonEmptyRequests(actions) && s == Run(Init(numItems, wraps), actions)
  }

  lemma ReachableOk(s: State)
    requires Reachable(s)
    ensures Inv(s)
  {
    var numItems: nat, wraps: bool, actions: seq<Action> :|
      NonEmptyRequests(actions) && s == Run(Init(numItems, wraps), actions);
    InitOk(numItems, wraps);
    RunKeeps(Init(numItems, wraps), actions);
  }

  /** No two live blocks share a fragment. */
  lemma LiveBlocksDisjoint(s: State, k: Ticket, m: Ticket, f: nat)
    requires Reachable(s)
    requires k in s.live && m in s.live && k != m
    ensures !(Within(s.live[k].idx, s.live[k].n, f) && Within(s.live[m].idx, s.live[m].n, f))
  {
    ReachableOk(s);
    if Within(s.live[k].idx, s.live[k].n, f) && Within(s.live[m].idx, s.live[m].n, f) {
      assert Holds(s, InLive(k), f / 32, f % 32) && Holds(s, InLive(m), f / 32, f % 32);
    }
  }

  /** No thread is between exchanging cell `c` and ANDing its copy back. */
  predicate QuietCell(s: State, c: nat) {
    forall t :: t in s.threads ==> !((s.threads[t].Swapped? || s.threads[t].Chosen?) && s.threads[t].cell == c)
  }

  predicate NoRunInProgress(s: State) {
    forall t :: t in s.threads ==> !s.threads[t].Writing? && !s.threads[t].Clearing?
  }

  ghost predicate LiveBit(s: State, f: nat) {
    exists k :: k in s.live && Within(s.live[k].idx, s.live[k].n, f)
  }

  /** The bits of live blocks and of runs whose descriptors are being written or cleared. */
  ghost predicate OwnedBit(s: State, f: nat) {
    LiveBit(s, f) || exists t :: t in s.threads && InRunOf(s.threads[t], f)
  }

  /**
    A quiet cell holds exactly the bits that somebody owns, if and only if no
    block of the whole cell was freed where shift counts wrap; a cell that was
    lost in that way is full, and nobody owns any of it.
  */
  lemma QuietCellIsUnion(s: State, c: nat, b: nat)
    requires Reachable(s)
    requires c < |s.cells| && b < 32
    requires QuietCell(s, c)
    ensures (b in s.cells[c] <==> OwnedBit(s, 32 * c + b)) <==> !Lost(s, c)
    ensures NoRunInProgress(s) ==> ((b in s.cells[c] <==> LiveBit(s, 32 * c + b)) <==> !Lost(s, c))
    ensures Lost(s, c) ==> b in s.cells[c] && !OwnedBit(s, 32 * c + b)
  {
    hide DescrAgree, PlaceDescr, Reachable, Shape, NoRunInProgress;
    ReachableOk(s);
    assert Placed(s, c, b);
    var p :| Holds(s, p, c, b);
    forall k | k in s.live
      ensures Within(s.live[k].idx, s.live[k].n, 32 * c + b) <==> p == InLive(k)
    {
      assert Holds(s, InLive(k), c, b) ==> InLive(k) == p;
    }
    forall t | t in s.threads
      ensures InRunOf(s.threads[t], 32 * c + b) <==> p == InRun(t)
    {
      assert Holds(s, InRun(t), c, b) ==> InRun(t) == p;
    }
    assert Lost(s, c) ==> Holds(s, InLost, c, b);
    assert b !in s.cells[c] ==> Holds(s, InCell, c, b);
    if NoRunInProgress(s) {
      NoRunHere(s, c, b);
    }
  }

  /** A lost cell stays lost and full, whatever happens: no thread gets at its bits. */
  lemma {:induction false} LostForever(s: State, actions: seq<Action>, c: nat)
    requires Inv(s) && NonEmptyRequests(actions) && c < |s.cells| && Lost(s, c)
    ensures var s' := Run(s, actions); c < |s'.cells| && Lost(s', c) && s'.cells[c] == BUSY
    decreases |actions|
  {
    hide DescrAgree;
    if actions == [] {
      LostIsFull(s, c);
    } else {
      StepKeeps(s, actions[0]);
      LostStep(s, actions[0], c);
      var rest := actions[1..];
      assert forall i :: 0 <= i < |rest| ==> rest[i] == actions[i + 1];
      LostForever(Step(s, actions[0]), rest, c);
    }
  }

  lemma LostIsFull(s: State, c: nat)
    requires TokensUnique(s) && c < |s.cells| && Lost(s, c)
    ensures s.cells[c] == BUSY
  {
    forall b: nat | b < 32
      ensures b in s.cells[c]
    {
      assert Holds(s, InLost, c, b);
      assert Holds(s, InCell, c, b) ==> InCell == InLost;
    }
  }

  lemma LostStep(s: State, a: Action, c: nat)
    requires c < |s.cells| && Lost(s, c)
    ensures c < |Step(s, a).cells| && Lost(Step(s, a), c)
  {
    hide CellChoice, Region;
  }

  /** A chosen run lies in the cell it was chosen from. */
  lemma NoRunHere(s: State, c: nat, b: nat)
    requires Shape(s) && c < |s.cells| && b < 32 && QuietCell(s, c) && NoRunInProgress(s)
    ensures forall t :: t in s.threads ==> !InRunOf(s.threads[t], 32 * c + b)
  {
    forall t | t in s.threads
      ensures !InRunOf(s.threads[t], 32 * c + b)
    {
      assert PcOk(s.numItems, s.threads[t]);
    }
  }

  /**
    In every reachable state no assertion has failed and the next descriptor a
    thread writes is unallocated; a clear bit never has an allocated descriptor.
  */
  lemma AssertionsNeverFail(s: State)
    requires Reachable(s)
    ensures !s.assertFailed
    ensures forall t :: PcOf(s, t).Writing? ==>
              PcOf(s, t).idx + PcOf(s, t).k < |s.descr| && s.descr[PcOf(s, t).idx + PcOf(s, t).k].fdType == UNALLOCATED
    ensures forall c, b :: 0 <= c < |s.cells| && 0 <= b < 32 && 32 * c + b < |s.descr| && b !in s.cells[c]
              ==> s.descr[32 * c + b].fdType == UNALLOCATED
  {
    ReachableOk(s);
    forall t | PcOf(s, t).Writing?
      ensures PcOf(s, t).idx + PcOf(s, t).k < |s.descr| && s.descr[PcOf(s, t).idx + PcOf(s, t).k].fdType == UNALLOCATED
    {
      NextDescrUnallocated(s, t);
    }
    forall c, b | 0 <= c < |s.cells| && 0 <= b < 32 && 32 * c + b < |s.descr| && b !in s.cells[c]
      ensures s.descr[32 * c + b].fdType == UNALLOCATED
    {
      assert Holds(s, InCell, c, b);
      assert PlaceDescr(s, InCell, c, b);
    }
  }

  /** Index of the descriptor that describes fragment `f`, or -1. */
  function GetDescr(descr: seq<Descr>, f: nat): int
    requires f < |descr|
  {
    if descr[f].fdType == UNALLOCATED then -1
    else if descr[f].fdType == REFERENCE then f - descr[f].word
    else f
  }

  const FRAG_SIZE: nat := 256

  /** A pointer to any byte of a live block leads to its first descriptor, with its true size. */
  lemma GetDescrFindsBlock(s: State, k: Ticket, byte: nat)
    requires Reachable(s)
    requires k in s.live
    requires 256 * s.live[k].idx <= byte < 256 * (s.live[k].idx + s.live[k].n)
    ensures byte / 256 < |s.descr|
    ensures GetDescr(s.descr, byte / 256) == s.live[k].idx
    ensures s.descr[s.live[k].idx] == Descr(s.live[k].flags, s.live[k].n)
  {
    ReachableOk(s);
    LiveHead(s, k);
    var f := byte / FRAG_SIZE;
    assert Holds(s, InLive(k), f / 32, f % 32);
    assert PlaceDescr(s, InLive(k), f / 32, f % 32);
  }

  /** A pointer into a fragment that nobody owns leads to no descriptor, which is told by -1. */
  lemma GetDescrOfUnowned(s: State, c: nat, b: nat, p: Place)
    requires Reachable(s) && c < |s.cells| && b < 32 && 32 * c + b < |s.descr|
    requires (p.InCell? || p.InCopy? || p.InLost?) && Holds(s, p, c, b)
    ensures GetDescr(s.descr, 32 * c + b) == -1
  {
    hide Reachable;
    ReachableOk(s);
    assert PlaceDescr(s, p, c, b);
  }

  /** Freeing a live block through a pointer into it takes effect exactly at its first fragment. */
  lemma InteriorIsNotFreed(s: State, t: Tid, k: Ticket, f: nat)
    requires Reachable(s) && PcOf(s, t).Idle?
    requires k in s.live && Within(s.live[k].idx, s.live[k].n, f)
    ensures f < |s.descr| && (s.descr[f].fdType < 0 <==> f != s.live[k].idx)
    ensures var blk := s.live[k];
            DoFree(s, t, k, f) ==
              if f == blk.idx then SetPc(s, t, Clearing(blk.idx, blk.n, blk.flags, 0)).(live := s.live - {k}) else s
  {
    hide Reachable;
    ReachableOk(s);
    LiveHead(s, k);
    assert Holds(s, InLive(k), f / 32, f % 32);
    assert PlaceDescr(s, InLive(k), f / 32, f % 32);
  }

  /** Freeing a pointer into a fragment whose bit is clear, in the cell or in some thread's copy, is refused. */
  lemma FreeFragmentIsNotFreed(s: State, t: Tid, k: Ticket, c: nat, b: nat, p: Place)
    requires Reachable(s) && c < |s.cells| && b < 32 && 32 * c + b < |s.descr|
    requires (p.InCell? || p.InCopy?) && Holds(s, p, c, b)
    ensures s.descr[32 * c + b].fdType == UNALLOCATED && DoFree(s, t, k, 32 * c + b) == s
  {
    hide Reachable;
    ReachableOk(s);
    assert PlaceDescr(s, p, c, b);
  }

  // ---------------------------------------------------------------------
  // Requests for no fragments
  // ---------------------------------------------------------------------

  /**
    Completing a request for zero fragments always breaks the agreement: the
    descriptor becomes allocated while its bit stays free or with another owner.
  */
  lemma ZeroRequestBreaks(s: State, t: Tid, idx: nat, flags: nat)
    requires Inv(SetPc(s, t, Idle))
    requires PcOf(s, t) == Writing(idx, 0, flags, 0) && idx < |s.descr|
    ensures !Inv(DoWriteDescr(s, t))
  {
    var before := SetPc(s, t, Idle);
    var after := DoWriteDescr(s, t);
    var c, b := idx / 32, idx % 32;
    if !after.assertFailed {
      assert Placed(before, c, b);
      var p :| Holds(before, p, c, b);
      assert PlaceDescr(before, p, c, b);
      assert Holds(after, p, c, b);
      assert !PlaceDescr(after, p, c, b);
    }
  }

  lemma RunCons(s: State, a: Action, rest: seq<Action>)
    ensures Run(s, [a] + rest) == Run(Step(s, a), rest)
  {
    assert ([a] + rest)[1..] == rest;
  }

  /** One uncontended request by thread 0 on a bitmap of one empty cell. */
  function OneRequest(n: nat): seq<Action> {
    [StartAlloc(0, n, 0)] + ([Exchange(0)] + ([Choose(0)] + ([AndBack(0)] + ([WriteDescr(0)] + []))))
  }

  lemma OneRequestChooses(s: State, n: nat) returns (s2: State, s3: State, s4: State)
    requires n <= 1 && s.numItems == 32 && s.cells == [{}] && PcOf(s, 0) == Idle
    ensures s2 == DoExchange(DoStartAlloc(s, 0, n, 0), 0) && s3 == DoChoose(s2, 0) && s4 == DoAndBack(s3, 0)
    ensures s4 == s.(cells := [Region(n, 0)], threads := s4.threads) && PcOf(s4, 0) == Writing(0, n, 0, 0)
  {
    var w: Word := {};
    LowestClearUnique(w, 0, 0);
    assert 0 in BUSY;
    s2 := DoExchange(DoStartAlloc(s, 0, n, 0), 0);
    assert s2.cells == [BUSY] && PcOf(s2, 0) == Swapped(n, 0, 0, 0, {});
    s3 := DoChoose(s2, 0);
    assert PcOf(s3, 0) == Chosen(n, 0, 0, 0, Region(n, 0), 0);
    assert BUSY * Region(n, 0) == Region(n, 0);
    s4 := DoAndBack(s3, 0);
  }

  lemma RunOneRequest(s: State, n: nat)
    ensures Run(s, OneRequest(n)) ==
            Step(Step(Step(Step(Step(s, StartAlloc(0, n, 0)), Exchange(0)), Choose(0)), AndBack(0)), WriteDescr(0))
  {
    var s1 := Step(s, StartAlloc(0, n, 0));
    var s2 := Step(s1, Exchange(0));
    var s3 := Step(s2, Choose(0));
    RunCons(s, StartAlloc(0, n, 0), [Exchange(0)] + ([Choose(0)] + ([AndBack(0)] + ([WriteDescr(0)] + []))));
    RunCons(s1, Exchange(0), [Choose(0)] + ([AndBack(0)] + ([WriteDescr(0)] + [])));
    RunCons(s2, Choose(0), [AndBack(0)] + ([WriteDescr(0)] + []));
    RunCons(s3, AndBack(0), [WriteDescr(0)] + []);
    RunCons(Step(s3, AndBack(0)), WriteDescr(0), []);
  }

  lemma OneRequestReachesWrite(s: State, n: nat)
    requires n <= 1 && !s.assertFailed
    requires s.numItems == 32 && s.cells == [{}] && |s.descr| == 32 && PcOf(s, 0) == Idle
    ensures var w := Run(s, OneRequest(n));
            w.assertFailed == (s.descr[0].fdType != UNALLOCATED)
            && (!w.assertFailed && n == 0 ==>
                  && w.numItems == 32 && w.cells == [{}] && |w.descr| == 32
                  && PcOf(w, 0) == Idle && w.descr[0] == Descr(0, 0))
  {
    hide CellChoice, NumCells, ItemsInCell;
    var s2, s3, s4 := OneRequestChooses(s, n);
    assert n == 0 ==> Region(n, 0) == {};
    RunOneRequest(s, n);
  }

  /** Asking for zero fragments and then for one makes an assertion fail. */
  lemma ZeroRequestTripsAssertion(wraps: bool)
    ensures Run(Run(Init(32, wraps), OneRequest(0)), OneRequest(1)).assertFailed
  {
    OneRequestReachesWrite(Init(32, wraps), 0);
    OneRequestReachesWrite(Run(Init(32, wraps), OneRequest(0)), 1);
  }
}
