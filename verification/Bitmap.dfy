/**
  Allocation bitmaps: arrays of 32-bit cells in which a one bit marks an
  allocated item.

  A cell value is modelled as the set of positions of its one bits, so that
  bitwise AND is intersection, OR is union and the BUSY value is all 32
  positions. The arithmetic that finds the lowest zero bit is modelled on the
  machine word itself and connected to the set view by `FindOneIsLowestClear`.
*/
module Bitmap {

  const MAX_RETRIES: nat := 3

  type Word = w: set<nat> | forall i :: i in w ==> i < 32
    witness {}

  const BUSY: Word := set i: nat | i < 32

  /** `num` ones starting at bit `b`; ones shifted past bit 31 are lost. */
  function Region(num: nat, b: nat): (w: Word)
    ensures forall i :: i in w <==> b <= i < b + num && i < 32
  {
    set i: nat | i in BUSY && b <= i < b + num
  }

  /** Position of the lowest zero bit at or above `from`, or 32 if there is none. */
  function LowestClear(w: Word, from: nat := 0): (k: nat)
    requires from <= 32
    ensures from <= k <= 32
    ensures k < 32 ==> k !in w
    ensures forall j :: from <= j < k ==> j in w
    decreases 32 - from
  {
    if from == 32 || from !in w then from else LowestClear(w, from + 1)
  }

  lemma NotBusyHasClear(w: Word)
    requires w != BUSY
    ensures LowestClear(w) < 32
  {
    if LowestClear(w) == 32 {
      assert forall i :: i in w <==> i in BUSY;
    }
  }

  // ---------------------------------------------------------------------
  // Finding the lowest zero bit of a machine word
  // ---------------------------------------------------------------------

  /** Population count by octal digit sums; the sum of digits is taken modulo 63. */
  function BitCount(u: bv64): bv64 {
    var count := u - ((u >> 1) & 0xDB6DB6DB) - ((u >> 2) & 0x49249249);
    ((count + (count >> 3)) & 0xC71C71C7) % 63
  }

  /** Isolate the lowest one of the complement and count the ones below it. */
  function FindOne(u: bv64): bv64 {
    var v := !u;
    BitCount((v & (0 - v)) - 1)
  }

  /** The bit position `i` as a shift amount. */
  function Shift(i: nat): bv5
    requires i < 32
  {
    i as bv5
  }

  predicate Bit(u: bv64, i: nat)
    requires i < 32
  {
    (u >> Shift(i)) & 1 == 1
  }

  /** The set view of the low 32 bits of a machine word. */
  function Ones(u: bv64): (w: Word) {
    set i: nat | i < 32 && Bit(u, i)
  }

  lemma ShiftMonotone(i: nat, j: nat)
    requires i < j < 32
    ensures Shift(i) < Shift(j)
  {
    ShiftValue(i);
    ShiftValue(j);
  }

  lemma ShiftValue(i: nat)
    requires i < 32
    ensures Shift(i) as nat == i
  {}

  lemma ShiftSurjective(b: bv5) returns (i: nat)
    ensures i < 32 && Shift(i) == b
  {
    i := b as nat;
  }

  lemma CountOfLowMasks()
    ensures BitCount(0x0) == 0 && BitCount(0x1) == 1 && BitCount(0x3) == 2 && BitCount(0x7) == 3
    ensures BitCount(0xf) == 4 && BitCount(0x1f) == 5 && BitCount(0x3f) == 6 && BitCount(0x7f) == 7
    ensures BitCount(0xff) == 8 && BitCount(0x1ff) == 9 && BitCount(0x3ff) == 10 && BitCount(0x7ff) == 11
    ensures BitCount(0xfff) == 12 && BitCount(0x1fff) == 13 && BitCount(0x3fff) == 14 && BitCount(0x7fff) == 15
    ensures BitCount(0xffff) == 16 && BitCount(0x1ffff) == 17 && BitCount(0x3ffff) == 18 && BitCount(0x7ffff) == 19
    ensures BitCount(0xfffff) == 20 && BitCount(0x1fffff) == 21 && BitCount(0x3fffff) == 22 && BitCount(0x7fffff) == 23
    ensures BitCount(0xffffff) == 24 && BitCount(0x1ffffff) == 25
    ensures BitCount(0x3ffffff) == 26 && BitCount(0x7ffffff) == 27
    ensures BitCount(0xfffffff) == 28 && BitCount(0x1fffffff) == 29
    ensures BitCount(0x3fffffff) == 30 && BitCount(0x7fffffff) == 31
  {}

  lemma CountOfLowMask(k: bv64)
    requires k < 32
    ensures BitCount((1 << k) - 1) == k
  {
    CountOfLowMasks();
    var m: bv64 := 1 << k;
    if k == 0 {
      assert m - 1 == 0x0;
    } else if k == 1 {
      assert m - 1 == 0x1;
    } else if k == 2 {
      assert m - 1 == 0x3;
    } else if k == 3 {
      assert m - 1 == 0x7;
    } else if k == 4 {
      assert m - 1 == 0xf;
    } else if k == 5 {
      assert m - 1 == 0x1f;
    } else if k == 6 {
      assert m - 1 == 0x3f;
    } else if k == 7 {
      assert m - 1 == 0x7f;
    } else if k == 8 {
      assert m - 1 == 0xff;
    } else if k == 9 {
      assert m - 1 == 0x1ff;
    } else if k == 10 {
      assert m - 1 == 0x3ff;
    } else if k == 11 {
      assert m - 1 == 0x7ff;
    } else if k == 12 {
      assert m - 1 == 0xfff;
    } else if k == 13 {
      assert m - 1 == 0x1fff;
    } else if k == 14 {
      assert m - 1 == 0x3fff;
    } else if k == 15 {
      assert m - 1 == 0x7fff;
    } else if k == 16 {
      assert m - 1 == 0xffff;
    } else if k == 17 {
      assert m - 1 == 0x1ffff;
    } else if k == 18 {
      assert m - 1 == 0x3ffff;
    } else if k == 19 {
      assert m - 1 == 0x7ffff;
    } else if k == 20 {
      assert m - 1 == 0xfffff;
    } else if k == 21 {
      assert m - 1 == 0x1fffff;
    } else if k == 22 {
      assert m - 1 == 0x3fffff;
    } else if k == 23 {
      assert m - 1 == 0x7fffff;
    } else if k == 24 {
      assert m - 1 == 0xffffff;
    } else if k == 25 {
      assert m - 1 == 0x1ffffff;
    } else if k == 26 {
      assert m - 1 == 0x3ffffff;
    } else if k == 27 {
      assert m - 1 == 0x7ffffff;
    } else if k == 28 {
      assert m - 1 == 0xfffffff;
    } else if k == 29 {
      assert m - 1 == 0x1fffffff;
    } else if k == 30 {
      assert m - 1 == 0x3fffffff;
    } else if k == 31 {
      assert m - 1 == 0x7fffffff;
    }
  }

  lemma LowestZeroExists(u: bv64) returns (k: bv64)
    requires u & 0xFFFF_FFFF != 0xFFFF_FFFF
    ensures k < 32
    ensures u & ((1 << k) - 1) == (1 << k) - 1
    ensures (u >> k) & 1 == 0
  {
    k :=
      if u & 0x1 == 0 then 0 else if u & 0x2 == 0 then 1 else if u & 0x4 == 0 then 2 else if u & 0x8 == 0 then 3 else
      if u & 0x10 == 0 then 4 else if u & 0x20 == 0 then 5 else
      if u & 0x40 == 0 then 6 else if u & 0x80 == 0 then 7 else
      if u & 0x100 == 0 then 8 else if u & 0x200 == 0 then 9 else
      if u & 0x400 == 0 then 10 else if u & 0x800 == 0 then 11 else
      if u & 0x1000 == 0 then 12 else if u & 0x2000 == 0 then 13 else
      if u & 0x4000 == 0 then 14 else if u & 0x8000 == 0 then 15 else
      if u & 0x10000 == 0 then 16 else if u & 0x20000 == 0 then 17 else
      if u & 0x40000 == 0 then 18 else if u & 0x80000 == 0 then 19 else
      if u & 0x100000 == 0 then 20 else if u & 0x200000 == 0 then 21 else
      if u & 0x400000 == 0 then 22 else if u & 0x800000 == 0 then 23 else
      if u & 0x1000000 == 0 then 24 else if u & 0x2000000 == 0 then 25 else
      if u & 0x4000000 == 0 then 26 else if u & 0x8000000 == 0 then 27 else
      if u & 0x10000000 == 0 then 28 else if u & 0x20000000 == 0 then 29 else if u & 0x40000000 == 0 then 30 else
      31;
  }

  lemma IsolateLowest(u: bv64, k: bv64)
    requires k < 32
    requires u & ((1 << k) - 1) == (1 << k) - 1
    requires (u >> k) & 1 == 0
    ensures !u & (0 - !u) == 1 << k
  {}

  lemma LowBitIsOne(u: bv64, k: bv64, j: bv64)
    requires j < k < 32
    requires u & ((1 << k) - 1) == (1 << k) - 1
    ensures (u >> j) & 1 == 1
  {}

  lemma {:induction false} LowestClearUnique(w: Word, from: nat, k: nat)
    requires from <= k < 32
    requires k !in w
    requires forall j :: from <= j < k ==> j in w
    ensures LowestClear(w, from) == k
    decreases 32 - from
  {
    if from < k {
      LowestClearUnique(w, from + 1, k);
    }
  }

  /**
    On every word with a zero among its low 32 bits, the popcount trick yields
    the position of the lowest zero.
  */
  lemma FindOneIsLowestClear(u: bv64)
    requires u & 0xFFFF_FFFF != 0xFFFF_FFFF
    ensures LowestClear(Ones(u)) < 32
    ensures FindOne(u) == Shift(LowestClear(Ones(u))) as bv64
  {
    var k := LowestZeroExists(u);
    IsolateLowest(u, k);
    CountOfLowMask(k);
    var i := ShiftSurjective(k as bv5);
    forall j | 0 <= j < i
      ensures j in Ones(u)
    {
      ShiftMonotone(j, i);
      LowBitIsOne(u, k, Shift(j) as bv64);
    }
    LowestClearUnique(Ones(u), 0, i);
  }

  // ---------------------------------------------------------------------
  // Allocation from one cell
  // ---------------------------------------------------------------------

  /** What the region search computes: only the run at the lowest zero is tried. */
  function RegionAtLowest(u: Word, num: nat): (b: int)
    requires u != BUSY
  {
    var b := LowestClear(u);
    if Region(num, b) !! u then b else -1
  }

  method FindRegion(u: Word, num: nat) returns (b: int)
    requires u != BUSY
    requires num < 32
    ensures b == RegionAtLowest(u, num)
  {
    NotBusyHasClear(u);
    var i := 0;
    while i < 32 - num
      invariant i > 0 ==> RegionAtLowest(u, num) == -1
    {
      b := LowestClear(u);
      if Region(num, b) !! u {
        return b;
      }
      i := i + b + 1;
    }
    b := -1;
  }

  ghost predicate HasClearRun(u: Word, num: nat) {
    exists b: nat :: b + num <= 32 && Region(num, b) !! u
  }

  /** The search can miss a clear run: here bits 2 and 3 are clear. */
  lemma RegionSearchMissesRun()
    ensures {1} != BUSY
    ensures RegionAtLowest({1}, 2) == -1 && HasClearRun({1}, 2)
  {
    assert 0 in BUSY;
    var w: Word := {1};
    LowestClearUnique(w, 0, 0);
    assert 1 in Region(2, 0) * w;
    assert 2 + 2 <= 32 && Region(2, 2) !! w;
  }

  /**
    Exactly when a search that wants a run inside the cell succeeds: the run
    that starts at the lowest zero bit is clear and fits.
  */
  lemma RegionSearchExact(u: Word, num: nat)
    requires u != BUSY
    ensures var lo := LowestClear(u);
            (RegionAtLowest(u, num) != -1 && RegionAtLowest(u, num) + num <= 32)
            <==> (lo + num <= 32 && forall i :: lo <= i < lo + num ==> i !in u)
    ensures var lo := LowestClear(u);
            lo + num <= 32 && (forall i :: lo <= i < lo + num ==> i !in u) ==> HasClearRun(u, num)
  {
    NotBusyHasClear(u);
    var lo := LowestClear(u);
    if lo + num <= 32 && forall i :: lo <= i < lo + num ==> i !in u {
      assert Region(num, lo) !! u;
    }
    if Region(num, lo) !! u {
      forall i | lo <= i < lo + num && i < 32
        ensures i !in u
      {
        assert i in Region(num, lo);
      }
    }
  }

  /** The thread-local decision made on an exchanged cell value. */
  function CellChoice(bval: Word, num: nat, maxItems: nat): (b: int)
    requires bval != BUSY
    requires num <= 32
  {
    var b := if num == 1 then LowestClear(bval)
             else if num == 32 then (if bval == {} then 0 else -1)
             else RegionAtLowest(bval, num);
    if b + num > maxItems then -1 else b
  }

  lemma CellChoiceIsClear(bval: Word, num: nat, maxItems: nat)
    requires bval != BUSY
    requires num <= 32
    requires maxItems <= 32
    ensures var b := CellChoice(bval, num, maxItems);
            b != -1 ==> 0 <= b && b + num <= maxItems && b < 32
                        && Region(num, b) !! bval
                        && (num < 32 ==> b == LowestClear(bval))
  {
    NotBusyHasClear(bval);
  }

  /**
    Bit `b` is the lowest one that is not taken, and the `num` bits from it on are
    clear and below the limit: the one place where a cell can give them out.
  */
  predicate Gives(w: Word, num: nat, limit: nat, b: nat) {
    && b < 32 && b !in w && (forall i :: 0 <= i < b ==> i in w)
    && b + num <= limit && forall i :: b <= i < b + num ==> i !in w
  }

  /** Exactly when a cell accepts, and where. */
  lemma CellChoiceExact(bval: Word, num: nat, limit: nat, b: nat)
    requires bval != BUSY && num <= 32 && limit <= 32
    ensures CellChoice(bval, num, limit) == b <==> Gives(bval, num, limit, b)
    ensures CellChoice(bval, num, limit) >= -1
    ensures CellChoice(bval, num, limit) == -1 ==> !Gives(bval, num, limit, b)
  {
    NotBusyHasClear(bval);
    var lo := LowestClear(bval);
    if Gives(bval, num, limit, b) {
      LowestClearUnique(bval, 0, b);
      assert num == 32 ==> bval == {};
    }
    if lo + num <= limit {
      if forall i :: lo <= i < lo + num ==> i !in bval {
        assert Region(num, lo) !! bval;
      } else {
        var i :| lo <= i < lo + num && i in bval;
        assert i in Region(num, lo);
        assert num == 1 ==> i == lo;
      }
    }
  }

  /** Where one item is wanted, a cell gives out the lowest clear bit, if there is one below the limit. */
  lemma OneItemExact(w: Word, limit: nat)
    requires limit <= 32
    ensures (exists b: nat :: Gives(w, 1, limit, b)) <==> exists i :: 0 <= i < limit && i !in w
  {
    if i :| 0 <= i < limit && i !in w {
      assert Gives(w, 1, limit, LowestClear(w));
    }
  }

  /** Where 32 items are wanted, the cell must be empty and whole. */
  lemma WholeCellExact(w: Word, limit: nat)
    requires limit <= 32
    ensures (exists b: nat :: Gives(w, 32, limit, b)) <==> w == {} && limit == 32
  {
    if w == {} && limit == 32 {
      assert Gives(w, 32, limit, 0);
    }
    if b: nat :| Gives(w, 32, limit, b) {
      assert b == 0 && limit == 32;
      assert forall i :: i in w ==> 0 <= i < 32;
    }
  }

  ghost predicate Refuses(w: Word, num: nat, limit: nat) {
    forall b: nat :: !Gives(w, num, limit, b)
  }

  lemma BusyRefuses(num: nat, limit: nat)
    ensures Refuses(BUSY, num, limit)
  {
  }

  lemma ChoiceOrRefusal(bval: Word, num: nat, limit: nat)
    requires bval != BUSY && num <= 32 && limit <= 32
    ensures var b := CellChoice(bval, num, limit);
            if b >= 0 then Gives(bval, num, limit, b) else Refuses(bval, num, limit)
    ensures CellChoice(bval, num, limit) >= -1
  {
    hide CellChoice, Gives;
    forall b: nat
      ensures CellChoice(bval, num, limit) == b <==> Gives(bval, num, limit, b)
      ensures CellChoice(bval, num, limit) == -1 ==> !Gives(bval, num, limit, b)
    {
      CellChoiceExact(bval, num, limit, b);
    }
    CellChoiceExact(bval, num, limit, 0);
  }

  /** Run without interference, one cell allocation sets exactly the chosen run. */
  method CellAlloc(cells: array<Word>, i: nat, num: nat, maxItems: nat) returns (bidx: int)
    requires i < cells.Length
    requires num <= 32
    requires maxItems <= 32
    modifies cells
    ensures bidx >= -1
    ensures bidx >= 0 ==> Gives(old(cells[i]), num, maxItems, bidx)
    ensures bidx == -1 ==> Refuses(old(cells[i]), num, maxItems)
    ensures cells[i] == if bidx == -1 then old(cells[i]) else old(cells[i]) + Region(num, bidx)
    ensures forall j :: 0 <= j < cells.Length && j != i ==> cells[j] == old(cells[j])
  {
    bidx := -1;
    var bval := cells[i];
    cells[i] := BUSY;
    if bval == BUSY {
      BusyRefuses(num, maxItems);
    } else {
      CellChoiceIsClear(bval, num, maxItems);
      ChoiceOrRefusal(bval, num, maxItems);
      if num == 1 {
        bidx := LowestClear(bval);
      } else if num == 32 {
        bidx := if bval == {} then 0 else -1;
      } else {
        bidx := FindRegion(bval, num);
      }
      if bidx + num > maxItems {
        bidx := -1;
      }
      if bidx != -1 {
        bval := bval + Region(num, bidx);
      }
      cells[i] := cells[i] * bval;
    }
  }

  // ---------------------------------------------------------------------
  // Allocation from a bitmap of several cells
  // ---------------------------------------------------------------------

  function NumCells(numItems: nat): nat {
    (numItems + 31) / 32
  }

  /** Items in cell `i`; the last cell may be partial. */
  function ItemsInCell(numItems: nat, i: nat): (n: nat)
    requires i < NumCells(numItems)
    ensures 1 <= n <= 32
    ensures 32 * i + n <= numItems
  {
    if 32 * i + 32 <= numItems then 32 else numItems - 32 * i
  }

  /** Cell `i` gives out the items from `32 * i + b` on: inside the cell and inside the bitmap. */
  ghost predicate GivesItems(w: Word, num: nat, numItems: nat, i: nat, b: nat) {
    Gives(w, num, 32, b) && 32 * i + b + num <= numItems
  }

  ghost predicate NoneGiven(w: Word, num: nat, numItems: nat, i: nat) {
    forall b: nat :: !GivesItems(w, num, numItems, i, b)
  }

  lemma GivesInItems(w: Word, num: nat, numItems: nat, i: nat, b: nat)
    requires i < NumCells(numItems)
    ensures Gives(w, num, ItemsInCell(numItems, i), b) <==> GivesItems(w, num, numItems, i, b)
  {
  }

  lemma RefusesItems(w: Word, num: nat, numItems: nat, i: nat)
    requires i < NumCells(numItems)
    ensures Refuses(w, num, ItemsInCell(numItems, i)) <==> NoneGiven(w, num, numItems, i)
  {
    hide Gives, GivesItems;
    forall b: nat
      ensures Gives(w, num, ItemsInCell(numItems, i), b) <==> GivesItems(w, num, numItems, i, b)
    {
      GivesInItems(w, num, numItems, i, b);
    }
  }

  /** One item is refused exactly when all items are taken. */
  lemma OneItemRefused(cells: seq<Word>, numItems: nat)
    requires |cells| == NumCells(numItems)
    ensures (forall i :: 0 <= i < |cells| ==> NoneGiven(cells[i], 1, numItems, i))
            <==> forall k :: 0 <= k < numItems ==> k % 32 in cells[k / 32]
  {
    hide Gives;
    forall i | 0 <= i < |cells|
      ensures NoneGiven(cells[i], 1, numItems, i) <==> forall j :: 0 <= j < ItemsInCell(numItems, i) ==> j in cells[i]
    {
      RefusesItems(cells[i], 1, numItems, i);
      OneItemExact(cells[i], ItemsInCell(numItems, i));
    }
    if forall k :: 0 <= k < numItems ==> k % 32 in cells[k / 32] {
      forall i, j | 0 <= i < |cells| && 0 <= j < ItemsInCell(numItems, i)
        ensures j in cells[i]
      {
        var k := 32 * i + j;
        assert k / 32 == i && k % 32 == j && k < numItems;
      }
    }
    if forall i, j :: 0 <= i < |cells| && 0 <= j < ItemsInCell(numItems, i) ==> j in cells[i] {
      forall k | 0 <= k < numItems
        ensures k % 32 in cells[k / 32]
      {
        assert k % 32 < ItemsInCell(numItems, k / 32);
      }
    }
  }

  /**
    The index returned names the items that the first cell that can give them gives
    out: `num` of them from the lowest clear bit of the cell on, inside the cell and
    inside the bitmap. Failure leaves the bitmap as it was and means that no cell can.
  */
  method BitmapAlloc(cells: array<Word>, numItems: nat, num: nat) returns (idx: int)
    requires cells.Length == NumCells(numItems)
    requires num <= 32
    modifies cells
    ensures idx >= -1
    ensures idx == -1 ==> cells[..] == old(cells[..])
                          && forall i :: 0 <= i < cells.Length ==> NoneGiven(cells[i], num, numItems, i)
    ensures idx >= 0 ==>
      var c, b := idx / 32, idx % 32;
      && c < cells.Length
      && GivesItems(old(cells[c]), num, numItems, c, b)
      && cells[c] == old(cells[c]) + Region(num, b)
      && (forall i :: 0 <= i < cells.Length && i != c ==> cells[i] == old(cells[i]))
      && (forall i :: 0 <= i < c ==> NoneGiven(cells[i], num, numItems, i))
    ensures num == 1 ==> (idx == -1 <==> forall k :: 0 <= k < numItems ==> k % 32 in old(cells[k / 32]))
  {
    ghost var was0 := cells[..];
    OneItemRefused(was0, numItems);
    var numCells := numItems / 32;
    var lastItems := numItems % 32;
    if lastItems != 0 {
      numCells := numCells + 1;
    } else {
      lastItems := 32;
    }
    var retries := 0;
    while retries < MAX_RETRIES
      invariant cells[..] == old(cells[..])
      invariant retries > 0 ==>
                  forall i :: 0 <= i < cells.Length ==> NoneGiven(cells[i], num, numItems, i)
    {
      var i := 0;
      while i < numCells
        invariant 0 <= i <= numCells
        invariant cells[..] == old(cells[..])
        invariant forall j :: 0 <= j < i ==> NoneGiven(cells[j], num, numItems, j)
      {
        var inCell := if i == numCells - 1 then lastItems else 32;
        assert inCell == ItemsInCell(numItems, i);
        ghost var before := cells[..];
        ghost var was := cells[i];
        var bidx := CellAlloc(cells, i, num, inCell);
        RefusesItems(was, num, numItems, i);
        if bidx != -1 {
          GivesInItems(was, num, numItems, i, bidx);
          return i * 32 + bidx;
        }
        assert forall j :: 0 <= j < cells.Length ==> cells[j] == before[j];
        i := i + 1;
      }
      retries := retries + 1;
    }
    return -1;
  }

  /**
    The mask of a run: `num` ones shifted to `bidx`. For 32 ones the shift leaves
    the width of its operand, which C does not define; where the machine takes
    shift counts modulo 32 (`wraps`), the mask is then empty.
  */
  function RegMask(num: nat, bidx: nat, wraps: bool): Word {
    Region(if wraps then num % 32 else num, bidx)
  }

  method BitmapFree(cells: array<Word>, num: nat, idx: nat, wraps: bool)
    requires idx / 32 < cells.Length
    modifies cells
    ensures cells[idx / 32] == old(cells[idx / 32]) - RegMask(num, idx % 32, wraps)
    ensures forall i :: 0 <= i < cells.Length && i != idx / 32 ==> cells[i] == old(cells[i])
  {
    var bidx := idx % 32;
    var i := idx / 32;
    var keep: Word := BUSY - RegMask(num, bidx, wraps);
    cells[i] := cells[i] * keep;
  }

  /**
    Freeing what was allocated restores the bitmap, exactly unless a whole cell
    was allocated and shift counts wrap: then nothing is freed.
  */
  method AllocThenFree(cells: array<Word>, numItems: nat, num: nat, wraps: bool) returns (idx: int)
    requires cells.Length == NumCells(numItems)
    requires num <= 32
    modifies cells
    ensures cells[..] == old(cells[..]) <==> !wraps || num < 32 || idx == -1
  {
    idx := BitmapAlloc(cells, numItems, num);
    if idx >= 0 {
      ghost var c, b := idx / 32, idx % 32;
      ghost var was := old(cells[c]);
      BitmapFree(cells, num, idx, wraps);
      if !wraps || num < 32 {
        assert was + Region(num, b) - Region(num, b) == was;
        assert forall i :: 0 <= i < cells.Length ==> cells[i] == old(cells[i]);
      } else {
        assert b in Region(num, b) && b !in was && b in cells[c];
        assert cells[..][c] != old(cells[..])[c];
      }
    }
  }
}
