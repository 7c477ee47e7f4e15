/**
  Time-series files: entries are appended behind a header with a ring of four
  superblocks, each a time stamp and an entry count. Opening a file trusts the
  superblock with the latest stamp.
*/
module TsFile {
  import opened Common

  const SBCOUNT: nat := 4
  const COUNT_MODULUS: nat := 0x1_0000_0000

  const TSFILE_OK: int := 0
  const TSFILE_SB_FAIL: int := -1
  const TSFILE_DATA_FAIL: int := -2
  const TSFILE_INVAL_RANGE: int := -3

  datatype Superblock = Superblock(time: int, count: nat)
  type Ring = r: seq<Superblock> | |r| == SBCOUNT witness [EMPTY, EMPTY, EMPTY, EMPTY]
  const EMPTY: Superblock := Superblock(0, 0)

  /** What is in the file, in entries; it outlives the sessions that use it. */
  datatype Disk<E> = Disk(ring: Ring, entries: seq<E>)

  // ---------------------------------------------------------------------
  // Choosing a superblock
  // ---------------------------------------------------------------------

  /** The choice among the first `n` superblocks; those never written have time zero. */
  function Choose(ring: Ring, n: nat): (c: Option<nat>)
    requires n <= SBCOUNT
    ensures c.Some? ==> c.value < n && ring[c.value].time > 0
    ensures forall i :: 0 <= i < n && ring[i].time > 0 ==> c.Some? && ring[i].time <= ring[c.value].time
    ensures forall i :: c.Some? && 0 <= i < c.value ==> ring[i].time < ring[c.value].time
  {
    if n == 0 then None
    else
      var c := Choose(ring, n - 1);
      if ring[n - 1].time > 0 && (c.None? || ring[n - 1].time > ring[c.value].time) then Some(n - 1) else c
  }

  /** The superblock at `c` is newer than all others. */
  predicate Newest(ring: Ring, c: nat) {
    c < SBCOUNT && ring[c].time > 0 && forall i :: 0 <= i < SBCOUNT && i != c ==> ring[i].time < ring[c].time
  }

  lemma NewestIsChosen(ring: Ring, c: nat)
    requires Newest(ring, c)
    ensures Choose(ring, SBCOUNT) == Some(c)
  {
    hide Choose;
    assert ring[Choose(ring, SBCOUNT).value].time >= ring[c].time;
  }

  function NextSlot(c: nat): nat {
    (c + 1) % SBCOUNT
  }

  /**
    A superblock written after the newest one is found again exactly when its
    stamp is later, or the same and the ring has just wrapped around to slot 0:
    on a tie the lowest slot is taken.
  */
  lemma WrittenIsChosen(ring: Ring, c: nat, sb: Superblock)
    requires Newest(ring, c)
    ensures Choose(ring[NextSlot(c) := sb], SBCOUNT) == Some(NextSlot(c))
            <==> sb.time > ring[c].time || (sb.time == ring[c].time && c == SBCOUNT - 1)
    ensures sb.time > ring[c].time ==> Newest(ring[NextSlot(c) := sb], NextSlot(c))
  {
    hide Choose;
    var n := NextSlot(c);
    var ring' := ring[n := sb];
    var d := Choose(ring', SBCOUNT);
    assert ring'[c] == ring[c] && ring'[n] == sb;
  }

  // ---------------------------------------------------------------------
  // What a history of calls leaves behind
  // ---------------------------------------------------------------------

  /**
    Outcome of writing entries: all of them, fewer bytes (whatever that leaves
    behind the last valid entry), or an error.
  */
  datatype DataWrite<E> = Full | Short(tail: seq<E>) | Failed

  /** Outcome of reading entries: all that the file has, fewer bytes, or an error. */
  datatype DataRead<E> = Whole | Partial(got: seq<E>) | Broken

  datatype Event<E> =
    | Add(es: seq<E>, data: DataWrite<E>, headerWritten: bool, now: int)
    | Reopen(now: int)

  /**
    Entries covered by the last completed header write, entries of the session,
    the last clock reading, and whether the conditions of recovery were met.
  */
  datatype Log<E> = Log(saved: seq<E>, mem: seq<E>, clock: int, sound: bool)

  /**
    Recovery relies on a clock that advances within a session, on a count that
    fits 32 bits, and on no failing data write: its negative result is compared
    as an unsigned number and taken for success.
  */
  predicate Sound<E>(log: Log<E>, ev: Event<E>) {
    && log.sound
    && (ev.Add? && !ev.data.Short? ==>
          ev.now > log.clock && ev.data.Full? && |log.mem| + |ev.es| < COUNT_MODULUS)
  }

  function Apply<E>(log: Log<E>, ev: Event<E>): Log<E> {
    match ev
    case Reopen(now) => log.(mem := log.saved, clock := now)
    case Add(es, data, headerWritten, now) =>
      if data.Short? then log
      else
        var mem := log.mem + es;
        Log(if headerWritten then mem else log.saved, mem, now, Sound(log, ev))
  }

  function ApplyAll<E>(log: Log<E>, events: seq<Event<E>>): Log<E> {
    if events == [] then log else Apply(ApplyAll(log, events[..|events| - 1]), events[|events| - 1])
  }

  /** Writing entries at a position; a gap before it reads as zeroes. */
  function Overwrite<E>(entries: seq<E>, at: nat, es: seq<E>, zero: E): (r: seq<E>)
    ensures at <= |entries| ==> entries[..at] + es <= r
    ensures |r| == if |entries| > at + |es| then |entries| else at + |es|
    ensures forall i :: 0 <= i < |r| ==>
              r[i] == if at <= i < at + |es| then es[i - at] else if i < |entries| then entries[i] else zero
  {
    if at <= |entries| then
      entries[..at] + es + (if at + |es| <= |entries| then entries[at + |es|..] else [])
    else
      entries + seq(at - |entries|, _ => zero) + es
  }

  lemma OverwriteKeeps<E>(entries: seq<E>, mem: seq<E>, es: seq<E>, zero: E)
    requires mem <= entries
    ensures mem + es <= Overwrite(entries, |mem|, es, zero) && mem <= Overwrite(entries, |mem|, es, zero)
  {
    assert entries[..|mem|] == mem;
    assert mem <= mem + es;
  }

  // ---------------------------------------------------------------------
  // Files
  // ---------------------------------------------------------------------

  /** The newest superblock covers what was saved. */
  ghost predicate Covers<E>(ring: Ring, entries: seq<E>, saved: seq<E>) {
    exists c: nat :: Newest(ring, c) && ring[c].count == |saved| && saved <= entries
  }

  /** The session's superblock covers its entries, and the next stamp will be later. */
  ghost predicate Leads<E>(ring: Ring, c: nat, sbDiff: int, log: Log<E>, entries: seq<E>) {
    && Newest(ring, c) && ring[c].time <= sbDiff + log.clock
    && ring[c].count == |log.mem| && log.mem <= entries && log.saved <= log.mem
  }

  lemma LeadsCount<E>(ring: Ring, c: nat, sbDiff: int, log: Log<E>, entries: seq<E>)
    requires Leads(ring, c, sbDiff, log, entries)
    ensures c < SBCOUNT && ring[c].count == |log.mem|
  {
  }

  /** Whatever a short write leaves behind the valid entries. */
  lemma ShortKeeps<E>(
      onDisk: Ring, ring: Ring, c: nat, sbDiff: int, log: Log<E>, entries: seq<E>, tail: seq<E>, zero: E)
    requires Covers(onDisk, entries, log.saved) && Leads(ring, c, sbDiff, log, entries)
    ensures var entries' := Overwrite(entries, |log.mem|, [], zero)[..|log.mem|] + tail;
            Covers(onDisk, entries', log.saved) && Leads(ring, c, sbDiff, log, entries')
  {
    hide Newest, Overwrite;
    OverwriteKeeps(entries, log.mem, [], zero);
    var entries' := Overwrite(entries, |log.mem|, [], zero)[..|log.mem|] + tail;
    assert log.saved <= log.mem <= entries';
  }

  /** A complete write and a new superblock in memory, and on disk if it gets there. */
  lemma FullKeeps<E>(
      onDisk: Ring, ring: Ring, c: nat, sbDiff: int, log: Log<E>, entries: seq<E>, es: seq<E>, zero: E, now: int)
    requires Covers(onDisk, entries, log.saved) && Leads(ring, c, sbDiff, log, entries)
    requires now > log.clock && |log.mem| + |es| < COUNT_MODULUS
    ensures var entries' := Overwrite(entries, |log.mem|, es, zero);
            var ring' := ring[NextSlot(c) := Superblock(sbDiff + now, |log.mem| + |es|)];
            var mem := log.mem + es;
            && Covers(onDisk, entries', log.saved) && Covers(ring', entries', mem)
            && Leads(ring', NextSlot(c), sbDiff, Log(log.saved, mem, now, true), entries')
            && Leads(ring', NextSlot(c), sbDiff, Log(mem, mem, now, true), entries')
  {
    hide Newest, Overwrite, Choose;
    OverwriteKeeps(entries, log.mem, es, zero);
    WrittenIsChosen(ring, c, Superblock(sbDiff + now, |log.mem| + |es|));
    var entries' := Overwrite(entries, |log.mem|, es, zero);
    assert log.saved <= log.mem <= log.mem + es <= entries';
  }

  class File<E> {
    const zero: E
    var disk: Disk<E>
    var ring: Ring
    var curSb: nat
    var sbDiff: int
    ghost var log: Log<E>

    /** While the conditions of recovery are met, disk and memory hold what the log says. */
    ghost predicate Valid()
      reads this
    {
      && curSb < SBCOUNT
      && (log.sound ==> Covers(disk.ring, disk.entries, log.saved) && Leads(ring, curSb, sbDiff, log, disk.entries))
    }

    /** Creates a file over whatever the file held before. */
    constructor (stale: seq<E>, zero: E, now: int)
      ensures Valid() && log == Log([], [], now, now > 0) && this.zero == zero
      ensures disk.entries == stale && ring[curSb].count == 0
    {
      this.zero := zero;
      var first := [Superblock(now, 0), EMPTY, EMPTY, EMPTY];
      disk := Disk(first, stale);
      ring, curSb, sbDiff := first, 0, 0;
      log := Log([], [], now, now > 0);
      new;
      assert now > 0 ==> Newest(disk.ring, 0);
    }

    /** Searches the ring for the latest stamp. */
    static method FindSuperblock(ring: Ring) returns (found: Option<nat>)
      ensures found == Choose(ring, SBCOUNT)
      ensures found.Some? <==> exists i :: 0 <= i < SBCOUNT && ring[i].time > 0
      ensures forall c: nat :: Newest(ring, c) ==> found == Some(c)
    {
      found := None;
      for sbi := 0 to SBCOUNT
        invariant found == Choose(ring, sbi)
      {
        if ring[sbi].time > 0 && (found.None? || ring[sbi].time > ring[found.value].time) {
          found := Some(sbi);
        }
      }
      ReopenedNewest(ring, found);
    }

    /** Opens the file again after a close or a crash, which lose what is in memory. */
    method Reopen(now: int) returns (ok: bool)
      requires Valid()
      modifies this
      ensures disk == old(disk)
      ensures ok <==> exists i :: 0 <= i < SBCOUNT && disk.ring[i].time > 0
      ensures ok ==> Valid() && log == Apply(old(log), Event.Reopen(now))
      ensures ok ==> ring == disk.ring && Choose(ring, SBCOUNT) == Some(curSb)
      ensures ok ==> sbDiff == if ring[curSb].time > now then ring[curSb].time - now else 0
      ensures old(log.sound) ==> ok
    {
      hide Newest, Choose;
      var found := FindSuperblock(disk.ring);
      ok := found.Some?;
      if ok {
        ring, curSb := disk.ring, found.value;
        sbDiff := if ring[curSb].time > now then ring[curSb].time - now else 0;
        log := Apply(log, Event.Reopen(now));
      }
    }

    method Add(es: seq<E>, data: DataWrite<E>, headerWritten: bool, now: int) returns (ret: int)
      requires Valid()
      modifies this
      ensures Valid() && log == Apply(old(log), Event.Add(es, data, headerWritten, now))
      ensures ret == if data.Short? then TSFILE_DATA_FAIL else if headerWritten then TSFILE_OK else TSFILE_SB_FAIL
      ensures sbDiff == old(sbDiff)
      ensures data.Short? ==> ring == old(ring) && curSb == old(curSb) && disk.ring == old(disk.ring)
      ensures !data.Short? ==>
                && curSb == NextSlot(old(curSb))
                && ring == old(ring)[curSb := Superblock(sbDiff + now, (old(ring[curSb].count) + |es|) % COUNT_MODULUS)]
                && disk.ring == (if headerWritten then ring else old(disk.ring))
      ensures data.Full? ==> disk.entries == Overwrite(old(disk.entries), old(ring[curSb].count), es, zero)
      ensures data.Failed? ==> disk.entries == old(disk.entries)
    {
      hide Covers, Leads, Overwrite;
      var count := ring[curSb].count;
      ghost var was := log;
      if log.sound {
        LeadsCount(ring, curSb, sbDiff, log, disk.entries);
      }
      if Sound(was, Event.Add(es, data, headerWritten, now)) && data.Full? {
        FullKeeps(disk.ring, ring, curSb, sbDiff, log, disk.entries, es, zero, now);
      }
      match data {
        case Short(tail) =>
          if log.sound {
            ShortKeeps(disk.ring, ring, curSb, sbDiff, log, disk.entries, tail, zero);
          }
          disk := disk.(entries := Overwrite(disk.entries, count, [], zero)[..count] + tail);
          return TSFILE_DATA_FAIL;
        case Full =>
          disk := disk.(entries := Overwrite(disk.entries, count, es, zero));
        case Failed =>
      }
      curSb := NextSlot(curSb);
      ring := ring[curSb := Superblock(sbDiff + now, (count + |es|) % COUNT_MODULUS)];
      ret := TSFILE_SB_FAIL;
      if headerWritten {
        disk := disk.(ring := ring);
        ret := TSFILE_OK;
      }
      log := Apply(log, Event.Add(es, data, headerWritten, now));
    }

    method GetCount() returns (n: nat)
      requires Valid()
      ensures n == ring[curSb].count && (log.sound ==> n == |log.mem|)
    {
      n := ring[curSb].count;
    }

    /**
      Reads a range of entries into the caller's buffer. Empty and excessive ranges
      are refused, and a short read is reported. A read that fails outright is
      not: its negative result passes for success, and the buffer is as it was.
    */
    method GetEntries(start: nat, end: nat, buffer: seq<E>, read: DataRead<E>) returns (ret: int, es: seq<E>)
      requires Valid()
      ensures ret == if start >= end || end > ring[curSb].count then TSFILE_INVAL_RANGE
                     else if read.Partial? || (read.Whole? && end > |disk.entries|) then TSFILE_DATA_FAIL else TSFILE_OK
      ensures log.sound && read.Whole? ==> ret == if start < end <= |log.mem| then TSFILE_OK else TSFILE_INVAL_RANGE
      ensures log.sound && ret == TSFILE_OK ==> es == if read.Whole? then log.mem[start..end] else buffer
      ensures ret == TSFILE_INVAL_RANGE ==> es == buffer
    {
      es := buffer;
      if start >= end {
        return TSFILE_INVAL_RANGE, es;
      }
      var count := ring[curSb].count;
      if start > count || end > count {
        return TSFILE_INVAL_RANGE, es;
      }
      match read
      case Partial(got) => return TSFILE_DATA_FAIL, got;
      case Broken => return TSFILE_OK, es;
      case Whole =>
        if end > |disk.entries| {
          return TSFILE_DATA_FAIL, es;
        }
        return TSFILE_OK, disk.entries[start..end];
    }
  }

  lemma ReopenedNewest(ring: Ring, found: Option<nat>)
    requires found == Choose(ring, SBCOUNT)
    ensures found.Some? <==> exists i :: 0 <= i < SBCOUNT && ring[i].time > 0
    ensures forall c: nat :: Newest(ring, c) ==> found == Some(c)
  {
    forall c: nat | Newest(ring, c)
      ensures found == Some(c)
    {
      NewestIsChosen(ring, c);
    }
  }

  // ---------------------------------------------------------------------
  // Whole histories
  // ---------------------------------------------------------------------

  /** Once a condition of recovery was broken it stays so. */
  lemma {:induction false} SoundStays<E>(log: Log<E>, events: seq<Event<E>>, k: nat)
    requires k <= |events| && ApplyAll(log, events).sound
    ensures ApplyAll(log, events[..k]).sound
    decreases |events|
  {
    if k < |events| {
      var most := events[..|events| - 1];
      assert most[..k] == events[..k];
      SoundStays(log, most, k);
    } else {
      assert events[..k] == events;
    }
  }

  /**
    Plays a history of a new file. Whatever crashes, lost header writes and short
    data writes it has, a sound one is played to its end, and after each
    reopening the file holds what the last completed header write covered.
  */
  method Play<E>(stale: seq<E>, zero: E, now: int, events: seq<Event<E>>) returns (ok: bool, file: File<E>)
    ensures var log := ApplyAll(Log([], [], now, now > 0), events);
            && (log.sound ==> ok)
            && (ok ==> file.Valid() && file.log == log)
  {
    file := new File(stale, zero, now);
    ghost var log0 := file.log;
    ok := true;
    var k := 0;
    while k < |events|
      invariant k <= |events| && fresh(file)
      invariant file.Valid() && file.log == ApplyAll(log0, events[..k]) && ok
    {
      assert events[..k + 1][..k] == events[..k];
      match events[k] {
        case Add(es, data, headerWritten, t) =>
          var _ := file.Add(es, data, headerWritten, t);
        case Reopen(t) =>
          ok := file.Reopen(t);
          if !ok {
            if ApplyAll(log0, events).sound {
              SoundStays(log0, events, k);
            }
            return;
          }
      }
      k := k + 1;
    }
    assert events[..k] == events;
  }

  /** A data write that fails outright is reported as a success, and its entry cannot be read. */
  method FailedWriteIsAccepted() returns (added: int, count: nat, read: int)
    ensures added == TSFILE_OK && count == 1 && read == TSFILE_DATA_FAIL
  {
    var file := new File<int>([], 0, 1);
    added := file.Add([7], Failed, true, 2);
    count := file.GetCount();
    var es;
    read, es := file.GetEntries(0, 1, [0], Whole);
  }
}
