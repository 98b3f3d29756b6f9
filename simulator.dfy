/** The simulation engine of frames.c: the page table, the simulated clock,
    CLOCK's hand and the four statistics counters, held by one object whose
    methods are the source's functions. */
module Simulator {
  import opened FrameTable
  import opened Policies

  /** Table s with the hand at h is table s0 with the hand at h0 after page p
      was loaded into `slot` at time t: the first free slot is filled if
      there is one; otherwise the policy's victim is swept for and replaced. */
  ghost predicate Refilled(st: Strategy, trace: seq<TraceEntry>, t: nat, s0: seq<Frame>, h0: int,
                           p: int, dirty: bool, slot: int, s: seq<Frame>, h: int)
  {
    |s| == |s0| && 0 <= h0 < |s0| && 0 <= slot < |s0| &&
    s == (if FreeIndex(s0) != -1 then s0 else Swept(st, s0, h0))[slot := Frame(p, t, t, true, dirty, true)] &&
    if FreeIndex(s0) != -1 then
      slot == FreeIndex(s0) && h == h0
    else
      IsVictim(st, s0, trace, t, h0, slot) &&
      h == (if st == Clock then (slot + 1) % |s0| else h0)
  }

  /** Loading into the first free slot refills the table. */
  lemma RefillFree(st: Strategy, trace: seq<TraceEntry>, t: nat, s0: seq<Frame>, h0: int,
                   p: int, dirty: bool, slot: int)
    requires 0 <= h0 < |s0| && 0 <= slot && slot == FreeIndex(s0)
    ensures Refilled(st, trace, t, s0, h0, p, dirty, slot, s0[slot := Frame(p, t, t, true, dirty, true)], h0)
  {
  }

  /** Loading into the slot the policy freed refills the table. */
  lemma RefillEvict(st: Strategy, trace: seq<TraceEntry>, t: nat, s0: seq<Frame>, h0: int,
                    p: int, dirty: bool, slot: int, s1: seq<Frame>, h: int)
    requires 0 <= h0 < |s0| && 0 <= slot < |s0| && FreeIndex(s0) == -1
    requires IsVictim(st, s0, trace, t, h0, slot)
    requires h == if st == Clock then (slot + 1) % |s0| else h0
    requires s1 == Swept(st, s0, h0)[slot := Swept(st, s0, h0)[slot].(valid := false)]
    ensures Refilled(st, trace, t, s0, h0, p, dirty, slot, s1[slot := Frame(p, t, t, true, dirty, true)], h)
  {
    OverwriteSlot(Swept(st, s0, h0), slot, Swept(st, s0, h0)[slot].(valid := false), Frame(p, t, t, true, dirty, true));
  }

  /** A refill keeps the table sound, puts every stamp before t + 1, keeps
      the hand on a frame, and adds one valid slot unless it evicted one. */
  lemma RefilledKeeps(st: Strategy, trace: seq<TraceEntry>, t: nat, s0: seq<Frame>, h0: int,
                      p: int, dirty: bool, slot: int, s: seq<Frame>, h: int)
    requires Refilled(st, trace, t, s0, h0, p, dirty, slot, s, h)
    requires WellFormed(s0) && StampedBefore(s0, t) && Absent(s0, p)
    ensures WellFormed(s) && StampedBefore(s, t + 1) && 0 <= h < |s|
    ensures ValidCount(s) == ValidCount(s0) + (if FreeIndex(s0) != -1 then 1 else 0)
  {
    var f := Frame(p, t, t, true, dirty, true);
    FreeIndexSpec(s0);
    if FreeIndex(s0) != -1 {
      LoadKeeps(s0, slot, f, t);
    } else {
      var sw := Swept(st, s0, h0);
      var s1 := sw[slot := sw[slot].(valid := false)];
      ThinnedKeeps(s0, s1, t, p);
      ValidCountSameFlags(s0, sw);
      ValidCountUpdate(sw, slot, sw[slot].(valid := false));
      OverwriteSlot(sw, slot, sw[slot].(valid := false), f);
      LoadKeeps(s1, slot, f, t);
    }
  }

  class Sim {
    /** The decoded trace, read-only for the whole run. */
    const trace: seq<TraceEntry>
    const strategy: Strategy
    const verbose: bool
    /** The page table; its length is the configured number of frames. */
    const frames: array<Frame>
    /** Simulated time: the index of the trace entry being processed. */
    var time: nat
    var clockHand: nat
    var numMemAccesses: nat
    var numMisses: nat
    var numWrites: nat
    var numDrops: nat
    /** Every eviction so far, in order. */
    ghost var evictions: seq<Eviction>
    /** What the verbose report has printed so far. */
    ghost var reported: seq<Eviction>

    /** The table itself is sound: at least one frame, the hand on a frame,
        no page resident twice, and load time never after last access. */
    ghost predicate TableOk()
      reads this, frames
    {
      frames.Length >= 1 && clockHand < frames.Length && WellFormed(frames[..])
    }

    /** Every resident page was last touched before time t. */
    ghost predicate StampsBefore(t: int)
      reads this, frames
    {
      StampedBefore(frames[..], t)
    }

    /** Each eviction counted once, as a write when its victim was dirty and
        as a drop otherwise; the verbose report lists them all when it is on. */
    ghost predicate Ledger()
      reads this
    {
      numWrites == WriteCount(evictions) && numWrites + numDrops == |evictions| &&
      reported == (if verbose then evictions else [])
    }

    /** The state between two trace entries: every miss either filled a slot
        that is still valid or evicted a page. */
    ghost predicate Valid()
      reads this, frames
    {
      TableOk() && StampsBefore(time) && Ledger() &&
      numMisses == |evictions| + ValidCount(frames[..]) &&
      numMemAccesses == time && numMisses <= time
    }

    /** The state after page p was loaded into `slot` at the current time,
        when the table was s0, the hand h0 and the eviction log ev0: the
        table and hand are as Refilled says, and the log gained the victim
        exactly when there was no free slot. */
    ghost predicate LoadedFrom(s0: seq<Frame>, h0: int, ev0: seq<Eviction>, p: int, dirty: bool, slot: int)
      reads this, frames
    {
      Refilled(strategy, trace, time, s0, h0, p, dirty, slot, frames[..], clockHand) &&
      evictions == ev0 + (if FreeIndex(s0) != -1 then [] else [Eviction(p, s0[slot].pfn, s0[slot].dirty)])
    }

    /** A fresh simulation: every frame free, clock, hand and counters at 0. */
    constructor (trace: seq<TraceEntry>, capacity: nat, strategy: Strategy, verbose: bool)
      requires capacity >= 1
      ensures Valid() && fresh(frames)
      ensures this.trace == trace && this.strategy == strategy && this.verbose == verbose
      ensures frames.Length == capacity && forall i :: 0 <= i < capacity ==> !frames[i].valid
      ensures time == 0 && clockHand == 0
      ensures numMemAccesses == 0 && numMisses == 0 && numWrites == 0 && numDrops == 0
      ensures evictions == [] && reported == []
    {
      this.trace := trace;
      this.strategy := strategy;
      this.verbose := verbose;
      frames := new Frame[capacity](_ => Frame(0, 0, 0, false, false, false));
      time, clockHand := 0, 0;
      numMemAccesses, numMisses, numWrites, numDrops := 0, 0, 0, 0;
      evictions, reported := [], [];
      new;
      ValidCountBounds(frames[..]);
    }

    method IncMemAccesses()
      modifies this`numMemAccesses
      ensures numMemAccesses == old(numMemAccesses) + 1
    {
      numMemAccesses := numMemAccesses + 1;
    }

    method IncMisses()
      modifies this`numMisses
      ensures numMisses == old(numMisses) + 1
    {
      numMisses := numMisses + 1;
    }

    method IncWrites()
      modifies this`numWrites
      ensures numWrites == old(numWrites) + 1
    {
      numWrites := numWrites + 1;
    }

    method IncDrops()
      modifies this`numDrops
      ensures numDrops == old(numDrops) + 1
    {
      numDrops := numDrops + 1;
    }

    /** The first free slot, or -1 when the table is full. */
    method GetFreeIdx() returns (idx: int)
      ensures idx == FreeIndex(frames[..])
    {
      FreeIndexSpec(frames[..]);
      for i := 0 to frames.Length
        invariant forall j :: 0 <= j < i ==> frames[j].valid
      {
        if !frames[i].valid {
          return i;
        }
      }
      return -1;
    }

    /** The first valid slot holding page p, or -1 on a miss. */
    method GetPfnIdx(p: int) returns (idx: int)
      ensures idx == PfnIndex(frames[..], p)
    {
      PfnIndexSpec(frames[..], p);
      for i := 0 to frames.Length
        invariant forall j :: 0 <= j < i ==> !(frames[j].valid && frames[j].pfn == p)
      {
        if frames[i].pfn == p && frames[i].valid {
          return i;
        }
      }
      return -1;
    }

    /** The next trace position after the current time that touches page p,
        or -1 when p is never touched again. */
    method GetNextUsage(p: int) returns (r: int)
      ensures r == NextUse(trace, time + 1, p)
    {
      var i := time + 1;
      while i < |trace|
        invariant time + 1 <= i
        invariant NextUse(trace, i, p) == NextUse(trace, time + 1, p)
        decreases |trace| - i
      {
        if trace[i].pfn == p {
          return i;
        }
        i := i + 1;
      }
      return -1;
    }

    /** Belady's policy. It looks at every slot without testing `valid`. */
    method OptEvict() returns (idx: int)
      ensures frames.Length == 0 ==> idx == -1
      ensures frames.Length >= 1 ==> IsOptVictim(frames[..], trace, time, idx)
    {
      var furthestIdx, furthestTime := -1, 0;
      for i := 0 to frames.Length
        invariant forall j :: 0 <= j < i ==> NextNeed(trace, time, frames[..], j) != -1
        invariant i == 0 ==> furthestIdx == -1 && furthestTime == 0
        invariant i > 0 ==> (0 <= furthestIdx < i &&
          furthestTime == NextNeed(trace, time, frames[..], furthestIdx) &&
          (forall j :: 0 <= j < i ==> NextNeed(trace, time, frames[..], j) <= furthestTime) &&
          (forall j :: 0 <= j < furthestIdx ==> NextNeed(trace, time, frames[..], j) < furthestTime))
        invariant furthestTime >= 0
      {
        var nextTime := GetNextUsage(frames[i].pfn);
        assert nextTime == NextNeed(trace, time, frames[..], i);
        if nextTime == -1 {
          return i;
        }
        if nextTime > furthestTime {
          furthestTime := nextTime;
          furthestIdx := i;
        }
      }
      return furthestIdx;
    }

    /** FIFO: the valid slot with the earliest load time before now, the
        lowest such slot on a tie; -1 when no valid slot was loaded before now. */
    method FifoEvict() returns (idx: int)
      ensures idx == -1 <==>
        forall j :: 0 <= j < frames.Length && frames[j].valid ==> frames[j].entryTime >= time
      ensures idx != -1 ==> IsEarliest(frames[..], time, Entry, idx)
    {
      var minTime, minIdx := time as int, -1;
      for i := 0 to frames.Length
        invariant minIdx == -1 ==> (minTime == time &&
          forall j :: 0 <= j < i && frames[j].valid ==> frames[j].entryTime >= time)
        invariant minIdx != -1 ==> (0 <= minIdx < i && frames[minIdx].valid &&
          minTime == frames[minIdx].entryTime < time &&
          (forall j :: 0 <= j < i && frames[j].valid ==> minTime <= frames[j].entryTime) &&
          (forall j :: 0 <= j < minIdx && frames[j].valid ==> minTime < frames[j].entryTime))
      {
        if frames[i].valid && frames[i].entryTime < minTime {
          minTime := frames[i].entryTime;
          minIdx := i;
        }
      }
      return minIdx;
    }

    /** CLOCK: clears the use bit of every slot under the hand until it finds
        one already clear, evicts that one and leaves the hand just past it. */
    method ClockEvict() returns (idx: int)
      requires frames.Length >= 1 && clockHand < frames.Length
      modifies this`clockHand, frames
      ensures idx == ClockVictim(old(frames[..]), old(clockHand))
      ensures frames[..] == ClockSweep(old(frames[..]), old(clockHand))
      ensures clockHand == (idx + 1) % frames.Length
    {
      ghost var s0, h0, k := frames[..], clockHand, 0;
      var n := frames.Length;
      while frames[clockHand].use
        invariant 0 <= k <= n && clockHand == Advance(h0, k, n)
        invariant forall m :: 0 <= m < k ==> s0[Advance(h0, m, n)].use
        invariant frames[..] == PartialSweep(s0, h0, k)
        decreases n - k
      {
        assert Distance(h0, clockHand, n) == k;
        SweepStep(s0, h0, k);
        frames[clockHand] := frames[clockHand].(use := false);
        HandStep(h0, k, n);
        clockHand := (clockHand + 1) % n;
        k := k + 1;
      }
      if k < n {
        assert Distance(h0, clockHand, n) == k;
      }
      ClockStepsAt(s0, h0, 0, k);
      idx := clockHand;
      clockHand := (clockHand + 1) % n;
    }

    /** LRU: the valid slot with the earliest last access before now, the
        lowest such slot on a tie; -1 when no valid slot was touched before now. */
    method LruEvict() returns (idx: int)
      ensures idx == -1 <==>
        forall j :: 0 <= j < frames.Length && frames[j].valid ==> frames[j].lastAccessTime >= time
      ensures idx != -1 ==> IsEarliest(frames[..], time, LastAccess, idx)
    {
      var minTime, minIdx := time as int, -1;
      for i := 0 to frames.Length
        invariant minIdx == -1 ==> (minTime == time &&
          forall j :: 0 <= j < i && frames[j].valid ==> frames[j].lastAccessTime >= time)
        invariant minIdx != -1 ==> (0 <= minIdx < i && frames[minIdx].valid &&
          minTime == frames[minIdx].lastAccessTime < time &&
          (forall j :: 0 <= j < i && frames[j].valid ==> minTime <= frames[j].lastAccessTime) &&
          (forall j :: 0 <= j < minIdx && frames[j].valid ==> minTime < frames[j].lastAccessTime))
      {
        if frames[i].valid && frames[i].lastAccessTime < minTime {
          minTime := frames[i].lastAccessTime;
          minIdx := i;
        }
      }
      return minIdx;
    }

    /** RANDOM: some valid slot; which one the generator lands on is left open. */
    method RandomEvict() returns (idx: int)
      requires exists i :: 0 <= i < frames.Length && frames[i].valid
      ensures 0 <= idx < frames.Length && frames[idx].valid
    {
      idx :| 0 <= idx < frames.Length && frames[idx].valid;
    }

    /** The policy dispatch of evict_page: the victim on a full table. */
    method SelectVictim() returns (idx: int)
      requires TableOk() && StampsBefore(time) && FreeIndex(frames[..]) == -1
      modifies this`clockHand, frames
      ensures 0 <= idx < frames.Length && clockHand < frames.Length
      ensures IsVictim(strategy, old(frames[..]), trace, time, old(clockHand), idx)
      ensures frames[..] == Swept(strategy, old(frames[..]), old(clockHand))
      ensures clockHand == if strategy == Clock then (idx + 1) % frames.Length else old(clockHand)
    {
      FreeIndexSpec(frames[..]);
      match strategy {
        case Opt =>
          idx := OptEvict();
        case Fifo =>
          assert frames[0].valid;
          idx := FifoEvict();
        case Clock =>
          idx := ClockEvict();
        case Lru =>
          assert frames[0].valid;
          idx := LruEvict();
        case Random =>
          assert frames[0].valid;
          idx := RandomEvict();
      }
    }

    /** The rest of evict_page once the victim is chosen: counts it as a
        write when dirty and as a drop otherwise, reports it when verbose,
        and frees its slot. */
    method RetireVictim(idx: int, p: int)
      requires 0 <= idx < frames.Length && Ledger()
      modifies this`numWrites, this`numDrops, this`evictions, this`reported, frames
      ensures Ledger()
      ensures frames[..] == old(frames[..])[idx := old(frames[idx]).(valid := false)]
      ensures var e := Eviction(p, old(frames[idx].pfn), old(frames[idx].dirty));
        evictions == old(evictions) + [e] &&
        reported == if verbose then old(reported) + [e] else old(reported)
      ensures if old(frames[idx].dirty)
        then numWrites == old(numWrites) + 1 && numDrops == old(numDrops)
        else numDrops == old(numDrops) + 1 && numWrites == old(numWrites)
    {
      ghost var e := Eviction(p, frames[idx].pfn, frames[idx].dirty);
      if frames[idx].dirty {
        IncWrites();
      } else {
        IncDrops();
      }
      if verbose {
        reported := reported + [e];
      }
      WriteCountAppend(evictions, e);
      evictions := evictions + [e];
      frames[idx] := frames[idx].(valid := false);
    }

    /** Picks the policy's victim on a full table, counts it as a write or a
        drop, reports it, and frees its slot. */
    method EvictPage(p: int) returns (idx: int)
      requires TableOk() && Ledger() && StampsBefore(time)
      requires FreeIndex(frames[..]) == -1
      modifies this`clockHand, this`numWrites, this`numDrops, this`evictions, this`reported, frames
      ensures TableOk() && Ledger() && StampsBefore(time)
      ensures 0 <= idx < frames.Length && !frames[idx].valid
      ensures IsVictim(strategy, old(frames[..]), trace, time, old(clockHand), idx)
      ensures var swept := Swept(strategy, old(frames[..]), old(clockHand));
        frames[..] == swept[idx := swept[idx].(valid := false)]
      ensures clockHand == if strategy == Clock then (idx + 1) % frames.Length else old(clockHand)
      ensures var e := Eviction(p, old(frames[idx].pfn), old(frames[idx].dirty));
        evictions == old(evictions) + [e] &&
        reported == if verbose then old(reported) + [e] else old(reported)
      ensures if old(frames[idx].dirty)
        then numWrites == old(numWrites) + 1 && numDrops == old(numDrops)
        else numDrops == old(numDrops) + 1 && numWrites == old(numWrites)
      ensures Thinned(old(frames[..]), frames[..])
      ensures ValidCount(frames[..]) == old(ValidCount(frames[..])) - 1
    {
      ghost var s0 := frames[..];
      FreeIndexSpec(s0);
      idx := SelectVictim();
      ghost var swept := frames[..];
      RetireVictim(idx, p);
      ValidCountSameFlags(s0, swept);
      ValidCountUpdate(swept, idx, frames[idx]);
      ThinnedKeeps(s0, frames[..], time, p);
    }

    /** Loads page p (dirty when the access writes) into the first free slot,
        or into the slot the policy frees when there is none. */
    method AddPage(p: int, dirty: bool) returns (ghost slot: int)
      requires TableOk() && Ledger() && StampsBefore(time)
      modifies this`clockHand, this`numWrites, this`numDrops, this`evictions, this`reported, frames
      ensures Ledger()
      ensures LoadedFrom(old(frames[..]), old(clockHand), old(evictions), p, dirty, slot)
    {
      ghost var s0, h0 := frames[..], clockHand;
      FreeIndexSpec(s0);
      var freeIdx := GetFreeIdx();
      if freeIdx == -1 {
        freeIdx := EvictPage(p);
        RefillEvict(strategy, trace, time, s0, h0, p, dirty, freeIdx, frames[..], clockHand);
      } else {
        RefillFree(strategy, trace, time, s0, h0, p, dirty, freeIdx);
      }
      ghost var s1 := frames[..];
      frames[freeIdx] := Frame(p, time, time, true, dirty, true);
      slot := freeIdx;
      assert frames[..] == s1[freeIdx := frames[freeIdx]];
    }

    /** One trace entry at the current time: a hit refreshes the frame that
        holds p; a miss is counted and loads p. */
    method ProcessMemoryAccess(p: int, rw: char, idx: int) returns (ghost slot: int)
      requires Valid()
      modifies this`clockHand, this`numMisses, this`numWrites, this`numDrops, this`evictions, this`reported, frames
      ensures TableOk() && Ledger() && StampsBefore(time + 1)
      ensures numMisses == |evictions| + ValidCount(frames[..])
      ensures 0 <= slot < frames.Length && frames[slot].valid && frames[slot].pfn == p
      ensures forall i :: 0 <= i < frames.Length && frames[i].valid && frames[i].pfn == p ==> i == slot
      ensures ValidCount(frames[..]) >= old(ValidCount(frames[..]))
      ensures var k := old(PfnIndex(frames[..], p));
        k != -1 ==>
          slot == k &&
          frames[..] == old(frames[..])[k := old(frames[k]).(dirty := old(frames[k].dirty) || rw == 'W',
                                                            lastAccessTime := time, use := true)] &&
          numMisses == old(numMisses) && numWrites == old(numWrites) && numDrops == old(numDrops) &&
          clockHand == old(clockHand) && evictions == old(evictions) && reported == old(reported)
      ensures old(PfnIndex(frames[..], p)) == -1 ==>
        numMisses == old(numMisses) + 1 &&
        LoadedFrom(old(frames[..]), old(clockHand), old(evictions), p, rw == 'W', slot)
    {
      var pfnIdx := GetPfnIdx(p);
      if pfnIdx == -1 {
        ghost var s0, h0 := frames[..], clockHand;
        PfnIndexSpec(s0, p);
        slot := AddPage(p, rw == 'W');
        IncMisses();
        RefilledKeeps(strategy, trace, time, s0, h0, p, rw == 'W', slot, frames[..], clockHand);
      } else {
        ghost var s0 := frames[..];
        PfnIndexSpec(s0, p);
        var f := frames[pfnIdx];
        if rw == 'W' {
          f := f.(dirty := true);
        }
        f := f.(lastAccessTime := time, use := true);
        frames[pfnIdx] := f;
        slot := pfnIdx;
        TouchKeeps(s0, pfnIdx, f, time);
        assert frames[..] == s0[pfnIdx := f];
      }
    }

    /** The main loop: every trace entry in order, one time step each. */
    method Run()
      requires Valid() && time == 0
      modifies this`time, this`clockHand, this`numMemAccesses, this`numMisses, this`numWrites,
               this`numDrops, this`evictions, this`reported, frames
      ensures Valid() && time == |trace| && numMemAccesses == |trace|
      ensures numWrites + numDrops == |evictions| == numMisses - ValidCount(frames[..])
      ensures numMisses - frames.Length <= numWrites + numDrops <= numMisses <= numMemAccesses
    {
      for i := 0 to |trace|
        invariant Valid() && time == i
      {
        ghost var slot := ProcessMemoryAccess(trace[i].pfn, trace[i].rw, i);
        IncMemAccesses();
        time := time + 1;
      }
    }
  }
}
