/** The frame table of the page-replacement simulator: its records and the
    read-only scans over it, stated on sequences of frames. */
module FrameTable {

  /** One decoded trace record: the page frame number and the access tag
      (the tag 'W' marks a write, every other tag a read). */
  datatype TraceEntry = TraceEntry(pfn: int, rw: char)

  /** One slot of the page table. The timestamps and the flags other than
      `valid` mean something only while `valid` holds. */
  datatype Frame = Frame(pfn: int, entryTime: int, lastAccessTime: int,
                         valid: bool, dirty: bool, use: bool)

  /** What the verbose report is given on an eviction: the incoming page,
      the page evicted, and whether the evicted page was dirty. */
  datatype Eviction = Eviction(incoming: int, evicted: int, evictedDirty: bool)

  /** The five replacement policies; an unknown name is rejected before the
      simulation starts, so it has no constructor here. */
  datatype Strategy = Opt | Fifo | Clock | Lru | Random

  /** Index of the first slot that is not valid, or -1 when every slot is. */
  function FreeIndex(s: seq<Frame>): (r: int)
    ensures -1 <= r < |s|
  {
    if |s| == 0 then -1
    else
      var r := FreeIndex(s[..|s| - 1]);
      if r != -1 then r
      else if !s[|s| - 1].valid then |s| - 1
      else -1
  }

  /** FreeIndex finds the lowest free slot, and -1 means the table is full. */
  lemma {:induction false} FreeIndexSpec(s: seq<Frame>)
    ensures FreeIndex(s) == -1 <==> forall i :: 0 <= i < |s| ==> s[i].valid
    ensures FreeIndex(s) != -1 ==>
      !s[FreeIndex(s)].valid && forall i :: 0 <= i < FreeIndex(s) ==> s[i].valid
  {
    if |s| > 0 {
      var n := |s| - 1;
      FreeIndexSpec(s[..n]);
      assert forall i :: 0 <= i < n ==> s[..n][i] == s[i];
    }
  }

  /** Index of the first valid slot holding page p, or -1 when p is not resident. */
  function PfnIndex(s: seq<Frame>, p: int): (r: int)
    ensures -1 <= r < |s|
  {
    if |s| == 0 then -1
    else
      var r := PfnIndex(s[..|s| - 1], p);
      if r != -1 then r
      else if s[|s| - 1].pfn == p && s[|s| - 1].valid then |s| - 1
      else -1
  }

  /** PfnIndex finds the lowest valid slot holding p, and -1 means no valid
      slot holds p. */
  lemma {:induction false} PfnIndexSpec(s: seq<Frame>, p: int)
    ensures PfnIndex(s, p) == -1 <==> Absent(s, p)
    ensures PfnIndex(s, p) != -1 ==>
      s[PfnIndex(s, p)].valid && s[PfnIndex(s, p)].pfn == p &&
      forall i :: 0 <= i < PfnIndex(s, p) ==> !(s[i].valid && s[i].pfn == p)
  {
    if |s| > 0 {
      var n := |s| - 1;
      PfnIndexSpec(s[..n], p);
      assert forall i :: 0 <= i < n ==> s[..n][i] == s[i];
    }
  }

  /** No valid slot holds page p. */
  ghost predicate Absent(s: seq<Frame>, p: int) {
    forall i :: 0 <= i < |s| && s[i].valid ==> s[i].pfn != p
  }

  /** Number of valid slots. */
  function ValidCount(s: seq<Frame>): (r: nat)
    ensures r <= |s|
  {
    if |s| == 0 then 0
    else ValidCount(s[..|s| - 1]) + (if s[|s| - 1].valid then 1 else 0)
  }

  /** The count reaches the table size exactly when every slot is valid, and
      is zero exactly when none is. */
  lemma {:induction false} ValidCountBounds(s: seq<Frame>)
    ensures ValidCount(s) == |s| <==> forall i :: 0 <= i < |s| ==> s[i].valid
    ensures ValidCount(s) == 0 <==> forall i :: 0 <= i < |s| ==> !s[i].valid
  {
    if |s| > 0 {
      var n := |s| - 1;
      ValidCountBounds(s[..n]);
      assert forall i :: 0 <= i < n ==> s[..n][i] == s[i];
    }
  }

  /** Replacing one slot changes the count of valid slots by the change in
      that slot's own flag. */
  lemma {:induction false} ValidCountUpdate(s: seq<Frame>, i: int, f: Frame)
    requires 0 <= i < |s|
    ensures ValidCount(s[i := f])
            == ValidCount(s) - (if s[i].valid then 1 else 0) + (if f.valid then 1 else 0)
  {
    var t := s[i := f];
    var n := |s| - 1;
    assert ValidCount(t) == ValidCount(t[..n]) + (if t[n].valid then 1 else 0);
    assert ValidCount(s) == ValidCount(s[..n]) + (if s[n].valid then 1 else 0);
    if i == n {
      assert t[..n] == s[..n];
    } else {
      assert t[..n] == s[..n][i := f];
      ValidCountUpdate(s[..n], i, f);
    }
  }

  /** Writing a slot twice leaves only the second write. */
  lemma OverwriteSlot(s: seq<Frame>, i: int, x: Frame, f: Frame)
    requires 0 <= i < |s|
    ensures s[i := x][i := f] == s[i := f]
  {
  }

  /** Two tables whose slots agree on `valid` have the same count. */
  lemma {:induction false} ValidCountSameFlags(s: seq<Frame>, t: seq<Frame>)
    requires |s| == |t|
    requires forall i :: 0 <= i < |s| ==> s[i].valid == t[i].valid
    ensures ValidCount(s) == ValidCount(t)
  {
    if |s| > 0 {
      ValidCountSameFlags(s[..|s| - 1], t[..|t| - 1]);
    }
  }

  /** At most one valid slot holds any given page. */
  ghost predicate UniqueResidency(s: seq<Frame>) {
    forall i, j :: 0 <= i < |s| && 0 <= j < |s| && s[i].valid && s[j].valid && s[i].pfn == s[j].pfn ==> i == j
  }

  /** A sound table: no page is resident twice, and no resident page was
      last accessed before it was loaded. */
  ghost predicate WellFormed(s: seq<Frame>) {
    UniqueResidency(s) &&
    forall i :: 0 <= i < |s| && s[i].valid ==> 0 <= s[i].entryTime <= s[i].lastAccessTime
  }

  /** Every resident page was last accessed before time t. */
  ghost predicate StampedBefore(s: seq<Frame>, t: int) {
    forall i :: 0 <= i < |s| && s[i].valid ==> s[i].lastAccessTime < t
  }

  /** t is s with some slots freed and some use bits changed, and nothing
      else changed. */
  ghost predicate Thinned(s: seq<Frame>, t: seq<Frame>) {
    |s| == |t| &&
    forall i :: 0 <= i < |s| ==>
      t[i] == s[i].(valid := t[i].valid, use := t[i].use) && (t[i].valid ==> s[i].valid)
  }

  /** Freeing slots keeps a table sound, keeps its stamps in the past, and
      makes no page resident. */
  lemma ThinnedKeeps(s: seq<Frame>, t: seq<Frame>, time: int, p: int)
    requires Thinned(s, t)
    ensures WellFormed(s) ==> WellFormed(t)
    ensures StampedBefore(s, time) ==> StampedBefore(t, time)
    ensures Absent(s, p) ==> Absent(t, p)
  {
  }

  /** Loading a page that is not resident into a free slot at time t keeps
      the table sound, puts every stamp before t + 1, and adds one valid
      slot. */
  lemma LoadKeeps(s: seq<Frame>, i: int, f: Frame, t: int)
    requires 0 <= i < |s| && !s[i].valid && f.valid
    requires WellFormed(s) && StampedBefore(s, t) && Absent(s, f.pfn)
    requires 0 <= f.entryTime <= f.lastAccessTime <= t
    ensures WellFormed(s[i := f]) && StampedBefore(s[i := f], t + 1)
    ensures ValidCount(s[i := f]) == ValidCount(s) + 1
  {
    ValidCountUpdate(s, i, f);
  }

  /** Touching a resident page at time t (its dirty and use flags may change,
      its last access becomes t) keeps the table sound, puts every stamp
      before t + 1, and leaves every slot's validity alone. */
  lemma TouchKeeps(s: seq<Frame>, i: int, f: Frame, t: int)
    requires 0 <= i < |s| && s[i].valid
    requires WellFormed(s) && StampedBefore(s, t)
    requires f == s[i].(dirty := f.dirty, lastAccessTime := t, use := f.use)
    ensures WellFormed(s[i := f]) && StampedBefore(s[i := f], t + 1)
    ensures ValidCount(s[i := f]) == ValidCount(s)
  {
    ValidCountUpdate(s, i, f);
  }

  /** Number of evictions whose victim was dirty (those that count as writes). */
  function WriteCount(ev: seq<Eviction>): (r: nat)
    ensures r <= |ev|
    ensures r == 0 <==> forall i :: 0 <= i < |ev| ==> !ev[i].evictedDirty
  {
    if |ev| == 0 then 0
    else WriteCount(ev[..|ev| - 1]) + (if ev[|ev| - 1].evictedDirty then 1 else 0)
  }

  /** Appending an eviction adds one write exactly when its victim was dirty. */
  lemma WriteCountAppend(ev: seq<Eviction>, e: Eviction)
    ensures WriteCount(ev + [e]) == WriteCount(ev) + (if e.evictedDirty then 1 else 0)
  {
  }
}
