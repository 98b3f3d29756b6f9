/** Reference definitions of the victim each replacement policy picks from a
    full frame table, stated on sequences so that the simulator's loops can
    be proved against them. */
module Policies {
  import opened FrameTable

  /** Index of the first trace entry at or after position i that touches
      page p, or -1 when p does not occur from i on. */
  function NextUse(trace: seq<TraceEntry>, i: nat, p: int): (r: int)
    decreases |trace| - i
    ensures r == -1 || (i <= r < |trace| && trace[r].pfn == p)
  {
    if i >= |trace| then -1
    else if trace[i].pfn == p then i
    else NextUse(trace, i + 1, p)
  }

  /** NextUse is -1 exactly when p does not occur from i on, and otherwise
      no earlier position from i on touches p. */
  lemma {:induction false} NextUseSpec(trace: seq<TraceEntry>, i: nat, p: int)
    decreases |trace| - i
    ensures NextUse(trace, i, p) == -1 <==> forall j :: i <= j < |trace| ==> trace[j].pfn != p
    ensures NextUse(trace, i, p) != -1 ==> forall j :: i <= j < NextUse(trace, i, p) ==> trace[j].pfn != p
  {
    if i < |trace| && trace[i].pfn != p {
      NextUseSpec(trace, i + 1, p);
    }
  }

  /** When slot i's page is next needed after time t (-1: never again). */
  function NextNeed(trace: seq<TraceEntry>, t: nat, s: seq<Frame>, i: int): (r: int)
    requires 0 <= i < |s|
  {
    NextUse(trace, t + 1, s[i].pfn)
  }

  /** Belady's choice: the first slot whose page is never needed again;
      failing that, the first slot whose page is needed furthest ahead. */
  ghost predicate IsOptVictim(s: seq<Frame>, trace: seq<TraceEntry>, t: nat, v: int) {
    0 <= v < |s| &&
    if exists i :: 0 <= i < |s| && NextNeed(trace, t, s, i) == -1 then
      NextNeed(trace, t, s, v) == -1 &&
      forall i :: 0 <= i < v ==> NextNeed(trace, t, s, i) != -1
    else
      (forall i :: 0 <= i < |s| ==> NextNeed(trace, t, s, i) <= NextNeed(trace, t, s, v)) &&
      (forall i :: 0 <= i < v ==> NextNeed(trace, t, s, i) < NextNeed(trace, t, s, v))
  }

  /** The timestamp a policy orders frames by: FIFO uses the load time, LRU
      the time of the latest access. */
  datatype Stamp = Entry | LastAccess

  function StampOf(f: Frame, k: Stamp): (r: int) {
    match k
    case Entry => f.entryTime
    case LastAccess => f.lastAccessTime
  }

  /** Slot v is valid, stamped before t, has the least stamp of all valid
      slots, and every valid slot before it has a strictly later stamp. */
  ghost predicate IsEarliest(s: seq<Frame>, t: int, k: Stamp, v: int) {
    0 <= v < |s| && s[v].valid && StampOf(s[v], k) < t &&
    (forall j :: 0 <= j < |s| && s[j].valid ==> StampOf(s[v], k) <= StampOf(s[j], k)) &&
    (forall j :: 0 <= j < v && s[j].valid ==> StampOf(s[v], k) < StampOf(s[j], k))
  }

  /** The slot reached from h after k steps round a table of n slots. */
  function Advance(h: int, k: int, n: int): (r: int)
    requires 0 <= h < n && 0 <= k <= n
    ensures 0 <= r < n
  {
    if h + k < n then h + k else h + k - n
  }

  /** How many steps the hand takes from h to reach slot j. */
  function Distance(h: int, j: int, n: int): (r: int)
    requires 0 <= h < n && 0 <= j < n
    ensures 0 <= r < n
  {
    if h <= j then j - h else j - h + n
  }

  /** A step of the hand, written with `%` as the source writes it, is one
      step of Advance. */
  lemma HandStep(h: int, k: int, n: int)
    requires 0 <= h < n && 0 <= k < n
    ensures (Advance(h, k, n) + 1) % n == Advance(h, k + 1, n)
  {
  }

  /** Number of slots the CLOCK hand passes over when it starts at h, having
      already passed k slots: it stops at the first slot whose use bit is
      clear; after a whole turn every bit is clear, so it stops back at h. */
  function ClockSteps(s: seq<Frame>, h: int, k: int): (r: int)
    requires 0 <= h < |s| && 0 <= k <= |s|
    decreases |s| - k
    ensures k <= r <= |s|
    ensures r < |s| ==> !s[Advance(h, r, |s|)].use
  {
    if k == |s| then |s|
    else if !s[Advance(h, k, |s|)].use then k
    else ClockSteps(s, h, k + 1)
  }

  /** Every slot the hand passes over on its way has its use bit set. */
  lemma {:induction false} ClockStepsSpec(s: seq<Frame>, h: int, k: int)
    requires 0 <= h < |s| && 0 <= k <= |s|
    decreases |s| - k
    ensures forall m :: k <= m < ClockSteps(s, h, k) ==> s[Advance(h, m, |s|)].use
  {
    if k < |s| && s[Advance(h, k, |s|)].use {
      ClockStepsSpec(s, h, k + 1);
    }
  }

  /** The slot CLOCK evicts when its hand is at h. */
  function ClockVictim(s: seq<Frame>, h: int): (r: int)
    requires 0 <= h < |s|
  {
    Advance(h, ClockSteps(s, h, 0), |s|)
  }

  /** The table after the CLOCK hand, starting at h, has cleared the use
      bits of the first k slots it passed over. */
  function PartialSweep(s: seq<Frame>, h: int, k: int): (r: seq<Frame>)
    requires 0 <= h < |s| && 0 <= k <= |s|
    ensures |r| == |s|
  {
    seq(|s|, j requires 0 <= j < |s| =>
      if Distance(h, j, |s|) < k then s[j].(use := false) else s[j])
  }

  /** One more step of the hand clears one more use bit: the one under it. */
  lemma SweepStep(s: seq<Frame>, h: int, k: int)
    requires 0 <= h < |s| && 0 <= k < |s|
    ensures var a := Advance(h, k, |s|);
      PartialSweep(s, h, k + 1) == PartialSweep(s, h, k)[a := s[a].(use := false)]
  {
  }

  /** The hand stops after exactly k steps when the k slots it passed over
      had their use bits set and the slot it reached has its bit clear (or
      it has gone all the way round). */
  lemma {:induction false} ClockStepsAt(s: seq<Frame>, h: int, j: int, k: int)
    requires 0 <= h < |s| && 0 <= j <= k <= |s|
    requires forall m :: j <= m < k ==> s[Advance(h, m, |s|)].use
    requires k < |s| ==> !s[Advance(h, k, |s|)].use
    decreases k - j
    ensures ClockSteps(s, h, j) == k
  {
    if j < k {
      ClockStepsAt(s, h, j + 1, k);
    }
  }

  /** The table after the CLOCK hand, starting at h, has cleared the use bit
      of every slot it passed over. */
  function ClockSweep(s: seq<Frame>, h: int): (r: seq<Frame>)
    requires 0 <= h < |s|
    ensures |r| == |s|
    ensures forall j :: 0 <= j < |s| ==> r[j] == s[j].(use := r[j].use) && (r[j].use ==> s[j].use)
  {
    PartialSweep(s, h, ClockSteps(s, h, 0))
  }

  /** CLOCK's victim: when some slot has its use bit clear, the victim is the
      first such slot at or after the hand (going round) and nothing before
      it on the way had a clear bit; when every bit is set, the victim is the
      slot under the hand. After the sweep, the victim's bit is clear and the
      sweep changed nothing but use bits, clearing them only. */
  lemma ClockVictimSpec(s: seq<Frame>, h: int)
    requires 0 <= h < |s|
    ensures var v := ClockVictim(s, h); var n := |s|;
      0 <= v < n &&
      ((exists j :: 0 <= j < n && !s[j].use) ==>
         !s[v].use && forall j :: 0 <= j < n && !s[j].use ==> Distance(h, v, n) <= Distance(h, j, n)) &&
      ((forall j :: 0 <= j < n ==> s[j].use) ==> v == h)
    ensures !ClockSweep(s, h)[ClockVictim(s, h)].use
  {
    var n := |s|;
    var r := ClockSteps(s, h, 0);
    var v := ClockVictim(s, h);
    ClockStepsSpec(s, h, 0);
    if exists j :: 0 <= j < n && !s[j].use {
      var j :| 0 <= j < n && !s[j].use;
      assert Advance(h, Distance(h, j, n), n) == j;
      assert r < n;
      forall j' | 0 <= j' < n && !s[j'].use
        ensures Distance(h, v, n) <= Distance(h, j', n)
      {
        assert Advance(h, Distance(h, j', n), n) == j';
      }
    }
    if r < n {
      assert Distance(h, v, n) == r;
    }
  }

  /** Every slot the CLOCK hand cleared had its use bit set beforehand. */
  lemma ClockClearsOnlyReferenced(s: seq<Frame>, h: int, j: int)
    requires 0 <= h < |s| && 0 <= j < |s|
    requires Distance(h, j, |s|) < ClockSteps(s, h, 0)
    ensures s[j].use
  {
    ClockStepsSpec(s, h, 0);
    assert Advance(h, Distance(h, j, |s|), |s|) == j;
  }

  /** The victim a policy picks from table s at time t, CLOCK's hand being
      at h. RANDOM may pick any valid slot. */
  ghost predicate IsVictim(st: Strategy, s: seq<Frame>, trace: seq<TraceEntry>, t: nat, h: int, v: int) {
    match st
    case Opt => IsOptVictim(s, trace, t, v)
    case Fifo => IsEarliest(s, t, Entry, v)
    case Lru => IsEarliest(s, t, LastAccess, v)
    case Clock => 0 <= h < |s| && v == ClockVictim(s, h)
    case Random => 0 <= v < |s| && s[v].valid
  }

  /** The table as the policy leaves it before the victim is invalidated:
      only CLOCK changes anything (use bits). */
  function Swept(st: Strategy, s: seq<Frame>, h: int): (r: seq<Frame>)
    requires 0 <= h < |s|
    ensures |r| == |s|
    ensures forall j :: 0 <= j < |s| ==> r[j] == s[j].(use := r[j].use) && (r[j].use ==> s[j].use)
  {
    if st == Clock then ClockSweep(s, h) else s
  }

  /** Every policy but RANDOM admits at most one victim. */
  lemma VictimIsUnique(st: Strategy, s: seq<Frame>, trace: seq<TraceEntry>, t: nat, h: int, v: int, w: int)
    requires st != Random
    requires IsVictim(st, s, trace, t, h, v) && IsVictim(st, s, trace, t, h, w)
    ensures v == w
  {
  }
}
