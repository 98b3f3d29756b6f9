# Page-replacement simulator (frames.c) in Dafny

`frames.c` replays a memory-access trace against a fixed number of page
frames and counts accesses, misses, write-backs of dirty victims and drops of
clean ones. When the table is full it evicts a page chosen by one of five
policies: OPT (Belady's lookahead), FIFO, CLOCK (second chance), LRU or
RANDOM. This project models the simulation engine and proves what each step
does to the frame table and the counters.

The model has three files:

- `frame_table.dfy` (module `FrameTable`) holds the records and the frame
  table viewed as a sequence.
  - Records: a trace entry, a page-table entry `Frame`, an `Eviction` event and
    the `Strategy` tag.
  - Pure scans `FreeIndex` and `PfnIndex`, which specify `get_free_idx` and
    `get_pfn_idx`.
  - The count of valid slots and the soundness predicate `WellFormed`: no page
    is resident twice, and load time is never after last access.
  - Lemmas showing that loading, touching and freeing a slot keep the table
    sound.
- `policies.dfy` (module `Policies`) gives a reference definition of each
  policy's victim on a full table:
  - `IsOptVictim` uses `NextUse`, the specification of `get_next_usage`.
  - `IsEarliest` covers FIFO and LRU.
  - `ClockVictim` and `ClockSweep` cover CLOCK, stated with the distance the
    hand travels.
  - `IsVictim` dispatches on the strategy.
- `simulator.dfy` (module `Simulator`) has the class `Sim`. Its fields are the
  source's globals: the `frames` array, `time`, `clockHand`, the four counters,
  the read-only trace, the strategy and the verbose flag. Two ghost sequences
  sit beside them:
  - `evictions` logs every eviction.
  - `reported` is what `print_verbose` would have printed.

  Every function of the engine is a method of `Sim` with loops and invariants,
  proved against the pure definitions.

The class invariant `Valid()` says:

- the table is sound and the hand is on a frame;
- every resident page was last touched before the current time;
- every eviction was counted exactly once, as a write when the victim was
  dirty and as a drop otherwise;
- the verbose report lists every eviction when verbose is on and nothing
  otherwise;
- `numMisses == |evictions| + ValidCount(frames)`: every miss either filled a
  slot that is still valid or evicted a page.

Because every stamp lies before the current time, FIFO and LRU always find a
victim on a full table. Because eviction is only invoked on a full table, OPT
and CLOCK never look at an invalid slot.

How some of the source is represented:

- Frames are values: a field store `pages[i].f = v` becomes
  `frames[i] := frames[i].(f := v)`. On a hit, the model builds the updated
  frame in a local copy and stores it once.
- The access tag is a `char`, and a write is `rw == 'W'`, as in the source.
- `evict_page` is split into two methods, which `EvictPage` runs in sequence:
  - `SelectVictim`: the strategy dispatch;
  - `RetireVictim`: the counting, the report and the invalidation.

## Model

| member | source | states |
|---|---|---|
| FrameTable.FreeIndexSpec | frames.c:202-208 | The first-free-slot scan returns -1 exactly when every slot is valid. Otherwise the slot it returns is free and every lower slot is valid. |
| FrameTable.PfnIndexSpec | frames.c:210-216 | The lookup returns -1 exactly when no valid slot holds the page. Otherwise its slot is valid, holds the page, and no lower slot is a valid copy of it. |
| FrameTable.ValidCountBounds | frames.c:202-208 | The number of valid slots equals the table size exactly when the table is full, and is 0 exactly when every slot is free. |
| FrameTable.ValidCountUpdate | frames.c:94-99 | Overwriting one slot changes the valid count by the change in that slot's valid flag. |
| FrameTable.ThinnedKeeps | frames.c:126-127 | Freeing slots and clearing use bits keeps the table sound and keeps every stamp in the past. A page that was absent stays absent. |
| FrameTable.LoadKeeps | frames.c:94-99 | Loading a non-resident page into a free slot at time t keeps the table sound, puts every stamp before t+1, and adds exactly one valid slot. |
| FrameTable.TouchKeeps | frames.c:78-84 | Refreshing a resident page at time t (dirty and use may change, last access becomes t) keeps the table sound, puts every stamp before t+1, and leaves the valid count unchanged. |
| FrameTable.WriteCount | frames.c:118-122 | The number of write-backs is at most the number of evictions, and is zero exactly when no victim was dirty. |
| FrameTable.WriteCountAppend | frames.c:118-122 | One more eviction adds one write-back exactly when its victim was dirty. |
| Policies.NextUseSpec | frames.c:153-160 | The next use of a page from position i is -1 exactly when the page does not occur from i on. Otherwise it is the earliest such position. |
| Policies.HandStep | frames.c:176 | Advancing the hand with `% n` is one step of the hand's walk round the table. |
| Policies.ClockStepsSpec | frames.c:174-177 | Every slot the CLOCK hand passes over had its use bit set. |
| Policies.ClockStepsAt | frames.c:174-177 | The hand stops after exactly k steps when the k slots it passed had their use bits set and the slot reached has its bit clear, or when it has gone all the way round. |
| Policies.SweepStep | frames.c:175-176 | One step of the sweep clears exactly the use bit under the hand. |
| Policies.ClockVictimSpec | frames.c:173-181 | CLOCK's victim is in range. If some use bit is clear, the victim is the nearest such slot going round from the hand. If every bit is set, the victim is the slot under the hand. After the sweep the victim's bit is clear. |
| Policies.ClockClearsOnlyReferenced | frames.c:174-177 | The sweep clears only bits that were set. |
| Policies.VictimIsUnique | frames.c:102-117 | OPT, FIFO, LRU and CLOCK each admit at most one victim (SelectVictim shows one exists on a full table whose stamps all lie in the past). |
| Simulator.RefillEvict | frames.c:87-100 | Loading the page into the slot the policy freed gives exactly the refilled table and hand. |
| Simulator.RefilledKeeps | frames.c:87-100 | Loading a page keeps the table sound and the hand on a frame, and puts every stamp before t+1. It adds one valid slot when a free slot existed and keeps the count when it evicted. |
| Simulator.Sim.constructor | frames.c:223-238 | A fresh simulation has every frame free, and time, hand, counters and logs at zero. It satisfies the class invariant. |
| Simulator.Sim.IncMemAccesses | frames.c:218 | The access counter goes up by one and nothing else changes. |
| Simulator.Sim.IncMisses | frames.c:219 | The miss counter goes up by one and nothing else changes. |
| Simulator.Sim.IncWrites | frames.c:220 | The write counter goes up by one and nothing else changes. |
| Simulator.Sim.IncDrops | frames.c:221 | The drop counter goes up by one and nothing else changes. |
| Simulator.Sim.GetFreeIdx | frames.c:202-208 | Returns the lowest free slot, or -1 when the table is full, as FreeIndex defines. |
| Simulator.Sim.GetPfnIdx | frames.c:210-216 | Returns the lowest valid slot holding the page, or -1 on a miss, as PfnIndex defines. |
| Simulator.Sim.GetNextUsage | frames.c:153-160 | Returns the first trace position after the current time that touches the page, or -1 when there is none. |
| Simulator.Sim.OptEvict | frames.c:138-151 | On a non-empty table, returns the first slot whose page is never needed again. Failing that, it returns the first slot whose page is needed furthest ahead. |
| Simulator.Sim.FifoEvict | frames.c:162-171 | Returns -1 exactly when no valid slot was loaded before now. Otherwise it returns the valid slot with the earliest load time, the lowest such slot on a tie. |
| Simulator.Sim.ClockEvict | frames.c:173-181 | Returns CLOCK's victim. The table becomes exactly the swept table, where only the passed-over use bits are cleared, and the hand ends one past the victim, modulo the table size. |
| Simulator.Sim.LruEvict | frames.c:183-192 | Returns -1 exactly when no valid slot was touched before now. Otherwise it returns the valid slot with the earliest last access, the lowest such slot on a tie. |
| Simulator.Sim.RandomEvict | frames.c:194-200 | Returns a valid slot. |
| Simulator.Sim.SelectVictim | frames.c:102-117 | On a full table with every stamp in the past, the configured policy returns an in-range slot. That slot is the policy's victim, the table is swept as the policy says, and the hand moves only under CLOCK. |
| Simulator.Sim.RetireVictim | frames.c:118-127 | Counts one write-back when the victim was dirty and otherwise one drop. Logs the eviction as (incoming page, victim's page, victim's dirty flag), read before invalidation, and reports it when verbose. Frees the victim's slot and changes nothing else. |
| Simulator.Sim.EvictPage | frames.c:102-128 | On a full table, frees the policy's victim and keeps the table sound. The result is the swept table with only the victim freed, and exactly one valid slot is lost. Counts, logs and reports the eviction. |
| Simulator.Sim.AddPage | frames.c:87-100 | Loads the page with its dirty flag and the current time into the first free slot. When there is none, it uses the policy's victim, and evicts through EvictPage only in that case. |
| Simulator.Sim.ProcessMemoryAccess | frames.c:73-85 | After one access the page is resident in exactly one valid slot, and the valid count never decreases. On a hit, only that frame changes (dirty set on a write, last access now, use set) and no counter moves. On a miss, the miss count goes up by one and the page is loaded as AddPage says. |
| Simulator.Sim.Run | frames.c:61-65 | After the whole trace, the access count is the trace length and the class invariant holds. Write-backs plus drops equal the evictions, which equal the misses minus the occupied frames. So misses minus the frame count ≤ writes + drops ≤ misses ≤ accesses. |

## Left out

- Reading and tokenising the trace file (`read_file`, `get_tokens`, frames.c:240-273) is not modelled. The trace is a given sequence of (page, tag) entries, with the page already shifted right by 12.
- Command-line setup (`setup`, frames.c:223-238) is reduced to the constructor's parameters. This covers the argument count, `atoi` and `malloc`. `get_strategy`'s string matching and its exit on an unknown name (frames.c:275-290) are replaced by the `Strategy` datatype, so the `Invalid Strategy` branch of `evict_page` cannot be reached.
- Simulator.Sim.constructor: requires at least one frame. `setup` never checks the frame count. With 0 frames the first miss goes wrong: OPT, FIFO and LRU return -1 and `evict_page` reads `pages[-1]`; CLOCK reads `pages[0]` of an empty table; RANDOM computes `rand() % 0`.
- Simulator.Sim.constructor: `setup` initialises only the `valid` flags, and the model sets the other fields to zero. GetPfnIdx reads `pfn` of free slots, as frames.c:212 does, but its result never depends on them because the test is ANDed with `valid`. Free slots left by an eviction still hold the evicted page's `pfn`, which is likewise never used. OPT and CLOCK read other fields only on a full table.
- The `printf` output of `main` and `print_verbose` (frames.c:67-70, 130-136) is not modelled. A verbose report is the ghost sequence `reported` of (incoming page, evicted page, evicted dirty) events, and the final counts are the fields themselves.
- Simulator.Sim.RandomEvict: returns any valid slot rather than the slot the C library's `rand()` seeded with `srand(5635)` would produce, because the generator's values are not available. Eviction runs only on a full table, so the first draw is always valid and the resampling loop never repeats.
- C `int` overflow of the counters, of `time` and of trace positions is not modelled; they are unbounded naturals.
- The `idx` argument of `process_memory_access` is kept and, as in the source, unused.
- OPT's optimality (it never misses more often than the other policies) is a statement about whole runs. It is not proved; `IsOptVictim` states only which slot OPT picks.
