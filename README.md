# coop elevator: a verified model

The "coop" elevator is a single-queue Linux block I/O scheduler. It keeps
pending requests in two intrusive lists:

- an ordinary FIFO;
- a small "priority lane", which admits a request only when the submitting
  thread's vruntime beats the threshold `lowest_vrt`. The newest lane request
  is served first.

`coop_dispatch` picks which list to serve using post-incremented phase counters
(`fifo_expire`, `vrt_expire`). When the lane passes its soft capacity of 10,
a forced-drain override (`force_vrt`, `force_expire`) takes over.

The project has four modules:

- `CoopState`: `struct coop_data` as a value (`CoopData`), the queued entries,
  and the invariants every reachable state keeps:
  - the lane is sorted;
  - the threshold is at or below every lane resident;
  - the phase counters are bounded;
  - `vrt_count >= |lane|`.
  
  It also defines `Counted`, the bookkeeping equality `vrt_count == |lane|`.
- `CoopOps`: every callback as a function from one state to the next:
  - `coop_init_queue`'s field setup;
  - `coop_add_request`;
  - `coop_dispatch`, with one function per label;
  - `coop_merged_requests`;
  - `coop_former_request` / `coop_latter_request`, both as written and corrected.
- `CoopQueue`: the class `Elevator`, whose fields are those of `struct
  coop_data`. Its methods update them in place, the way the C code does.
  - Dispatch follows the goto structure: the tests pick a label, then one block
    method per label runs.
  - Each method is proved to produce exactly the state its `CoopOps` function
    describes.
  - Requests handed to `elv_dispatch_sort` are appended to the ghost sequence
    `dispatched`.
- `CoopLaws`: laws about sequences of calls:
  - the 4 FIFO + 4 lane alternation;
  - the 4-dispatch forced drain;
  - newest-first stacking of lane admissions;
  - dispatching as many times as there are pending requests empties both lists
    and releases exactly what was pending;
  - for arbitrary interleavings of admission, dispatch and merge-away:
    nothing is lost or duplicated, and `vrt_count` drifts by exactly the number
    of lane merges;
  - FIFO order holds over such interleavings as long as no merge takes a
    request out of the FIFO.

A request is named by its position in the list that holds it (`Handle(list,
index)`). This plays the part of the kernel's `struct request *`, whose list
links locate it.

In a few places the code does something other than what one would expect from
its names and structure; the model follows the code:

- **Thresholds.** The lane counter and the force counter are compared against
  `fifo_expire_number`, not `vrt_expire_number`. The latter is declared and
  never read. Both are 3, so reading the wrong constant changes nothing.
- **Forced drain with an empty FIFO.** One would expect a lane overflow with an
  empty FIFO to lead to four forced dispatches that then clear `force_vrt`.
  In the code, an empty FIFO sends dispatch to `vruntime_request` before the
  `force_vrt` test. So the ordinary lane path is taken and `force_vrt` stays
  set (`OverflowWithEmptyFifo`). The four-dispatch forced drain happens only
  with the FIFO non-empty (`OverflowForcesDrain`).
- **Uninitialised `force_expire`.** `coop_init_queue` never writes
  `force_expire`, so the constructor and `InitData` take its initial value as a
  parameter. The forced-drain laws assume `force_expire == 0` explicitly.
- **The `fifo_time` stamp** is `jiffies` plus the current value of
  `fifo_expire`. The counter is added, not a duration, and the stamp is written
  on both branches.

## Model

| member | source | states |
|---|---|---|
| CoopOps.InitData | coop.c:171-178 | both lists are empty, `lowest_vrt` is U64_MAX, the counters and `force_vrt` are zero, `force_expire` is whatever it was; the result is valid and counted |
| CoopOps.AddRequest | coop.c:108-131 | a vruntime below the threshold pushes the entry at the lane's front, sets the threshold to it, adds 1 to `vrt_count` and raises `force_vrt` exactly when the count passes 10; any other vruntime appends to the FIFO tail and changes nothing else; either way the pending multiset grows by exactly the new entry; validity and `vrt_count` equal to the lane length are preserved |
| CoopOps.PopFifo | coop.c:94-102 | releases the FIFO head, leaves the rest of the FIFO and every other field as they were, and the pending multiset loses exactly that entry |
| CoopOps.PopLane | coop.c:76-92 | releases the lane head; `vrt_count` drops by 1; `lowest_vrt` is reset exactly when the lane empties; the lane counter trips after its fourth use and then also resets the FIFO counter; sortedness and the threshold bound are kept |
| CoopOps.PopLaneForced | coop.c:62-74 | releases the lane head; only `force_expire` advances, and its fourth use clears both it and `force_vrt`; `lowest_vrt` and the phase counters are untouched, even when the lane empties |
| CoopOps.Dispatch | coop.c:30-103 | nothing changes and nothing is released exactly when both lists are empty; otherwise exactly one request leaves, from the head of the list chosen by the FIFO/lane/forced tests (each path stated as an if-and-only-if); the per-path counter updates; `lowest_vrt` changes only to U64_MAX with the lane empty; validity and `vrt_count` equal to the lane length are preserved |
| CoopOps.RemoveKeepsLane | coop.c:27 | unlinking any lane entry keeps the lane sorted and above the threshold |
| CoopOps.MergedRequests | coop.c:25-28 | an unlinked handle changes nothing; otherwise exactly the absorbed entry leaves its own list, and the other list, the counters, `vrt_count` and the threshold are unchanged; validity is preserved; merging a lane resident out of a counted state leaves `vrt_count` one above the lane length |
| CoopOps.FormerAsWritten | coop.c:133-141 | NULL exactly for the FIFO front, the container of the lane's list head exactly for the lane front, the previous entry otherwise |
| CoopOps.LatterAsWritten | coop.c:143-151 | NULL exactly for the FIFO back, the container of the lane's list head exactly for the lane back, the next entry otherwise |
| CoopOps.FormerRequest | coop.c:133-141 | none exactly at the front of either list, otherwise the previous entry of the same list |
| CoopOps.LatterRequest | coop.c:143-151 | none exactly at the back of either list, otherwise the next entry of the same list |
| CoopQueue.Elevator.constructor | coop.c:171-178 | the fields hold `InitData`, nothing has been dispatched, and the state is valid and counted |
| CoopQueue.Elevator.AddRequest | coop.c:108-131 | the fields are updated exactly as `CoopOps.AddRequest` says, nothing is dispatched, and both invariants are kept |
| CoopQueue.Elevator.Dispatch | coop.c:30-103 | returns 0 exactly when both lists are empty, 1 otherwise; the fields become `CoopOps.Dispatch`'s state; the released request, and only it, is appended to `dispatched`; both invariants are kept |
| CoopQueue.Elevator.ForceVrtRequestBlock | coop.c:62-74 | with the lane non-empty, performs `PopLaneForced`, appends the lane head to `dispatched` and returns 1 |
| CoopQueue.Elevator.VruntimeRequestBlock | coop.c:76-92 | with the lane non-empty, performs `PopLane`, appends the lane head to `dispatched` and returns 1 |
| CoopQueue.Elevator.FifoRequestBlock | coop.c:94-102 | with the FIFO non-empty, performs `PopFifo`, appends the FIFO head to `dispatched` and returns 1 |
| CoopQueue.Elevator.MergedRequests | coop.c:25-28 | the fields are updated exactly as `CoopOps.MergedRequests` says, and validity is kept |
| CoopQueue.Elevator.ExitQueue | coop.c:187-192 | requires the FIFO to be empty and nothing else; whatever the lane still holds is exactly what is left pending |
| CoopLaws.DispatchReleases | coop.c:67-99 | the pending multiset before a dispatch call is what remains plus what the call released |
| CoopLaws.DispatchFifoOrder | coop.c:96-98 | the FIFO before a dispatch call is what the FIFO path released followed by what remains |
| CoopLaws.DrainKeeps | coop.c:30-103 | over any number of back-to-back dispatches, the pending multiset before is what remains plus everything released, and validity and the counted equality are kept |
| CoopLaws.IterateEmpties | coop.c:35-36 | for any step function that, on a non-empty state, is never idle and takes one entry off the lists, as many steps as there are entries empty both lists and none is idle |
| CoopLaws.DrainAll | coop.c:30-103 | as many dispatch calls as there are pending requests empty both lists, none returns 0, and the released requests are exactly the pending multiset |
| CoopLaws.DispatchShrinks | coop.c:35-102 | a dispatch call on a non-empty state is not idle and takes exactly one entry off the two lists |
| CoopLaws.FifoStep | coop.c:55-60 | with both lists non-empty, no forced drain and the FIFO counter at most 3, dispatch serves the FIFO head and only advances the FIFO counter |
| CoopLaws.LaneStep | coop.c:55-80 | with `force_vrt` clear, the FIFO non-empty, at least two lane entries, the FIFO counter past 3 and the lane counter below 3, dispatch serves the lane head and advances both counters |
| CoopLaws.LaneResetStep | coop.c:76-87 | with the lane counter at 3, the lane dispatch resets both phase counters, and `lowest_vrt` too if the lane empties |
| CoopLaws.ForcedStep | coop.c:51-66 | with both lists non-empty and `force_vrt` set, dispatch serves the lane head whatever the phase counters say |
| CoopLaws.FifoRun | coop.c:55-60 | k dispatches before the FIFO counter passes 3 serve the first k FIFO entries in order |
| CoopLaws.LaneRun | coop.c:55-92 | with `force_vrt` clear, the FIFO non-empty, more than k lane entries, the FIFO counter past 3 and the lane counter plus k at most 3, k dispatches serve the first k lane entries in order |
| CoopLaws.LanePhase | coop.c:76-92 | four lane dispatches from lane counter 0 serve the four lane heads and leave both phase counters at 0 |
| CoopLaws.OneBlock | coop.c:55-102 | from both counters at zero with enough requests queued, eight dispatches take the paths FIFO x4 then lane x4, release the four FIFO heads then the four lane heads, and return both counters to zero |
| CoopLaws.Alternation | coop.c:55-102 | k such blocks in a row: the paths are k copies of the 4+4 block, the release order interleaves four FIFO heads and four lane heads per block, and both counters end at zero |
| CoopLaws.ForcedRun | coop.c:62-74 | in forced mode with the FIFO non-empty, k dispatches serve the first k lane entries and advance only `force_expire` |
| CoopLaws.ForcedDrain | coop.c:62-74 | from `force_expire == 0` with the FIFO non-empty, four dispatches serve the four lane heads, leave the FIFO, phase counters and `lowest_vrt` untouched, and clear `force_vrt` and `force_expire` |
| CoopLaws.EmptyFifoRun | coop.c:39-40 | with the FIFO empty, every dispatch takes the ordinary lane path, serves the lane in order, and leaves `force_vrt` and `force_expire` as they were |
| CoopLaws.LaneStack | coop.c:114-123 | a batch of ever-improving vruntimes is stacked onto the lane newest-first, the threshold ends at the last vruntime, `vrt_count` grows by the batch length, and `force_vrt` ends set exactly when the count passes 10 |
| CoopLaws.OverflowWithEmptyFifo | coop.c:39-41 | eleven improving admissions into an idle elevator raise `force_vrt`; the next four dispatches take the ordinary lane path, serve the four newest, and leave the flag set |
| CoopLaws.OverflowForcesDrain | coop.c:121-123 | the same overflow with a FIFO request waiting raises `force_vrt`, and the next four dispatches are the forced drain, serve the four newest, clear the flag, and leave the FIFO and phase counters untouched |
| CoopLaws.AdmitEffect | coop.c:108-131 | one admission adds exactly its entry to the pending multiset, extends the FIFO by it exactly when routed there, and keeps the excess of `vrt_count` over the lane length |
| CoopLaws.ReleaseEffect | coop.c:30-103 | one dispatch call moves exactly the released request out of the pending multiset, takes FIFO releases from the FIFO's front, and keeps the excess of `vrt_count` over the lane length |
| CoopLaws.MergeEffect | coop.c:25-28 | one merge moves exactly the absorbed request out of the pending multiset, keeps the FIFO order when it hits the lane, and raises the excess of `vrt_count` over the lane length by one exactly when it removes a lane resident |
| CoopLaws.Effect | coop.c:25-131 | any one callback keeps the multiset balance, the FIFO order (merges out of the FIFO excepted), the drift law and validity |
| CoopLaws.RunKeepsValid | coop.c:25-131 | every state reached from a valid state by any interleaving of admissions, dispatches and merges is valid |
| CoopLaws.Conservation | coop.c:25-131 | over any interleaving, what was pending plus everything admitted equals what is pending plus everything released plus everything merged away: no request is lost or duplicated |
| CoopLaws.FifoOrder | coop.c:96-128 | over any interleaving without merges out of the FIFO, the FIFO releases what it held and then what was routed to it, in admission order, with the unreleased rest still queued behind |
| CoopLaws.VrtCountDrift | coop.c:27-118 | over any interleaving, the excess of `vrt_count` over the lane length grows by exactly the number of merges that removed a lane resident, so admissions and dispatches alone keep `vrt_count` equal to the lane length |
| CoopLaws.FormerLatterInverse | coop.c:133-151 | away from a list's front, the corrected former and latter queries step to each other's argument |
| CoopLaws.AsWrittenAgreesOnFifo | coop.c:138-150 | on FIFO residents the queries as written give the intended answers |
| CoopLaws.FormerOfLaneFront | coop.c:138-140 | after one admission into an idle elevator, the queries as written return the lane head's container for the lane's only entry, where the intended answer is none |

## Left out

- Kernel and module plumbing is not modelled: elevator registration and module init/exit, `elevator_alloc`, `kmalloc_node`/`kfree`, `kobject_put` and the queue spinlock. These are foreign calls and locking, and the host serialises every callback.
- The `-ENOMEM` returns of `coop_init_queue` are not modelled. The model begins once both allocations have succeeded.
- `elv_dispatch_sort` is a foreign call. The class appends the request to the ghost sequence `dispatched` instead.
- `current->se.vruntime` and `jiffies` are kernel globals. They become the `vruntime` and `jiffies` parameters of admission.
- For the `force` argument of `coop_dispatch` and the surviving request of `coop_merged_requests`: neither is read by the code, so neither is a parameter.
- The C code keeps no vruntime in a request. Each `Request` records the admission vruntime only so that lane sortedness can be stated; no operation reads it after admission.
- Integer widths: `fifo_expire`, `vrt_expire`, `force_expire` and `vrt_count` are C `int`. The model uses unbounded integers.
  - The phase counters are proved bounded, so nothing is lost there.
  - `force_expire` starts from an arbitrary value, and `vrt_count` drifts upward with lane merges. Overflow of either after 2^31 steps is not modelled.
  - `fifo_time` is `unsigned long` in the kernel. Its wrap-around is not modelled either.
- The neighbour queries and merge-away on a request that is not linked into either list are left out. The host passes only queued requests. Merge-away on an out-of-range handle is a no-op, as `list_del_init` of a self-linked node is.
- The lane-boundary results of the as-written queries (`FormerAsWritten`, `LatterAsWritten`) are modelled only as "the container of the lane's list head" (`HeadOf(Vrt)`). What the kernel then does with that pointer is outside the model.

## Findings

| source | as written | input that shows it | evidently intended | confidence | as-written member | corrected member |
|---|---|---|---|---|---|---|
| coop.c:138-150 | the boundary test compares the neighbour link only with the FIFO's list head, so for the front (or back) entry of the lane, `list_prev_entry` / `list_next_entry` return the container of `vrt_queue` itself, which is not a request | `coop_init_queue`, then one `coop_add_request` with vruntime 100; `coop_former_request` on that request | NULL at the boundary of whichever list holds the request | high, by reading; not executed | CoopOps.FormerAsWritten, CoopOps.LatterAsWritten, CoopLaws.FormerOfLaneFront | CoopOps.FormerRequest, CoopOps.LatterRequest, CoopLaws.FormerLatterInverse |
