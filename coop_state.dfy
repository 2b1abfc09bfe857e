/** The state of the "coop" single-queue elevator (struct coop_data) as a value,
    the request entries it queues, and the invariants every reachable state keeps. */
module CoopState {

  /** Threshold of the FIFO phase counter; coop.c also uses it for the lane and
      forced-drain counters. */
  const FifoExpireNumber: int := 3
  /** Declared beside the other thresholds but never read by the dispatcher. */
  const VrtExpireNumber: int := 3
  /** Soft capacity of the priority lane: exceeding it raises the forced-drain flag. */
  const VrtQueueLen: int := 10

  const U64Max: int := 0xFFFF_FFFF_FFFF_FFFF
  type U64 = x: int | 0 <= x <= U64Max

  type RequestId = nat

  datatype Option<T> = None | Some(value: T)

  /** A queued request: the host's handle, the vruntime of the submitting thread at
      admission (kept here so that the lane's order can be stated) and the
      fifo_time stamp written at admission. */
  datatype Request = Request(id: RequestId, vruntime: U64, fifoTime: int)

  /** The two intrusive lists of struct coop_data. */
  datatype ListName = Fifo | Vrt

  /** A pointer to a queued request, given as the list it is linked into and its
      position there. */
  datatype Handle = Handle(list: ListName, index: nat)

  datatype CoopData = CoopData(
    queue: seq<Request>,      // plain FIFO: tail insert, head pop
    vrtQueue: seq<Request>,   // priority lane: head insert, head pop
    fifoExpire: int,
    vrtExpire: int,
    vrtCount: int,
    forceVrt: bool,
    forceExpire: int,
    lowestVrt: U64)

  function ListOf(d: CoopData, l: ListName): seq<Request>
  {
    match l
    case Fifo => d.queue
    case Vrt => d.vrtQueue
  }

  predicate ValidHandle(d: CoopData, h: Handle)
  {
    h.index < |ListOf(d, h.list)|
  }

  /** Lane entries have strictly increasing vruntime from front to back. */
  predicate LaneSorted(lane: seq<Request>)
  {
    forall i, j :: 0 <= i < j < |lane| ==> lane[i].vruntime < lane[j].vruntime
  }

  /** The admission threshold is at most the vruntime of every lane resident. */
  predicate LaneAbove(lane: seq<Request>, lowest: U64)
  {
    forall i :: 0 <= i < |lane| ==> lowest <= lane[i].vruntime
  }

  /** The phase counters stay small: the lane counter is within 0..3 and the FIFO
      counter never runs more than one lane phase past its threshold. */
  predicate CountersBounded(d: CoopData)
  {
    0 <= d.vrtExpire <= FifoExpireNumber &&
    0 <= d.fifoExpire <= FifoExpireNumber + 1 + d.vrtExpire
  }

  /** What every reachable state satisfies, merges included. */
  predicate Valid(d: CoopData)
  {
    LaneSorted(d.vrtQueue) &&
    LaneAbove(d.vrtQueue, d.lowestVrt) &&
    CountersBounded(d) &&
    d.vrtCount >= |d.vrtQueue|
  }

  /** The bookkeeping equality that admission and dispatch keep and that merging
      a lane resident away breaks. */
  predicate Counted(d: CoopData)
  {
    d.vrtCount == |d.vrtQueue|
  }

  function Pending(d: CoopData): multiset<Request>
  {
    multiset(d.queue) + multiset(d.vrtQueue)
  }
}
