/** The operations of the coop elevator as functions from one CoopData value to
    the next: initialisation, admission, the dispatch decision, merge-away and the
    neighbour queries. The class in CoopQueue is proved to follow them. */
module CoopOps {
  import opened CoopState

  /** The state coop_init_queue leaves behind. The C code never writes
      force_expire, so its initial value is whatever the allocator returned and is
      taken here as a parameter. */
  function InitData(forceExpire: int): (d: CoopData)
    ensures Valid(d) && Counted(d)
    ensures d.queue == [] && d.vrtQueue == [] && Pending(d) == multiset{}
    ensures d.lowestVrt == U64Max && !d.forceVrt && d.forceExpire == forceExpire
    ensures d.fifoExpire == 0 && d.vrtExpire == 0
  {
    CoopData([], [], 0, 0, 0, false, forceExpire, U64Max)
  }

  /** The entry admission queues: fifo_time is jiffies plus the current FIFO phase
      counter, whichever queue the request is routed to. */
  function Stamp(d: CoopData, id: RequestId, vruntime: U64, jiffies: nat): Request
  {
    Request(id, vruntime, jiffies + d.fifoExpire)
  }

  /** coop_add_request: a request whose vruntime is below the threshold enters the
      front of the lane and lowers the threshold; any other request joins the tail
      of the FIFO and nothing else changes. */
  function AddRequest(d: CoopData, id: RequestId, vruntime: U64, jiffies: nat): (d': CoopData)
    ensures Pending(d') == Pending(d) + multiset{Stamp(d, id, vruntime, jiffies)}
    ensures vruntime < d.lowestVrt ==>
      d'.vrtQueue == [Stamp(d, id, vruntime, jiffies)] + d.vrtQueue &&
      d'.queue == d.queue && d'.lowestVrt == vruntime &&
      d'.vrtCount == d.vrtCount + 1 &&
      d'.forceVrt == (d.forceVrt || d.vrtCount + 1 > VrtQueueLen) &&
      d'.fifoExpire == d.fifoExpire && d'.vrtExpire == d.vrtExpire &&
      d'.forceExpire == d.forceExpire
    ensures vruntime >= d.lowestVrt ==>
      d' == d.(queue := d.queue + [Stamp(d, id, vruntime, jiffies)])
    ensures Valid(d) ==> Valid(d')
    ensures Counted(d) ==> Counted(d')
  {
    var rq := Stamp(d, id, vruntime, jiffies);
    if vruntime < d.lowestVrt then
      var count := d.vrtCount + 1;
      d.(vrtQueue := [rq] + d.vrtQueue,
         vrtCount := count,
         lowestVrt := vruntime,
         forceVrt := if count > VrtQueueLen then true else d.forceVrt)
    else
      d.(queue := d.queue + [rq])
  }

  /** Which label of coop_dispatch released the request (Idle: nothing pending). */
  datatype Path = Idle | FifoRequest | VruntimeRequest | ForceVrtRequest

  /** One dispatch call: the new state, the path taken and the request handed to
      the dispatch sink (the call returns 1 exactly when there is one). */
  datatype Step = Step(data: CoopData, path: Path, rq: Option<Request>)

  /** Popping the lane's head keeps it sorted and above the threshold. */
  lemma TailKeepsLane(lane: seq<Request>, lowest: U64)
    requires lane != []
    ensures LaneSorted(lane) ==> LaneSorted(lane[1..])
    ensures LaneAbove(lane, lowest) ==> LaneAbove(lane[1..], lowest)
  {
  }

  function PopFifo(d: CoopData): (s: Step)
    requires d.queue != []
    ensures s.path == FifoRequest && s.rq == Some(d.queue[0])
    ensures s.data.queue == d.queue[1..] && s.data.(queue := d.queue) == d
    ensures Pending(s.data) + multiset{d.queue[0]} == Pending(d)
  {
    assert d.queue == [d.queue[0]] + d.queue[1..];
    Step(d.(queue := d.queue[1..]), FifoRequest, Some(d.queue[0]))
  }

  function PopLane(d: CoopData): (s: Step)
    requires d.vrtQueue != []
    ensures s.path == VruntimeRequest && s.rq == Some(d.vrtQueue[0])
    ensures s.data.queue == d.queue && s.data.vrtQueue == d.vrtQueue[1..]
    ensures s.data.vrtCount == d.vrtCount - 1
    ensures s.data.lowestVrt == if d.vrtQueue[1..] == [] then U64Max else d.lowestVrt
    ensures s.data.vrtExpire == (if d.vrtExpire >= FifoExpireNumber then 0 else d.vrtExpire + 1)
    ensures s.data.fifoExpire == (if d.vrtExpire >= FifoExpireNumber then 0 else d.fifoExpire)
    ensures s.data.forceVrt == d.forceVrt && s.data.forceExpire == d.forceExpire
    ensures Pending(s.data) + multiset{d.vrtQueue[0]} == Pending(d)
    ensures LaneSorted(d.vrtQueue) ==> LaneSorted(s.data.vrtQueue)
    ensures LaneAbove(d.vrtQueue, d.lowestVrt) ==> LaneAbove(s.data.vrtQueue, s.data.lowestVrt)
  {
    var d1 := if d.vrtExpire >= FifoExpireNumber
              then d.(fifoExpire := 0, vrtExpire := 0)
              else d.(vrtExpire := d.vrtExpire + 1);
    var rest := d1.vrtQueue[1..];
    TailKeepsLane(d.vrtQueue, d.lowestVrt);
    assert d1.vrtQueue == [d1.vrtQueue[0]] + rest;
    Step(d1.(vrtQueue := rest,
             lowestVrt := if rest == [] then U64Max else d1.lowestVrt,
             vrtCount := d1.vrtCount - 1),
         VruntimeRequest, Some(d1.vrtQueue[0]))
  }

  function PopLaneForced(d: CoopData): (s: Step)
    requires d.vrtQueue != []
    ensures s.path == ForceVrtRequest && s.rq == Some(d.vrtQueue[0])
    ensures s.data.queue == d.queue && s.data.vrtQueue == d.vrtQueue[1..]
    ensures s.data.vrtCount == d.vrtCount - 1 && s.data.lowestVrt == d.lowestVrt
    ensures s.data.vrtExpire == d.vrtExpire && s.data.fifoExpire == d.fifoExpire
    ensures s.data.forceVrt == (d.forceVrt && d.forceExpire < FifoExpireNumber)
    ensures s.data.forceExpire == (if d.forceExpire >= FifoExpireNumber then 0 else d.forceExpire + 1)
    ensures Pending(s.data) + multiset{d.vrtQueue[0]} == Pending(d)
    ensures LaneSorted(d.vrtQueue) ==> LaneSorted(s.data.vrtQueue)
    ensures LaneAbove(d.vrtQueue, d.lowestVrt) ==> LaneAbove(s.data.vrtQueue, s.data.lowestVrt)
  {
    var d1 := if d.forceExpire >= FifoExpireNumber
              then d.(forceExpire := 0, forceVrt := false)
              else d.(forceExpire := d.forceExpire + 1);
    TailKeepsLane(d.vrtQueue, d.lowestVrt);
    assert d1.vrtQueue == [d1.vrtQueue[0]] + d1.vrtQueue[1..];
    Step(d1.(vrtQueue := d1.vrtQueue[1..], vrtCount := d1.vrtCount - 1),
         ForceVrtRequest, Some(d1.vrtQueue[0]))
  }

  /** coop_dispatch. Each label is entered only with its queue non-empty, so the
      "return 0" after a failed pop at each label never happens: the pops carry
      that as their precondition. */
  function Dispatch(d: CoopData): (s: Step)
    // nothing changes, and nothing is released, exactly when nothing is pending
    ensures s.path == Idle <==> d.queue == [] && d.vrtQueue == []
    ensures s.path == Idle ==> s.data == d && s.rq == None
    // which queue is served
    ensures s.path == FifoRequest <==>
      d.queue != [] && (d.vrtQueue == [] || (!d.forceVrt && d.fifoExpire <= FifoExpireNumber))
    ensures s.path == ForceVrtRequest <==> d.queue != [] && d.vrtQueue != [] && d.forceVrt
    ensures s.path == VruntimeRequest <==>
      d.vrtQueue != [] && (d.queue == [] || (!d.forceVrt && d.fifoExpire > FifoExpireNumber))
    // exactly one request leaves exactly one queue, from its head
    ensures s.path != Idle ==> s.rq.Some? && Pending(s.data) + multiset{s.rq.value} == Pending(d)
    ensures s.path == FifoRequest ==>
      s.rq == Some(d.queue[0]) && s.data.queue == d.queue[1..] &&
      s.data.vrtQueue == d.vrtQueue && s.data.vrtCount == d.vrtCount
    ensures s.path == VruntimeRequest || s.path == ForceVrtRequest ==>
      s.rq == Some(d.vrtQueue[0]) && s.data.vrtQueue == d.vrtQueue[1..] &&
      s.data.queue == d.queue && s.data.vrtCount == d.vrtCount - 1
    // the threshold is only ever reset to "none", and only with the lane empty
    ensures s.data.lowestVrt != d.lowestVrt ==> s.data.vrtQueue == [] && s.data.lowestVrt == U64Max
    ensures s.path == VruntimeRequest && s.data.vrtQueue == [] ==> s.data.lowestVrt == U64Max
    ensures d.vrtQueue == [] && d.queue != [] ==> s.data.lowestVrt == U64Max && s.data.fifoExpire == 0
    // the phase counters
    ensures s.path == FifoRequest ==>
      s.data.fifoExpire == (if d.vrtQueue == [] then 0 else d.fifoExpire + 1) &&
      s.data.vrtExpire == d.vrtExpire && s.data.forceVrt == d.forceVrt &&
      s.data.forceExpire == d.forceExpire
    ensures s.path == VruntimeRequest ==>
      s.data.vrtExpire == (if d.vrtExpire >= FifoExpireNumber then 0 else d.vrtExpire + 1) &&
      s.data.fifoExpire == (if d.vrtExpire >= FifoExpireNumber then 0
                            else if d.queue == [] then d.fifoExpire else d.fifoExpire + 1) &&
      s.data.forceVrt == d.forceVrt && s.data.forceExpire == d.forceExpire
    ensures s.path == ForceVrtRequest ==>
      s.data.lowestVrt == d.lowestVrt &&
      s.data.fifoExpire == d.fifoExpire && s.data.vrtExpire == d.vrtExpire &&
      s.data.forceVrt == (d.forceExpire < FifoExpireNumber) &&
      s.data.forceExpire == (if d.forceExpire >= FifoExpireNumber then 0 else d.forceExpire + 1)
    // the invariants
    ensures Valid(d) ==> Valid(s.data)
    ensures Counted(d) ==> Counted(s.data)
  {
    if d.queue == [] && d.vrtQueue == [] then
      Step(d, Idle, None)
    else if d.queue == [] then
      PopLane(d)
    else if d.vrtQueue == [] then
      PopFifo(d.(fifoExpire := 0, lowestVrt := U64Max))
    else if d.forceVrt then
      PopLaneForced(d)
    else if d.fifoExpire > FifoExpireNumber then
      PopLane(d.(fifoExpire := d.fifoExpire + 1))
    else
      PopFifo(d.(fifoExpire := d.fifoExpire + 1))
  }

  function RemoveAt(s: seq<Request>, i: nat): (r: seq<Request>)
    requires i < |s|
    ensures |r| == |s| - 1
    ensures multiset(r) + multiset{s[i]} == multiset(s)
  {
    assert s == s[..i] + [s[i]] + s[i + 1..];
    s[..i] + s[i + 1..]
  }

  lemma RemoveKeepsLane(s: seq<Request>, i: nat, lowest: U64)
    requires i < |s|
    ensures LaneSorted(s) ==> LaneSorted(RemoveAt(s, i))
    ensures LaneAbove(s, lowest) ==> LaneAbove(RemoveAt(s, i), lowest)
  {
    var r := RemoveAt(s, i);
    forall k | 0 <= k < |r| ensures r[k] == s[if k < i then k else k + 1] {
    }
  }

  /** coop_merged_requests: list_del_init unlinks the absorbed request from
      whichever list holds it. vrt_count is left alone even when that list is the
      lane. A handle that is not linked (list_del_init on a self-linked node)
      changes nothing. */
  function MergedRequests(d: CoopData, next: Handle): (d': CoopData)
    ensures !ValidHandle(d, next) ==> d' == d
    ensures ValidHandle(d, next) ==>
      Pending(d') + multiset{ListOf(d, next.list)[next.index]} == Pending(d) &&
      ListOf(d', next.list) == RemoveAt(ListOf(d, next.list), next.index)
    // only the list holding the request changes; the counters and vrt_count do not
    ensures next.list == Fifo ==> d'.vrtQueue == d.vrtQueue
    ensures next.list == Vrt ==> d'.queue == d.queue
    ensures d'.(queue := d.queue, vrtQueue := d.vrtQueue) == d
    ensures Valid(d) ==> Valid(d')
    // merging a lane resident away leaves vrt_count one above the lane's length
    ensures ValidHandle(d, next) && next.list == Vrt && Counted(d) ==>
      d'.vrtCount == |d'.vrtQueue| + 1
  {
    if !ValidHandle(d, next) then d
    else if next.list == Fifo then
      d.(queue := RemoveAt(d.queue, next.index))
    else
      RemoveKeepsLane(d.vrtQueue, next.index, d.lowestVrt);
      d.(vrtQueue := RemoveAt(d.vrtQueue, next.index))
  }

  /** What list_prev_entry / list_next_entry yield: nothing (NULL), a queued
      request, or the entry computed from a list head that is not a request. */
  datatype Neighbour = Null | Entry(rq: Request) | HeadOf(list: ListName)

  /** coop_former_request as written: the boundary test compares the previous link
      only with the FIFO's head, so for the front of the lane it yields the
      container of the lane's list head. */
  function FormerAsWritten(d: CoopData, h: Handle): (n: Neighbour)
    requires ValidHandle(d, h)
    ensures n == Null <==> h == Handle(Fifo, 0)
    ensures n == HeadOf(Vrt) <==> h == Handle(Vrt, 0)
    ensures h.index > 0 ==> n == Entry(ListOf(d, h.list)[h.index - 1])
  {
    if h.index == 0 then
      if h.list == Fifo then Null else HeadOf(Vrt)
    else
      Entry(ListOf(d, h.list)[h.index - 1])
  }

  /** coop_latter_request as written: the same defect at the back of the lane. */
  function LatterAsWritten(d: CoopData, h: Handle): (n: Neighbour)
    requires ValidHandle(d, h)
    ensures n == Null <==> h.list == Fifo && h.index == |d.queue| - 1
    ensures n == HeadOf(Vrt) <==> h.list == Vrt && h.index == |d.vrtQueue| - 1
    ensures h.index + 1 < |ListOf(d, h.list)| ==> n == Entry(ListOf(d, h.list)[h.index + 1])
  {
    var s := ListOf(d, h.list);
    if h.index + 1 == |s| then
      if h.list == Fifo then Null else HeadOf(Vrt)
    else
      Entry(s[h.index + 1])
  }

  /** The previous resident of the same list, or none at that list's front. */
  function FormerRequest(d: CoopData, h: Handle): (r: Option<Request>)
    requires ValidHandle(d, h)
    ensures r == None <==> h.index == 0
    ensures r.Some? ==> r.value == ListOf(d, h.list)[h.index - 1]
  {
    if h.index == 0 then None else Some(ListOf(d, h.list)[h.index - 1])
  }

  /** The next resident of the same list, or none at that list's back. */
  function LatterRequest(d: CoopData, h: Handle): (r: Option<Request>)
    requires ValidHandle(d, h)
    ensures r == None <==> h.index == |ListOf(d, h.list)| - 1
    ensures r.Some? ==> r.value == ListOf(d, h.list)[h.index + 1]
  {
    var s := ListOf(d, h.list);
    if h.index + 1 == |s| then None else Some(s[h.index + 1])
  }
}
