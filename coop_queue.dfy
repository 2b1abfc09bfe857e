/** The elevator instance: struct coop_data as an object whose fields the
    elevator callbacks update in place. Each method is proved to perform exactly
    the step its CoopOps function describes. */
module CoopQueue {
  import opened CoopState
  import opened CoopOps

  class Elevator {
    var queue: seq<Request>
    var vrtQueue: seq<Request>
    var fifoExpire: int
    var vrtExpire: int
    var vrtCount: int
    var forceVrt: bool
    var forceExpire: int
    var lowestVrt: U64
    /** Every request handed to elv_dispatch_sort, in the order handed over. */
    ghost var dispatched: seq<Request>

    function Data(): CoopData
      reads this
    {
      CoopData(queue, vrtQueue, fifoExpire, vrtExpire, vrtCount, forceVrt, forceExpire, lowestVrt)
    }

    ghost predicate Valid()
      reads this
    {
      CoopState.Valid(Data())
    }

    /** coop_init_queue once both allocations succeeded; forceExpireInit stands
        for the field the C code leaves uninitialised. */
    constructor (forceExpireInit: int)
      ensures Data() == InitData(forceExpireInit) && dispatched == []
      ensures Valid() && Counted(Data())
    {
      lowestVrt := U64Max;
      fifoExpire := 0;
      vrtExpire := 0;
      vrtCount := 0;
      forceVrt := false;
      forceExpire := forceExpireInit;
      queue := [];
      vrtQueue := [];
      dispatched := [];
    }

    /** coop_add_request, with the caller's vruntime and the jiffies clock as
        parameters. */
    method AddRequest(id: RequestId, vruntime: U64, jiffies: nat)
      modifies this
      ensures Data() == CoopOps.AddRequest(old(Data()), id, vruntime, jiffies)
      ensures dispatched == old(dispatched)
      ensures old(Valid()) ==> Valid()
      ensures old(Counted(Data())) ==> Counted(Data())
    {
      var rq := Request(id, vruntime, jiffies + fifoExpire);
      if vruntime < lowestVrt {
        vrtQueue := [rq] + vrtQueue;
        vrtCount := vrtCount + 1;
        lowestVrt := vruntime;
        if vrtCount > VrtQueueLen {
          forceVrt := true;
        }
      } else {
        queue := queue + [rq];
      }
    }

    /** coop_dispatch: returns 1 after handing one request to the dispatch sink,
        0 when nothing is pending. The label chosen by the tests at the top is
        kept in `path`, and each labelled block follows. */
    method Dispatch() returns (r: int)
      modifies this
      ensures Data() == CoopOps.Dispatch(old(Data())).data
      ensures r == 0 <==> old(queue) == [] && old(vrtQueue) == []
      ensures r == 0 || r == 1
      ensures dispatched == old(dispatched) +
        (match CoopOps.Dispatch(old(Data())).rq case Some(rq) => [rq] case None => [])
      ensures old(Valid()) ==> Valid()
      ensures old(Counted(Data())) ==> Counted(Data())
    {
      ghost var step := CoopOps.Dispatch(Data());
      if queue == [] && vrtQueue == [] {
        return 0;
      }
      var path: Path;
      if queue == [] {
        path := VruntimeRequest;
      } else if vrtQueue == [] {
        fifoExpire := 0;
        lowestVrt := U64Max;
        path := FifoRequest;
      } else if forceVrt {
        path := ForceVrtRequest;
      } else {
        var was := fifoExpire;
        fifoExpire := fifoExpire + 1;
        path := if was > FifoExpireNumber then VruntimeRequest else FifoRequest;
      }

      if path == ForceVrtRequest {
        assert step == PopLaneForced(Data());
        r := ForceVrtRequestBlock();
      } else if path == VruntimeRequest {
        assert step == PopLane(Data());
        r := VruntimeRequestBlock();
      } else {
        assert step == PopFifo(Data());
        r := FifoRequestBlock();
      }
    }

    /** The block at label force_vrt_request; entered with the lane non-empty, so
        the "return 0" after its pop is dead. */
    method ForceVrtRequestBlock() returns (r: int)
      requires vrtQueue != []
      modifies this
      ensures Data() == PopLaneForced(old(Data())).data && r == 1
      ensures dispatched == old(dispatched) + [old(vrtQueue[0])]
    {
      var was := forceExpire;
      forceExpire := forceExpire + 1;
      if was >= FifoExpireNumber {
        forceExpire := 0;
        forceVrt := false;
      }
      var rq := vrtQueue[0];
      vrtQueue := vrtQueue[1..];
      dispatched := dispatched + [rq];
      vrtCount := vrtCount - 1;
      return 1;
    }

    /** The block at label vruntime_request. */
    method VruntimeRequestBlock() returns (r: int)
      requires vrtQueue != []
      modifies this
      ensures Data() == PopLane(old(Data())).data && r == 1
      ensures dispatched == old(dispatched) + [old(vrtQueue[0])]
    {
      var was := vrtExpire;
      vrtExpire := vrtExpire + 1;
      if was >= FifoExpireNumber {
        fifoExpire := 0;
        vrtExpire := 0;
      }
      var rq := vrtQueue[0];
      vrtQueue := vrtQueue[1..];
      if vrtQueue == [] {
        lowestVrt := U64Max;
      }
      dispatched := dispatched + [rq];
      vrtCount := vrtCount - 1;
      return 1;
    }

    /** The block at label fifo_request. */
    method FifoRequestBlock() returns (r: int)
      requires queue != []
      modifies this
      ensures Data() == PopFifo(old(Data())).data && r == 1
      ensures dispatched == old(dispatched) + [old(queue[0])]
    {
      var rq := queue[0];
      queue := queue[1..];
      dispatched := dispatched + [rq];
      return 1;
    }

    /** coop_merged_requests: unlink the absorbed request `next`; the surviving
        request plays no part. */
    method MergedRequests(next: Handle)
      modifies this
      ensures Data() == CoopOps.MergedRequests(old(Data()), next)
      ensures dispatched == old(dispatched)
      ensures old(Valid()) ==> Valid()
    {
      var i := next.index;
      if next.list == Fifo && i < |queue| {
        queue := queue[..i] + queue[i + 1..];
      } else if next.list == Vrt && i < |vrtQueue| {
        vrtQueue := vrtQueue[..i] + vrtQueue[i + 1..];
      }
    }

    /** coop_exit_queue: the caller must have drained the FIFO (the BUG_ON); the
        lane is not checked, and whatever it still holds is abandoned. */
    method ExitQueue() returns (stranded: seq<Request>)
      requires queue == []
      ensures stranded == vrtQueue
      ensures Pending(Data()) == multiset(stranded)
    {
      stranded := vrtQueue;
    }
  }
}
