/** Laws about sequences of elevator calls: repeated dispatch (the 4 FIFO / 4 lane
    alternation and the 4-dispatch forced drain), runs of admissions into the
    lane, and arbitrary interleavings of admission, dispatch and merge-away
    (conservation, FIFO order, vrt_count drift). */
module CoopLaws {
  import opened CoopState
  import opened CoopOps

  function Released(s: Step): seq<Request>
  {
    match s.rq
    case Some(rq) => [rq]
    case None => []
  }

  /** n back-to-back calls of a step function, collecting the paths taken and
      the requests released. */
  datatype Drained = Drained(data: CoopData, paths: seq<Path>, released: seq<Request>)

  function Iterate(next: CoopData -> Step, d: CoopData, n: nat): (r: Drained)
    ensures |r.paths| == n
    decreases n
  {
    if n == 0 then Drained(d, [], [])
    else
      var s := next(d);
      var r := Iterate(next, s.data, n - 1);
      Drained(r.data, [s.path] + r.paths, Released(s) + r.released)
  }

  /** n dispatch calls with nothing admitted or merged in between. */
  function Drain(d: CoopData, n: nat): Drained
  {
    Iterate(Dispatch, d, n)
  }

  function Times(p: Path, k: nat): (r: seq<Path>)
    ensures |r| == k
  {
    if k == 0 then [] else [p] + Times(p, k - 1)
  }

  lemma TimesSnoc(p: Path, k: nat)
    ensures Times(p, k) + [p] == Times(p, k + 1)
  {
    if k > 0 {
      TimesSnoc(p, k - 1);
      assert [p] + (Times(p, k - 1) + [p]) == ([p] + Times(p, k - 1)) + [p];
    }
  }

  lemma TakeSnoc(s: seq<Request>, k: nat)
    requires k < |s|
    ensures s[..k] + [s[k]] == s[..k + 1]
  {
  }

  /** Stepping m times and then n times is stepping m + n times. */
  lemma {:induction false} IterateSplit(next: CoopData -> Step, d: CoopData, m: nat, n: nat)
    ensures var a := Iterate(next, d, m); var b := Iterate(next, a.data, n);
      Iterate(next, d, m + n) == Drained(b.data, a.paths + b.paths, a.released + b.released)
    decreases m
  {
    if m > 0 {
      var s := next(d);
      IterateSplit(next, s.data, m - 1, n);
      var a := Iterate(next, s.data, m - 1);
      var b := Iterate(next, a.data, n);
      assert [s.path] + (a.paths + b.paths) == ([s.path] + a.paths) + b.paths;
      assert Released(s) + (a.released + b.released) == (Released(s) + a.released) + b.released;
    } else {
      var b := Iterate(next, d, n);
      assert [] + b.paths == b.paths && [] + b.released == b.released;
    }
  }

  lemma IterateStep(next: CoopData -> Step, d: CoopData, n: nat)
    requires n > 0
    ensures var s := next(d); var r := Iterate(next, s.data, n - 1);
      Iterate(next, d, n) == Drained(r.data, [s.path] + r.paths, Released(s) + r.released)
  {
  }

  /** One dispatch call hands over what leaves the queues. */
  lemma DispatchReleases(d: CoopData)
    ensures var s := Dispatch(d); Pending(d) == Pending(s.data) + multiset(Released(s))
  {
    var s := Dispatch(d);
    if s.path == Idle {
      assert Released(s) == [];
    } else {
      assert Released(s) == [s.rq.value];
    }
  }

  lemma Regroup(before: multiset<Request>, middle: multiset<Request>, after: multiset<Request>,
                first: seq<Request>, rest: seq<Request>)
    requires before == middle + multiset(first)
    requires middle == after + multiset(rest)
    ensures before == after + multiset(first + rest)
  {
    assert multiset(first + rest) == multiset(first) + multiset(rest);
  }

  /** What one step of `next` keeps: nothing lost or duplicated, the invariants. */
  predicate StepKeeps(next: CoopData -> Step, d: CoopData)
  {
    var s := next(d);
    Pending(d) == Pending(s.data) + multiset(Released(s)) &&
    (Valid(d) ==> Valid(s.data)) &&
    (Counted(d) ==> Counted(s.data))
  }

  lemma {:induction false} IterateKeeps(next: CoopData -> Step, d: CoopData, n: nat)
    requires forall x :: StepKeeps(next, x)
    ensures var r := Iterate(next, d, n);
      Pending(d) == Pending(r.data) + multiset(r.released) &&
      (Valid(d) ==> Valid(r.data)) &&
      (Counted(d) ==> Counted(r.data))
    decreases n
  {
    if n > 0 {
      var s := next(d);
      assert StepKeeps(next, d);
      IterateKeeps(next, s.data, n - 1);
      var r := Iterate(next, s.data, n - 1);
      Regroup(Pending(d), Pending(s.data), Pending(r.data), Released(s), r.released);
    }
  }

  /** Two runs with known outcomes compose. */
  lemma IterateCompose(next: CoopData -> Step, d: CoopData, m: nat, n: nat, a: Drained, b: Drained)
    requires Iterate(next, d, m) == a && Iterate(next, a.data, n) == b
    ensures Iterate(next, d, m + n) == Drained(b.data, a.paths + b.paths, a.released + b.released)
  {
    IterateSplit(next, d, m, n);
  }

  lemma DrainCompose(d: CoopData, m: nat, n: nat, a: Drained, b: Drained)
    requires Drain(d, m) == a && Drain(a.data, n) == b
    ensures Drain(d, m + n) == Drained(b.data, a.paths + b.paths, a.released + b.released)
  {
    IterateCompose(Dispatch, d, m, n, a, b);
  }

  /** Repeated dispatch loses and duplicates nothing, and keeps the invariants. */
  lemma DrainKeeps(d: CoopData, n: nat)
    ensures var r := Drain(d, n);
      Pending(d) == Pending(r.data) + multiset(r.released) &&
      (Valid(d) ==> Valid(r.data)) &&
      (Counted(d) ==> Counted(r.data))
  {
    forall x ensures StepKeeps(Dispatch, x) {
      DispatchReleases(x);
    }
    IterateKeeps(Dispatch, d, n);
  }

  /** What one step of `next` does to a non-empty state: it is not idle and
      takes exactly one entry off the two lists. */
  predicate StepShrinks(next: CoopData -> Step, d: CoopData)
  {
    var s := next(d);
    (d.queue != [] || d.vrtQueue != []) ==>
      s.path != Idle && |s.data.queue| + |s.data.vrtQueue| + 1 == |d.queue| + |d.vrtQueue|
  }

  lemma {:induction false} IterateEmpties(next: CoopData -> Step, d: CoopData, n: nat)
    requires forall x :: StepShrinks(next, x)
    requires n == |d.queue| + |d.vrtQueue|
    ensures var r := Iterate(next, d, n);
      r.data.queue == [] && r.data.vrtQueue == [] && forall p | p in r.paths :: p != Idle
    decreases n
  {
    if n > 0 {
      var s := next(d);
      assert StepShrinks(next, d);
      IterateEmpties(next, s.data, n - 1);
    }
  }

  /** As many dispatch calls as there are pending requests empty both lists:
      no call comes back idle, and what was released is exactly what was
      pending. */
  lemma DrainAll(d: CoopData, n: nat)
    requires n == |d.queue| + |d.vrtQueue|
    ensures var r := Drain(d, n);
      r.data.queue == [] && r.data.vrtQueue == [] &&
      multiset(r.released) == Pending(d) &&
      forall p | p in r.paths :: p != Idle
  {
    forall x ensures StepShrinks(Dispatch, x) {
      DispatchShrinks(x);
    }
    IterateEmpties(Dispatch, d, n);
    DrainKeeps(d, n);
  }

  lemma DispatchShrinks(d: CoopData)
    ensures StepShrinks(Dispatch, d)
  {
    var s := Dispatch(d);
    if s.path == FifoRequest {
      assert |d.queue[1..]| == |d.queue| - 1;
    } else if s.path != Idle {
      assert |d.vrtQueue[1..]| == |d.vrtQueue| - 1;
    }
  }

  /** The first call of a drain, split off. */
  lemma DrainFirst(d: CoopData, k: nat, s: Step)
    requires k > 0 && Dispatch(d) == s
    ensures var r := Drain(s.data, k - 1);
      Drain(d, k) == Drained(r.data, [s.path] + r.paths, Released(s) + r.released)
  {
    IterateStep(Dispatch, d, k);
  }

  lemma SliceStep(q: seq<Request>, k: nat)
    requires 0 < k <= |q|
    ensures q[1..][k - 1..] == q[k..] && [q[0]] + q[1..][..k - 1] == q[..k]
  {
  }

  // One dispatch in each of the situations the multi-step laws go through.

  lemma FifoStep(d: CoopData)
    requires !d.forceVrt && d.vrtQueue != [] && d.queue != []
    requires d.fifoExpire <= FifoExpireNumber
    ensures Dispatch(d) ==
      Step(d.(queue := d.queue[1..], fifoExpire := d.fifoExpire + 1), FifoRequest, Some(d.queue[0]))
  {
  }

  lemma LaneStep(d: CoopData)
    requires !d.forceVrt && d.queue != [] && |d.vrtQueue| > 1
    requires d.fifoExpire > FifoExpireNumber && d.vrtExpire < FifoExpireNumber
    ensures Dispatch(d) ==
      Step(d.(vrtQueue := d.vrtQueue[1..], vrtCount := d.vrtCount - 1,
              fifoExpire := d.fifoExpire + 1, vrtExpire := d.vrtExpire + 1),
           VruntimeRequest, Some(d.vrtQueue[0]))
  {
  }

  lemma LaneResetStep(d: CoopData)
    requires !d.forceVrt && d.queue != [] && d.vrtQueue != []
    requires d.fifoExpire > FifoExpireNumber && d.vrtExpire >= FifoExpireNumber
    ensures Dispatch(d) ==
      Step(d.(vrtQueue := d.vrtQueue[1..], vrtCount := d.vrtCount - 1,
              fifoExpire := 0, vrtExpire := 0,
              lowestVrt := if d.vrtQueue[1..] == [] then U64Max else d.lowestVrt),
           VruntimeRequest, Some(d.vrtQueue[0]))
  {
  }

  lemma ForcedStep(d: CoopData)
    requires d.forceVrt && d.queue != [] && d.vrtQueue != []
    ensures Dispatch(d) ==
      Step(d.(vrtQueue := d.vrtQueue[1..], vrtCount := d.vrtCount - 1,
              forceVrt := d.forceExpire < FifoExpireNumber,
              forceExpire := if d.forceExpire >= FifoExpireNumber then 0 else d.forceExpire + 1),
           ForceVrtRequest, Some(d.vrtQueue[0]))
  {
  }

  /** While the FIFO counter has not passed its threshold, every dispatch serves
      the FIFO head and advances the counter. */
  lemma {:induction false} FifoRun(d: CoopData, k: nat)
    requires !d.forceVrt && d.vrtQueue != [] && |d.queue| >= k
    requires 0 <= d.fifoExpire && d.fifoExpire + k <= FifoExpireNumber + 1
    ensures Drain(d, k) ==
      Drained(d.(queue := d.queue[k..], fifoExpire := d.fifoExpire + k),
              Times(FifoRequest, k), d.queue[..k])
    decreases k
  {
    if k > 0 {
      var d1 := d.(queue := d.queue[1..], fifoExpire := d.fifoExpire + 1);
      var r := Drain(d1, k - 1);
      assert Drain(d, k) == Drained(r.data, [FifoRequest] + r.paths, [d.queue[0]] + r.released) by {
        FifoStep(d);
        DrainFirst(d, k, Step(d1, FifoRequest, Some(d.queue[0])));
      }
      FifoRun(d1, k - 1);
      SliceStep(d.queue, k);
    } else {
      assert Drain(d, 0) == Drained(d, [], []);
    }
  }

  /** Once the FIFO counter is past its threshold, every dispatch serves the lane
      head, until the lane counter trips. */
  lemma {:induction false} LaneRun(d: CoopData, k: nat)
    requires !d.forceVrt && d.queue != [] && |d.vrtQueue| > k
    requires d.fifoExpire > FifoExpireNumber
    requires 0 <= d.vrtExpire && d.vrtExpire + k <= FifoExpireNumber
    ensures Drain(d, k) ==
      Drained(d.(vrtQueue := d.vrtQueue[k..], vrtCount := d.vrtCount - k,
                 fifoExpire := d.fifoExpire + k, vrtExpire := d.vrtExpire + k),
              Times(VruntimeRequest, k), d.vrtQueue[..k])
    decreases k
  {
    if k > 0 {
      var d1 := d.(vrtQueue := d.vrtQueue[1..], vrtCount := d.vrtCount - 1,
                   fifoExpire := d.fifoExpire + 1, vrtExpire := d.vrtExpire + 1);
      var r := Drain(d1, k - 1);
      assert Drain(d, k) == Drained(r.data, [VruntimeRequest] + r.paths, [d.vrtQueue[0]] + r.released) by {
        LaneStep(d);
        DrainFirst(d, k, Step(d1, VruntimeRequest, Some(d.vrtQueue[0])));
      }
      LaneRun(d1, k - 1);
      SliceStep(d.vrtQueue, k);
    } else {
      assert Drain(d, 0) == Drained(d, [], []);
    }
  }

  /** One dispatch as a one-call drain. */
  lemma DrainOne(d: CoopData)
    ensures var s := Dispatch(d); Drain(d, 1) == Drained(s.data, [s.path], Released(s))
  {
    var s := Dispatch(d);
    assert Drain(s.data, 0) == Drained(s.data, [], []);
  }

  lemma LaneResetOne(d: CoopData, rest: seq<Request>)
    requires !d.forceVrt && d.queue != [] && d.vrtQueue != [] && rest == d.vrtQueue[1..]
    requires d.fifoExpire > FifoExpireNumber && d.vrtExpire >= FifoExpireNumber
    ensures Drain(d, 1) ==
      Drained(d.(vrtQueue := rest, vrtCount := d.vrtCount - 1,
                 fifoExpire := 0, vrtExpire := 0,
                 lowestVrt := if rest == [] then U64Max else d.lowestVrt),
              [VruntimeRequest], [d.vrtQueue[0]])
  {
    LaneResetStep(d);
    DrainOne(d);
  }

  lemma ForcedOne(d: CoopData)
    requires d.forceVrt && d.queue != [] && d.vrtQueue != []
    ensures Drain(d, 1) ==
      Drained(d.(vrtQueue := d.vrtQueue[1..], vrtCount := d.vrtCount - 1,
                 forceVrt := d.forceExpire < FifoExpireNumber,
                 forceExpire := if d.forceExpire >= FifoExpireNumber then 0 else d.forceExpire + 1),
              [ForceVrtRequest], [d.vrtQueue[0]])
  {
    ForcedStep(d);
    DrainOne(d);
  }

  /** The lane phase: once the FIFO counter is past its threshold and the lane
      counter is at zero, four dispatches serve the four lane heads, the fourth
      resets both phase counters, and lowest_vrt is reset if the lane empties. */
  lemma LanePhase(d: CoopData)
    requires !d.forceVrt && d.queue != [] && |d.vrtQueue| >= 4
    requires d.fifoExpire > FifoExpireNumber && d.vrtExpire == 0
    ensures Drain(d, 4) ==
      Drained(d.(vrtQueue := d.vrtQueue[4..], vrtCount := d.vrtCount - 4,
                 fifoExpire := 0, vrtExpire := 0,
                 lowestVrt := if d.vrtQueue[4..] == [] then U64Max else d.lowestVrt),
              Times(VruntimeRequest, 4), d.vrtQueue[..4])
  {
    var d3 := d.(vrtQueue := d.vrtQueue[3..], vrtCount := d.vrtCount - 3,
                 fifoExpire := d.fifoExpire + 3, vrtExpire := 3);
    var d4 := d.(vrtQueue := d.vrtQueue[4..], vrtCount := d.vrtCount - 4,
                 fifoExpire := 0, vrtExpire := 0,
                 lowestVrt := if d.vrtQueue[4..] == [] then U64Max else d.lowestVrt);
    assert Drain(d, 3) == Drained(d3, Times(VruntimeRequest, 3), d.vrtQueue[..3]) by {
      LaneRun(d, 3);
    }
    assert Drain(d3, 1) == Drained(d4, [VruntimeRequest], [d.vrtQueue[3]]) by {
      assert d3.vrtQueue[1..] == d.vrtQueue[4..];
      LaneResetOne(d3, d.vrtQueue[4..]);
    }
    DrainCompose(d, 3, 1, Drained(d3, Times(VruntimeRequest, 3), d.vrtQueue[..3]),
                 Drained(d4, [VruntimeRequest], [d.vrtQueue[3]]));
    TimesSnoc(VruntimeRequest, 3);
    TakeSnoc(d.vrtQueue, 3);
  }

  /** The paths of one alternation block: four FIFO dispatches, then four lane
      dispatches. */
  function Block(): (b: seq<Path>)
    ensures |b| == 2 * (FifoExpireNumber + 1)
  {
    Times(FifoRequest, FifoExpireNumber + 1) + Times(VruntimeRequest, FifoExpireNumber + 1)
  }

  /** Both phase counters at zero, no forced drain pending, and more than four
      FIFO requests and at least four lane requests queued. */
  predicate BlockReady(d: CoopData)
  {
    d.fifoExpire == 0 && d.vrtExpire == 0 && !d.forceVrt &&
    |d.queue| > 4 && |d.vrtQueue| >= 4
  }

  /** The state one alternation block leaves. */
  function AfterBlock(d: CoopData): CoopData
    requires |d.queue| >= 4 && |d.vrtQueue| >= 4
  {
    d.(queue := d.queue[4..], vrtQueue := d.vrtQueue[4..], vrtCount := d.vrtCount - 4,
       lowestVrt := if d.vrtQueue[4..] == [] then U64Max else d.lowestVrt)
  }

  /** From a ready state, eight dispatches serve four FIFO heads and then four
      lane heads, and leave both phase counters at zero again. */
  lemma OneBlock(d: CoopData)
    requires BlockReady(d)
    ensures Drain(d, 8) == Drained(AfterBlock(d), Block(), d.queue[..4] + d.vrtQueue[..4])
  {
    var d4 := d.(queue := d.queue[4..], fifoExpire := 4);
    assert Drain(d, 4) == Drained(d4, Times(FifoRequest, 4), d.queue[..4]) by {
      FifoRun(d, 4);
    }
    assert Drain(d4, 4) == Drained(AfterBlock(d), Times(VruntimeRequest, 4), d.vrtQueue[..4]) by {
      assert AfterBlock(d) == d4.(vrtQueue := d4.vrtQueue[4..], vrtCount := d4.vrtCount - 4,
        fifoExpire := 0, vrtExpire := 0,
        lowestVrt := if d4.vrtQueue[4..] == [] then U64Max else d4.lowestVrt);
      LanePhase(d4);
    }
    DrainCompose(d, 4, 4, Drained(d4, Times(FifoRequest, 4), d.queue[..4]),
                 Drained(AfterBlock(d), Times(VruntimeRequest, 4), d.vrtQueue[..4]));
    assert Block() == Times(FifoRequest, 4) + Times(VruntimeRequest, 4);
  }

  function Blocks(k: nat): (r: seq<Path>)
    ensures |r| == 8 * k
  {
    if k == 0 then [] else Block() + Blocks(k - 1)
  }

  /** What k alternation blocks release: four FIFO heads, then four lane heads,
      k times over. */
  function Alternated(q: seq<Request>, l: seq<Request>, k: nat): (r: seq<Request>)
    requires |q| >= 4 * k && |l| >= 4 * k
    ensures |r| == 8 * k
  {
    if k == 0 then [] else q[..4] + l[..4] + Alternated(q[4..], l[4..], k - 1)
  }

  lemma SliceShift(s: seq<Request>, k: nat)
    requires k > 0 && |s| >= 4 * k
    ensures s[4..][4 * (k - 1)..] == s[4 * k..]
  {
  }

  /** The state k alternation blocks leave. */
  function AfterBlocks(d: CoopData, k: nat): CoopData
    requires |d.queue| >= 4 * k && |d.vrtQueue| >= 4 * k
    decreases k
  {
    if k == 0 then d else AfterBlocks(AfterBlock(d), k - 1)
  }

  lemma {:induction false} AfterBlocksShape(d: CoopData, k: nat)
    requires |d.queue| >= 4 * k && |d.vrtQueue| >= 4 * k
    ensures var e := AfterBlocks(d, k);
      e.fifoExpire == d.fifoExpire && e.vrtExpire == d.vrtExpire && e.forceVrt == d.forceVrt &&
      e.queue == d.queue[4 * k..] && e.vrtQueue == d.vrtQueue[4 * k..] &&
      e.vrtCount == d.vrtCount - 4 * k
    decreases k
  {
    if k > 0 {
      AfterBlocksShape(AfterBlock(d), k - 1);
      SliceShift(d.queue, k);
      SliceShift(d.vrtQueue, k);
    }
  }

  /** The first of k blocks, split off. */
  lemma BlocksUnfold(d: CoopData, k: nat)
    requires k > 0 && |d.queue| >= 4 * k && |d.vrtQueue| >= 4 * k
    ensures var d8 := AfterBlock(d);
      Drained(AfterBlocks(d8, k - 1), Block() + Blocks(k - 1),
              d.queue[..4] + d.vrtQueue[..4] + Alternated(d8.queue, d8.vrtQueue, k - 1)) ==
      Drained(AfterBlocks(d, k), Blocks(k), Alternated(d.queue, d.vrtQueue, k))
  {
  }

  /** k blocks of any step function that performs one block from a ready state. */
  lemma {:induction false} IterateBlocks(next: CoopData -> Step, d: CoopData, k: nat)
    requires forall x {:trigger Iterate(next, x, 8)} :: BlockReady(x) ==>
      Iterate(next, x, 8) == Drained(AfterBlock(x), Block(), x.queue[..4] + x.vrtQueue[..4])
    requires d.fifoExpire == 0 && d.vrtExpire == 0 && !d.forceVrt
    requires |d.queue| > 4 * k && |d.vrtQueue| >= 4 * k
    ensures Iterate(next, d, 8 * k) ==
      Drained(AfterBlocks(d, k), Blocks(k), Alternated(d.queue, d.vrtQueue, k))
    decreases k
  {
    if k > 0 {
      var d8 := AfterBlock(d);
      var a := Drained(d8, Block(), d.queue[..4] + d.vrtQueue[..4]);
      var b := Drained(AfterBlocks(d8, k - 1), Blocks(k - 1), Alternated(d8.queue, d8.vrtQueue, k - 1));
      assert Iterate(next, d, 8) == a by {
        assert BlockReady(d);
      }
      assert Iterate(next, d8, 8 * (k - 1)) == b by {
        IterateBlocks(next, d8, k - 1);
      }
      IterateCompose(next, d, 8, 8 * (k - 1), a, b);
      BlocksUnfold(d, k);
      assert 8 + 8 * (k - 1) == 8 * k;
    } else {
      assert Iterate(next, d, 0) == Drained(d, [], []);
    }
  }

  /** The alternation law: k blocks of 4 FIFO + 4 lane dispatches, each ending
      with both phase counters back at zero. */
  lemma Alternation(d: CoopData, k: nat)
    requires d.fifoExpire == 0 && d.vrtExpire == 0 && !d.forceVrt
    requires |d.queue| > 4 * k && |d.vrtQueue| >= 4 * k
    ensures var r := Drain(d, 8 * k);
      r.paths == Blocks(k) &&
      r.released == Alternated(d.queue, d.vrtQueue, k) &&
      r.data.fifoExpire == 0 && r.data.vrtExpire == 0 && !r.data.forceVrt &&
      r.data.queue == d.queue[4 * k..] && r.data.vrtQueue == d.vrtQueue[4 * k..] &&
      r.data.vrtCount == d.vrtCount - 4 * k
  {
    forall x | BlockReady(x)
      ensures Iterate(Dispatch, x, 8) == Drained(AfterBlock(x), Block(), x.queue[..4] + x.vrtQueue[..4])
    {
      OneBlock(x);
    }
    IterateBlocks(Dispatch, d, k);
    AfterBlocksShape(d, k);
  }

  /** In forced-drain mode with the FIFO non-empty, every dispatch pops the lane
      head and advances only the force counter, until it trips. */
  lemma {:induction false} ForcedRun(d: CoopData, k: nat)
    requires d.forceVrt && d.queue != [] && |d.vrtQueue| >= k
    requires 0 <= d.forceExpire && d.forceExpire + k <= FifoExpireNumber
    ensures Drain(d, k) ==
      Drained(d.(vrtQueue := d.vrtQueue[k..], vrtCount := d.vrtCount - k,
                 forceExpire := d.forceExpire + k),
              Times(ForceVrtRequest, k), d.vrtQueue[..k])
    decreases k
  {
    if k > 0 {
      var d1 := d.(vrtQueue := d.vrtQueue[1..], vrtCount := d.vrtCount - 1,
                   forceExpire := d.forceExpire + 1);
      var r := Drain(d1, k - 1);
      assert Drain(d, k) == Drained(r.data, [ForceVrtRequest] + r.paths, [d.vrtQueue[0]] + r.released) by {
        ForcedStep(d);
        assert d1 == d.(vrtQueue := d.vrtQueue[1..], vrtCount := d.vrtCount - 1,
                        forceVrt := d.forceExpire < FifoExpireNumber,
                        forceExpire := if d.forceExpire >= FifoExpireNumber then 0 else d.forceExpire + 1);
        DrainFirst(d, k, Step(d1, ForceVrtRequest, Some(d.vrtQueue[0])));
      }
      ForcedRun(d1, k - 1);
      SliceStep(d.vrtQueue, k);
    } else {
      assert Drain(d, 0) == Drained(d, [], []);
    }
  }

  /** The forced-drain law: from force_expire = 0, with the FIFO non-empty, four
      dispatches pop the four lane heads without touching the FIFO, the phase
      counters or lowest_vrt (even when the lane empties), and the fourth clears
      the flag and its counter. */
  lemma ForcedDrain(d: CoopData)
    requires d.forceVrt && d.forceExpire == 0
    requires d.queue != [] && |d.vrtQueue| >= 4
    ensures Drain(d, 4) ==
      Drained(d.(vrtQueue := d.vrtQueue[4..], vrtCount := d.vrtCount - 4,
                 forceVrt := false, forceExpire := 0),
              Times(ForceVrtRequest, 4), d.vrtQueue[..4])
  {
    var d3 := d.(vrtQueue := d.vrtQueue[3..], vrtCount := d.vrtCount - 3, forceExpire := 3);
    var d4 := d.(vrtQueue := d.vrtQueue[4..], vrtCount := d.vrtCount - 4,
                 forceVrt := false, forceExpire := 0);
    assert Drain(d, 3) == Drained(d3, Times(ForceVrtRequest, 3), d.vrtQueue[..3]) by {
      ForcedRun(d, 3);
    }
    assert Drain(d3, 1) == Drained(d4, [ForceVrtRequest], [d.vrtQueue[3]]) by {
      ForcedOne(d3);
      assert d3.vrtQueue[1..] == d.vrtQueue[4..];
    }
    DrainCompose(d, 3, 1, Drained(d3, Times(ForceVrtRequest, 3), d.vrtQueue[..3]),
                 Drained(d4, [ForceVrtRequest], [d.vrtQueue[3]]));
    TimesSnoc(ForceVrtRequest, 3);
    TakeSnoc(d.vrtQueue, 3);
  }

  /** With the FIFO empty, dispatch always takes the ordinary lane path, whatever
      force_vrt says, and leaves the flag as it was. */
  lemma {:induction false} EmptyFifoRun(d: CoopData, k: nat)
    requires d.queue == [] && |d.vrtQueue| >= k
    ensures var r := Drain(d, k);
      r.paths == Times(VruntimeRequest, k) && r.released == d.vrtQueue[..k] &&
      r.data.queue == [] && r.data.vrtQueue == d.vrtQueue[k..] &&
      r.data.forceVrt == d.forceVrt && r.data.forceExpire == d.forceExpire
    decreases k
  {
    if k > 0 {
      var s := Dispatch(d);
      var r := Drain(s.data, k - 1);
      assert s.path == VruntimeRequest && s.rq == Some(d.vrtQueue[0]);
      assert Drain(d, k) == Drained(r.data, [s.path] + r.paths, Released(s) + r.released) by {
        DrainFirst(d, k, s);
      }
      EmptyFifoRun(s.data, k - 1);
      SliceStep(d.vrtQueue, k);
    } else {
      assert Drain(d, 0) == Drained(d, [], []);
    }
  }

  // ---------------------------------------------------------------------------
  // Admissions into the lane

  datatype Admission = Admission(id: RequestId, vruntime: U64, jiffies: nat)

  function AdmitAll(d: CoopData, batch: seq<Admission>): CoopData
    decreases |batch|
  {
    if batch == [] then d
    else AdmitAll(AddRequest(d, batch[0].id, batch[0].vruntime, batch[0].jiffies), batch[1..])
  }

  predicate StrictlyDecreasing(batch: seq<Admission>)
  {
    forall i, j :: 0 <= i < j < |batch| ==> batch[j].vruntime < batch[i].vruntime
  }

  lemma AppendAssoc(a: seq<Request>, b: seq<Request>, c: seq<Request>)
    ensures a + (b + c) == (a + b) + c
  {
  }

  lemma DecreasingTail(batch: seq<Admission>)
    requires |batch| > 1 && StrictlyDecreasing(batch)
    ensures StrictlyDecreasing(batch[1..]) && batch[1..][0].vruntime < batch[0].vruntime
  {
  }

  /** The lane entries a batch produces, newest first. */
  function Pushed(batch: seq<Admission>, fifoExpire: int): (r: seq<Request>)
    ensures |r| == |batch|
  {
    if batch == [] then []
    else Pushed(batch[1..], fifoExpire) +
         [Request(batch[0].id, batch[0].vruntime, batch[0].jiffies + fifoExpire)]
  }

  /** Lane order: a batch of vruntimes that keeps improving on the threshold is
      stacked onto the lane in reverse, so the newest is served first; vrt_count
      grows by the batch's length and force_vrt ends up set exactly when it
      passes the soft capacity. */
  lemma {:induction false} LaneStack(d: CoopData, batch: seq<Admission>)
    requires batch != [] && StrictlyDecreasing(batch)
    requires batch[0].vruntime < d.lowestVrt
    ensures var d' := AdmitAll(d, batch);
      d'.vrtQueue == Pushed(batch, d.fifoExpire) + d.vrtQueue &&
      d'.queue == d.queue && d'.lowestVrt == batch[|batch| - 1].vruntime &&
      d'.vrtCount == d.vrtCount + |batch| &&
      d'.forceVrt == (d.forceVrt || d.vrtCount + |batch| > VrtQueueLen) &&
      d'.fifoExpire == d.fifoExpire && d'.vrtExpire == d.vrtExpire &&
      d'.forceExpire == d.forceExpire
    decreases |batch|
  {
    var a := batch[0];
    var rq := Request(a.id, a.vruntime, a.jiffies + d.fifoExpire);
    var d1 := d.(vrtQueue := [rq] + d.vrtQueue, vrtCount := d.vrtCount + 1, lowestVrt := a.vruntime,
                 forceVrt := d.forceVrt || d.vrtCount + 1 > VrtQueueLen);
    assert AdmitAll(d, batch) == AdmitAll(d1, batch[1..]) by {
      assert AddRequest(d, a.id, a.vruntime, a.jiffies) == d1;
    }
    if |batch| > 1 {
      assert StrictlyDecreasing(batch[1..]) && batch[1..][0].vruntime < d1.lowestVrt by {
        DecreasingTail(batch);
      }
      LaneStack(d1, batch[1..]);
      assert batch[1..][|batch[1..]| - 1] == batch[|batch| - 1];
      assert Pushed(batch, d.fifoExpire) == Pushed(batch[1..], d.fifoExpire) + [rq];
      AppendAssoc(Pushed(batch[1..], d.fifoExpire), [rq], d.vrtQueue);
    } else {
      assert AdmitAll(d1, batch[1..]) == d1;
    }
  }

  /** Eleven ever-improving admissions into an idle elevator overflow the lane and
      raise force_vrt; with the FIFO empty the next four dispatches still take the
      ordinary lane path, serving the four newest, and the flag stays raised. */
  lemma OverflowWithEmptyFifo(forceExpireInit: int, batch: seq<Admission>)
    requires |batch| == VrtQueueLen + 1 && StrictlyDecreasing(batch)
    requires batch[0].vruntime < U64Max
    ensures var d := AdmitAll(InitData(forceExpireInit), batch);
      d.forceVrt && d.queue == [] && |d.vrtQueue| == VrtQueueLen + 1 &&
      var r := Drain(d, 4);
      r.paths == Times(VruntimeRequest, 4) && r.data.forceVrt &&
      r.released == Pushed(batch, 0)[..4]
  {
    var d0 := InitData(forceExpireInit);
    var d := AdmitAll(d0, batch);
    assert d.vrtQueue == Pushed(batch, 0) && d.queue == [] && d.forceVrt by {
      LaneStack(d0, batch);
    }
    EmptyFifoRun(d, 4);
  }

  /** The same overflow with a request waiting in the FIFO: the next four
      dispatches are the forced drain, serving the four newest lane requests, and
      the fourth clears force_vrt. */
  lemma OverflowForcesDrain(d: CoopData, batch: seq<Admission>)
    requires d.queue != [] && d.vrtQueue == [] && d.vrtCount == 0
    requires !d.forceVrt && d.forceExpire == 0
    requires |batch| == VrtQueueLen + 1 && StrictlyDecreasing(batch)
    requires batch[0].vruntime < d.lowestVrt
    ensures var d' := AdmitAll(d, batch);
      d'.forceVrt &&
      var r := Drain(d', 4);
      r.paths == Times(ForceVrtRequest, 4) && !r.data.forceVrt &&
      r.released == Pushed(batch, d.fifoExpire)[..4] &&
      r.data.queue == d.queue && r.data.fifoExpire == d.fifoExpire &&
      r.data.vrtExpire == d.vrtExpire
  {
    LaneStack(d, batch);
    var d' := AdmitAll(d, batch);
    ForcedDrain(d');
    assert d'.vrtQueue == Pushed(batch, d.fifoExpire);
  }

  // ---------------------------------------------------------------------------
  // Arbitrary interleavings of the elevator callbacks

  datatype Event = Admit(id: RequestId, vruntime: U64, jiffies: nat) | Release | Merge(next: Handle)

  /** The outcome of one callback or of a run of them: the final state, what was
      admitted (all of it and the part routed to the FIFO), what dispatch
      released (all of it and the part taken from the FIFO), what merge-away
      removed, and how many of those removals hit the lane. */
  datatype Trace = Trace(
    data: CoopData,
    admitted: seq<Request>,
    fifoAdmitted: seq<Request>,
    released: seq<Request>,
    fifoReleased: seq<Request>,
    merged: seq<Request>,
    laneMerges: nat)

  function Merged(d: CoopData, next: Handle): seq<Request>
  {
    if ValidHandle(d, next) then [ListOf(d, next.list)[next.index]] else []
  }

  /** The tally one admission leaves. */
  function AdmitEffect(d: CoopData, id: RequestId, v: U64, j: nat): (o: Trace)
    ensures Pending(d) + multiset(o.admitted) == Pending(o.data) + multiset(o.released) + multiset(o.merged)
    ensures d.queue + o.fifoAdmitted == o.fifoReleased + o.data.queue
    ensures o.data.vrtCount - |o.data.vrtQueue| == d.vrtCount - |d.vrtQueue| + o.laneMerges
  {
    var rq := Stamp(d, id, v, j);
    Trace(AddRequest(d, id, v, j), [rq], if v < d.lowestVrt then [] else [rq], [], [], [], 0)
  }

  /** One dispatch call takes the FIFO's head when it takes the FIFO path, and
      leaves the FIFO alone otherwise. */
  lemma DispatchFifoOrder(d: CoopData)
    ensures var s := Dispatch(d);
      d.queue == (if s.path == FifoRequest then Released(s) else []) + s.data.queue
  {
    var s := Dispatch(d);
    if s.path == FifoRequest {
      assert d.queue == [d.queue[0]] + d.queue[1..];
    } else {
      assert s.data.queue == d.queue;
    }
  }

  /** The tally one dispatch call leaves. */
  function ReleaseEffect(d: CoopData): (o: Trace)
    ensures Pending(d) + multiset(o.admitted) == Pending(o.data) + multiset(o.released) + multiset(o.merged)
    ensures d.queue + o.fifoAdmitted == o.fifoReleased + o.data.queue
    ensures o.data.vrtCount - |o.data.vrtQueue| == d.vrtCount - |d.vrtQueue| + o.laneMerges
  {
    var s := Dispatch(d);
    DispatchReleases(d);
    DispatchFifoOrder(d);
    Trace(s.data, [], [], Released(s), if s.path == FifoRequest then Released(s) else [], [], 0)
  }

  /** The tally one merge-away leaves. */
  function MergeEffect(d: CoopData, h: Handle): (o: Trace)
    ensures Pending(d) + multiset(o.admitted) == Pending(o.data) + multiset(o.released) + multiset(o.merged)
    ensures h.list == Vrt ==> d.queue + o.fifoAdmitted == o.fifoReleased + o.data.queue
    ensures o.data.vrtCount - |o.data.vrtQueue| == d.vrtCount - |d.vrtQueue| + o.laneMerges
  {
    var d' := MergedRequests(d, h);
    if !ValidHandle(d, h) then
      Trace(d', [], [], [], [], [], 0)
    else
      var q := ListOf(d, h.list);
      assert |ListOf(d', h.list)| + 1 == |q| && Pending(d') + multiset{q[h.index]} == Pending(d);
      assert Merged(d, h) == [q[h.index]];
      Trace(d', [], [], [], [], [q[h.index]], if h.list == Vrt then 1 else 0)
  }

  function Effect(d: CoopData, e: Event): (o: Trace)
    ensures Pending(d) + multiset(o.admitted) == Pending(o.data) + multiset(o.released) + multiset(o.merged)
    ensures !(e.Merge? && e.next.list == Fifo) ==> d.queue + o.fifoAdmitted == o.fifoReleased + o.data.queue
    ensures o.data.vrtCount - |o.data.vrtQueue| == d.vrtCount - |d.vrtQueue| + o.laneMerges
    ensures Valid(d) ==> Valid(o.data)
  {
    match e
    case Admit(id, v, j) => AdmitEffect(d, id, v, j)
    case Release => ReleaseEffect(d)
    case Merge(h) => MergeEffect(d, h)
  }

  /** One tally followed by another. */
  function Then(a: Trace, b: Trace): Trace
  {
    Trace(b.data, a.admitted + b.admitted, a.fifoAdmitted + b.fifoAdmitted,
          a.released + b.released, a.fifoReleased + b.fifoReleased,
          a.merged + b.merged, a.laneMerges + b.laneMerges)
  }

  /** A run of callbacks, each tallied by `effect`. */
  function RunWith(effect: (CoopData, Event) -> Trace, d: CoopData, evs: seq<Event>): Trace
    decreases |evs|
  {
    if evs == [] then Trace(d, [], [], [], [], [], 0)
    else
      var o := effect(d, evs[0]);
      Then(o, RunWith(effect, o.data, evs[1..]))
  }

  function Run(d: CoopData, evs: seq<Event>): Trace
  {
    RunWith(Effect, d, evs)
  }

  lemma RunStep(d: CoopData, evs: seq<Event>)
    requires evs != []
    ensures Run(d, evs) == Then(Effect(d, evs[0]), Run(Effect(d, evs[0]).data, evs[1..]))
  {
  }

  /** Every state a run reaches from a valid state is valid. */
  lemma {:induction false} RunKeepsValid(d: CoopData, evs: seq<Event>)
    requires Valid(d)
    ensures Valid(Run(d, evs).data)
    decreases |evs|
  {
    if evs != [] {
      RunStep(d, evs);
      RunKeepsValid(Effect(d, evs[0]).data, evs[1..]);
    }
  }

  /** No loss, no duplication: every request ever admitted is still queued,
      or was released by exactly one dispatch, or was removed by exactly one
      merge. */
  lemma {:induction false} Conservation(d: CoopData, evs: seq<Event>)
    ensures var t := Run(d, evs);
      Pending(d) + multiset(t.admitted) ==
      Pending(t.data) + multiset(t.released) + multiset(t.merged)
    decreases |evs|
  {
    if evs != [] {
      var o := Effect(d, evs[0]);
      RunStep(d, evs);
      Conservation(o.data, evs[1..]);
      var t := Run(o.data, evs[1..]);
      calc {
        Pending(d) + multiset(o.admitted + t.admitted);
        (Pending(d) + multiset(o.admitted)) + multiset(t.admitted);
        (Pending(o.data) + multiset(o.released) + multiset(o.merged)) + multiset(t.admitted);
        (Pending(o.data) + multiset(t.admitted)) + multiset(o.released) + multiset(o.merged);
        (Pending(t.data) + multiset(t.released) + multiset(t.merged)) + multiset(o.released) + multiset(o.merged);
        Pending(t.data) + multiset(o.released + t.released) + multiset(o.merged + t.merged);
      }
    } else {
      assert Run(d, evs) == Trace(d, [], [], [], [], [], 0);
    }
  }

  predicate NoFifoMerge(evs: seq<Event>)
  {
    forall i :: 0 <= i < |evs| ==> !(evs[i].Merge? && evs[i].next.list == Fifo)
  }

  lemma NoFifoMergeTail(evs: seq<Event>)
    requires evs != [] && NoFifoMerge(evs)
    ensures !(evs[0].Merge? && evs[0].next.list == Fifo) && NoFifoMerge(evs[1..])
  {
    forall i | 0 <= i < |evs[1..]| ensures !(evs[1..][i].Merge? && evs[1..][i].next.list == Fifo) {
      assert evs[1..][i] == evs[i + 1];
    }
  }

  /** Two queue-order steps compose. */
  lemma Chain(held: seq<Request>, in1: seq<Request>, in2: seq<Request>,
              out1: seq<Request>, out2: seq<Request>, mid: seq<Request>, last: seq<Request>)
    requires held + in1 == out1 + mid
    requires mid + in2 == out2 + last
    ensures held + (in1 + in2) == (out1 + out2) + last
  {
    calc {
      held + (in1 + in2);
      (held + in1) + in2;
      (out1 + mid) + in2;
      out1 + (mid + in2);
      out1 + (out2 + last);
    }
  }

  /** FIFO order: unless merge-away takes requests out of the FIFO, the FIFO
      releases exactly what it held followed by what was routed to it, in that
      order; what has not been released yet is still queued behind. */
  lemma {:induction false} FifoOrder(d: CoopData, evs: seq<Event>)
    requires NoFifoMerge(evs)
    ensures var t := Run(d, evs);
      d.queue + t.fifoAdmitted == t.fifoReleased + t.data.queue
    decreases |evs|
  {
    if evs != [] {
      NoFifoMergeTail(evs);
      var o := Effect(d, evs[0]);
      RunStep(d, evs);
      FifoOrder(o.data, evs[1..]);
      var t := Run(o.data, evs[1..]);
      Chain(d.queue, o.fifoAdmitted, t.fifoAdmitted, o.fifoReleased, t.fifoReleased,
            o.data.queue, t.data.queue);
    }
  }

  /** vrt_count drift: admission and dispatch keep vrt_count - |lane| fixed, and
      each merge-away of a lane resident raises it by one. */
  lemma {:induction false} VrtCountDrift(d: CoopData, evs: seq<Event>)
    ensures var t := Run(d, evs);
      t.data.vrtCount - |t.data.vrtQueue| == d.vrtCount - |d.vrtQueue| + t.laneMerges
    decreases |evs|
  {
    if evs != [] {
      RunStep(d, evs);
      VrtCountDrift(Effect(d, evs[0]).data, evs[1..]);
    }
  }

  // ---------------------------------------------------------------------------
  // Neighbour queries

  /** former and latter are inverse steps within one list. */
  lemma FormerLatterInverse(d: CoopData, h: Handle)
    requires ValidHandle(d, h) && h.index > 0
    ensures var p := Handle(h.list, h.index - 1);
      ValidHandle(d, p) &&
      FormerRequest(d, h) == Some(ListOf(d, p.list)[p.index]) &&
      LatterRequest(d, p) == Some(ListOf(d, h.list)[h.index])
  {
  }

  function AsNeighbour(r: Option<Request>): Neighbour
  {
    match r
    case Some(rq) => Entry(rq)
    case None => Null
  }

  /** On the FIFO the queries as written already behave as intended. */
  lemma AsWrittenAgreesOnFifo(d: CoopData, h: Handle)
    requires ValidHandle(d, h) && h.list == Fifo
    ensures FormerAsWritten(d, h) == AsNeighbour(FormerRequest(d, h))
    ensures LatterAsWritten(d, h) == AsNeighbour(LatterRequest(d, h))
  {
  }

  /** One admission into an idle elevator puts the request at the lane's front,
      and the query as written then returns the container of the lane's list head
      for its predecessor, where the intended answer is "none". */
  lemma FormerOfLaneFront(jiffies: nat)
    ensures var d := AddRequest(InitData(0), 1, 100, jiffies);
      ValidHandle(d, Handle(Vrt, 0)) &&
      FormerAsWritten(d, Handle(Vrt, 0)) == HeadOf(Vrt) &&
      LatterAsWritten(d, Handle(Vrt, 0)) == HeadOf(Vrt) &&
      FormerRequest(d, Handle(Vrt, 0)) == None &&
      LatterRequest(d, Handle(Vrt, 0)) == None
  {
  }
}
