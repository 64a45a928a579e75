/** The disk-head schedulers processFIFO and processSSTF: each drains the
    pending-operation queue one operation at a time, charges the seek
    |head - address|, hands the operation to the service step and moves the
    head to its address. The service step itself (console output under a
    semaphore) is abstract here: the operations handed to it are returned,
    in order, with their recorded seek times. */
module DiskScheduling {
  import opened Algorithms

  /** A pending disk operation; seekTime is filled in when it is serviced. */
  datatype DiskOperation = DiskOperation(
    processID: int,
    diskAddress: int,
    track: int,
    operationType: string,
    seekTime: int)

  function Abs(x: int): nat
  {
    if x < 0 then -x else x
  }

  /** The seek charged for servicing op with the head at `head`. */
  function SeekDistance(head: int, op: DiskOperation): nat
  {
    Abs(head - op.diskAddress)
  }

  /** Where the head rests after servicing ops in order from `head`. */
  function HeadAfter(head: int, ops: seq<DiskOperation>): int
  {
    if ops == [] then head else ops[|ops| - 1].diskAddress
  }

  /** The operations as the service step receives them when ops are serviced
      in this order from `head`, each with its seek time recorded. */
  function Serviced(head: int, ops: seq<DiskOperation>): (r: seq<DiskOperation>)
    ensures |r| == |ops|
    decreases |ops|
  {
    if ops == [] then []
    else
      var n := |ops| - 1;
      Serviced(head, ops[..n]) + [ops[n].(seekTime := SeekDistance(HeadAfter(head, ops[..n]), ops[n]))]
  }

  lemma ServicedSnoc(head: int, ops: seq<DiskOperation>, op: DiskOperation)
    ensures Serviced(head, ops + [op]) ==
      Serviced(head, ops) + [op.(seekTime := SeekDistance(HeadAfter(head, ops), op))]
  {
    assert (ops + [op])[..|ops|] == ops;
  }

  /** Servicing in order changes nothing but the seek times, and the k-th
      operation is charged the distance from where the head was before it:
      the starting head, or the address of the (k-1)-th operation. */
  lemma {:induction false} ServicedAt(head: int, ops: seq<DiskOperation>, k: nat)
    requires k < |ops|
    ensures Serviced(head, ops)[k] ==
      ops[k].(seekTime := SeekDistance(if k == 0 then head else ops[k - 1].diskAddress, ops[k]))
    decreases |ops|
  {
    var n := |ops| - 1;
    if k < n {
      ServicedAt(head, ops[..n], k);
    }
  }

  /** The sum of the recorded seek times. */
  function TotalSeek(ops: seq<DiskOperation>): int
  {
    if ops == [] then 0 else TotalSeek(ops[..|ops| - 1]) + ops[|ops| - 1].seekTime
  }

  lemma TotalSeekSnoc(ops: seq<DiskOperation>, op: DiskOperation)
    ensures TotalSeek(ops + [op]) == TotalSeek(ops) + op.seekTime
  {
    assert (ops + [op])[..|ops|] == ops;
  }

  /** Servicing one more operation appends it with the seek from where
      the head was, adds that seek to the total and moves the head to it. */
  lemma ServiceOneMore(head: int, done: seq<DiskOperation>, op: DiskOperation)
    ensures var seek := SeekDistance(HeadAfter(head, done), op);
      && Serviced(head, done + [op]) == Serviced(head, done) + [op.(seekTime := seek)]
      && TotalSeek(Serviced(head, done + [op])) == TotalSeek(Serviced(head, done)) + seek
      && HeadAfter(head, done + [op]) == op.diskAddress
  {
    var seek := SeekDistance(HeadAfter(head, done), op);
    ServicedSnoc(head, done, op);
    TotalSeekSnoc(Serviced(head, done), op.(seekTime := seek));
  }

  /** The distance the head travels visiting the addresses of ops in order,
      starting from `head`. */
  function PathLength(head: int, ops: seq<DiskOperation>): nat
    decreases |ops|
  {
    if ops == [] then 0 else Abs(head - ops[0].diskAddress) + PathLength(ops[0].diskAddress, ops[1..])
  }

  lemma {:induction false} PathLengthSnoc(head: int, ops: seq<DiskOperation>, op: DiskOperation)
    ensures PathLength(head, ops + [op]) == PathLength(head, ops) + SeekDistance(HeadAfter(head, ops), op)
    decreases |ops|
  {
    if ops == [] {
      assert [op][1..] == [];
    } else {
      assert (ops + [op])[1..] == ops[1..] + [op];
      PathLengthSnoc(ops[0].diskAddress, ops[1..], op);
    }
  }

  /** The recorded seek times add up to the distance the head travels. */
  lemma {:induction false} TotalSeekIsPathLength(head: int, ops: seq<DiskOperation>)
    ensures TotalSeek(Serviced(head, ops)) == PathLength(head, ops)
    decreases |ops|
  {
    if ops != [] {
      var n := |ops| - 1;
      TotalSeekIsPathLength(head, ops[..n]);
      var op := ops[n].(seekTime := SeekDistance(HeadAfter(head, ops[..n]), ops[n]));
      TotalSeekSnoc(Serviced(head, ops[..n]), op);
      PathLengthSnoc(head, ops[..n], ops[n]);
      assert ops[..n] + [ops[n]] == ops;
    }
  }

  /** The total seek is never less than the distance between where the head
      starts and where it ends (the head cannot travel less than that). */
  lemma {:induction false} TotalSeekCoversDisplacement(head: int, ops: seq<DiskOperation>)
    ensures TotalSeek(Serviced(head, ops)) >= Abs(head - HeadAfter(head, ops))
    decreases |ops|
  {
    if ops != [] {
      var n := |ops| - 1;
      var s := Serviced(head, ops);
      TotalSeekCoversDisplacement(head, ops[..n]);
      assert s[..n] == Serviced(head, ops[..n]);
    }
  }

  /** The comparator processSSTF passes to min_element. */
  function SstfLess(head: int): (DiskOperation, DiskOperation) -> bool
  {
    (a: DiskOperation, b: DiskOperation) => Abs(head - a.diskAddress) < Abs(head - b.diskAddress)
  }

  /** The order processSSTF services the queue in: repeatedly the first
      pending operation nearest the head, which then moves there. */
  function SstfOrder(head: int, queue: seq<DiskOperation>): (r: seq<DiskOperation>)
    ensures |r| == |queue|
    decreases |queue|
  {
    if queue == [] then []
    else
      var i := MinElement(queue, SstfLess(head));
      [queue[i]] + SstfOrder(queue[i].diskAddress, Erase(queue, i))
  }

  /** One iteration of processSSTF moves the nearest operation from the
      queue to the end of what is done, without changing the overall order. */
  lemma SstfOrderStep(head: int, queue: seq<DiskOperation>, done: seq<DiskOperation>, i: nat)
    requires queue != [] && i == MinElement(queue, SstfLess(head))
    ensures done + SstfOrder(head, queue) == (done + [queue[i]]) + SstfOrder(queue[i].diskAddress, Erase(queue, i))
  {
  }

  /** SSTF services every queued operation exactly once. */
  lemma {:induction false} SstfOrderIsPermutation(head: int, queue: seq<DiskOperation>)
    ensures multiset(SstfOrder(head, queue)) == multiset(queue)
    decreases |queue|
  {
    if queue != [] {
      var i := MinElement(queue, SstfLess(head));
      SstfOrderIsPermutation(queue[i].diskAddress, Erase(queue, i));
      EraseMultiset(queue, i);
    }
  }

  /** SSTF services first the first pending operation at the least distance
      from the head; the rest follow from where that operation left the head. */
  lemma SstfServicesNearestFirst(head: int, queue: seq<DiskOperation>)
    requires queue != []
    ensures exists i ::
      && 0 <= i < |queue|
      && SstfOrder(head, queue) == [queue[i]] + SstfOrder(queue[i].diskAddress, Erase(queue, i))
      && (forall j :: 0 <= j < |queue| ==> SeekDistance(head, queue[i]) <= SeekDistance(head, queue[j]))
      && (forall j :: 0 <= j < i ==> SeekDistance(head, queue[i]) < SeekDistance(head, queue[j]))
  {
    var i := MinElement(queue, SstfLess(head));
    MinElementLeast(queue, SstfLess(head), (op: DiskOperation) => SeekDistance(head, op));
    assert SstfOrder(head, queue) == [queue[i]] + SstfOrder(queue[i].diskAddress, Erase(queue, i));
  }

  /** A worked queue for the head at 50: addresses 90, 40 and 60. */
  function ScenarioQueue(): seq<DiskOperation>
  {
    [DiskOperation(0, 90, 90, "read", 0), DiskOperation(1, 40, 40, "write", 0), DiskOperation(2, 60, 60, "read", 0)]
  }

  /** FIFO on the worked queue seeks 40 + 50 + 20. */
  lemma FifoScenario()
    ensures TotalSeek(Serviced(50, ScenarioQueue())) == 110
  {
    var q := ScenarioQueue();
    TotalSeekIsPathLength(50, q);
    assert q[1..][1..][1..] == [];
    assert PathLength(60, q[1..][1..][1..]) == 0;
    assert PathLength(40, q[1..][1..]) == 20;
    assert PathLength(90, q[1..]) == 70;
  }

  /** SSTF on the worked queue breaks the tie between 40 and 60 (both 10
      away) in favour of the earlier-queued 40, then goes to 60 and 90. */
  lemma SstfScenarioOrder()
    ensures var q := ScenarioQueue(); SstfOrder(50, q) == [q[1], q[2], q[0]]
  {
    var q := ScenarioQueue();
    var a, c := q[0], q[2];
    assert q[0].diskAddress == 90 && q[1].diskAddress == 40 && q[2].diskAddress == 60;
    assert Abs(50 - 90) == 40 && Abs(50 - 40) == 10 && Abs(50 - 60) == 10 && Abs(40 - 90) == 50 && Abs(40 - 60) == 20;
    assert SstfLess(50)(q[1], q[0]);
    assert !SstfLess(50)(q[2], q[1]);
    assert MinElementFrom(q, SstfLess(50), 1, 3) == 1;
    assert MinElementFrom(q, SstfLess(50), 1, 2) == 1;
    assert MinElement(q, SstfLess(50)) == 1;
    assert Erase(q, 1) == [a, c];
    assert SstfLess(40)(c, a);
    assert MinElementFrom([a, c], SstfLess(40), 1, 2) == 1;
    assert MinElement([a, c], SstfLess(40)) == 1;
    assert Erase([a, c], 1) == [a];
    assert SstfOrder(60, [a]) == [a];
  }

  /** SSTF on the worked queue seeks 10 + 20 + 30, against FIFO's 110. */
  lemma SstfScenario()
    ensures TotalSeek(Serviced(50, SstfOrder(50, ScenarioQueue()))) == 60
  {
    var q := ScenarioQueue();
    SstfScenarioOrder();
    var order := [q[1], q[2], q[0]];
    TotalSeekIsPathLength(50, order);
    assert order[1..][1..][1..] == [];
    assert PathLength(90, order[1..][1..][1..]) == 0;
    assert PathLength(60, order[1..][1..]) == 30;
    assert PathLength(40, order[1..]) == 50;
  }

  /** The pending operations and the head, shared by the schedulers. */
  class DiskScheduler {
    var diskQueue: seq<DiskOperation>
    var currentHeadPosition: int

    constructor (queue: seq<DiskOperation>, head: int)
      ensures diskQueue == queue && currentHeadPosition == head
    {
      diskQueue := queue;
      currentHeadPosition := head;
    }

    /** processFIFO: service the queue front to back. Returns the total and
        average seek, the number of operations and what was serviced. */
    method ProcessFIFO() returns (totalSeekTime: int, operationCount: int, averageSeekTime: int,
                                  serviced: seq<DiskOperation>)
      modifies this
      ensures diskQueue == []
      ensures serviced == Serviced(old(currentHeadPosition), old(diskQueue))
      ensures currentHeadPosition == HeadAfter(old(currentHeadPosition), old(diskQueue))
      ensures operationCount == |old(diskQueue)|
      ensures totalSeekTime == TotalSeek(serviced)
      ensures averageSeekTime == if operationCount != 0 then totalSeekTime / operationCount else 0
    {
      ghost var head0, queue0 := currentHeadPosition, diskQueue;
      ghost var done: seq<DiskOperation> := [];
      totalSeekTime, operationCount, serviced := 0, 0, [];
      while diskQueue != []
        invariant done + diskQueue == queue0
        invariant operationCount == |done|
        invariant serviced == Serviced(head0, done)
        invariant currentHeadPosition == HeadAfter(head0, done)
        invariant totalSeekTime == TotalSeek(serviced)
        decreases |diskQueue|
      {
        var op := diskQueue[0];
        var seekTime := Abs(currentHeadPosition - op.diskAddress);
        ServiceOneMore(head0, done, op);
        assert (done + [op]) + diskQueue[1..] == queue0;
        totalSeekTime := totalSeekTime + seekTime;
        serviced := serviced + [op.(seekTime := seekTime)];  // processDiskOperation(op)
        currentHeadPosition := op.diskAddress;
        done := done + [op];
        diskQueue := diskQueue[1..];
        operationCount := operationCount + 1;
      }
      assert done + [] == done;
      averageSeekTime := if operationCount != 0 then totalSeekTime / operationCount else 0;
    }

    /** processSSTF: repeatedly service the first pending operation nearest
        the head. Returns the same figures as ProcessFIFO. */
    method ProcessSSTF() returns (totalSeekTime: int, operationCount: int, averageSeekTime: int,
                                  serviced: seq<DiskOperation>)
      modifies this
      ensures diskQueue == []
      ensures serviced == Serviced(old(currentHeadPosition), SstfOrder(old(currentHeadPosition), old(diskQueue)))
      ensures currentHeadPosition ==
        HeadAfter(old(currentHeadPosition), SstfOrder(old(currentHeadPosition), old(diskQueue)))
      ensures operationCount == |old(diskQueue)|
      ensures totalSeekTime == TotalSeek(serviced)
      ensures averageSeekTime == if operationCount != 0 then totalSeekTime / operationCount else 0
    {
      ghost var head0, queue0 := currentHeadPosition, diskQueue;
      ghost var done: seq<DiskOperation> := [];
      totalSeekTime, operationCount, serviced := 0, 0, [];
      while diskQueue != []
        invariant done + SstfOrder(currentHeadPosition, diskQueue) == SstfOrder(head0, queue0)
        invariant operationCount == |done| == |queue0| - |diskQueue|
        invariant serviced == Serviced(head0, done)
        invariant currentHeadPosition == HeadAfter(head0, done)
        invariant totalSeekTime == TotalSeek(serviced)
        decreases |diskQueue|
      {
        var it := MinElement(diskQueue, SstfLess(currentHeadPosition));
        var op := diskQueue[it];
        var seekTime := Abs(currentHeadPosition - op.diskAddress);
        ServiceOneMore(head0, done, op);
        SstfOrderStep(currentHeadPosition, diskQueue, done, it);
        totalSeekTime := totalSeekTime + seekTime;
        serviced := serviced + [op.(seekTime := seekTime)];  // processDiskOperation(op)
        currentHeadPosition := op.diskAddress;
        done := done + [op];
        diskQueue := Erase(diskQueue, it);
        operationCount := operationCount + 1;
      }
      assert done + [] == done;
      averageSeekTime := if operationCount != 0 then totalSeekTime / operationCount else 0;
    }
  }
}
