/** The simulation's global state (the process table, the frame table, the
    access trace and the working-set time bound) as one object, and the
    operations that walk the trace: runSimulation, processPage,
    processWorkset and processDisk. */
module Simulation {
  import opened Algorithms
  import opened Replacement
  import opened Processes

  /** A loaded frame of the frame table. */
  datatype Frame = Frame(id: int, pageNumber: int, processID: int)

  /** Every trace entry names a process by its position in the process table. */
  predicate TraceFits(trace: seq<DPT>, processCount: int)
  {
    forall j :: 0 <= j < |trace| ==> 0 <= trace[j].processID < processCount
  }

  /** One iteration of runSimulation: the entry's process, unless finished,
      performs accessPage. */
  function ReplayStep(states: seq<ProcessState>, e: DPT, algorithm: string): (r: seq<ProcessState>)
    requires 0 <= e.processID < |states|
    ensures |r| == |states|
  {
    var s := states[e.processID];
    if s.isFinished then states
    else states[e.processID := AccessStep(s, e.pageNumber, e.time, algorithm)]
  }

  /** runSimulation: the trace entries applied in order. */
  function Replay(states: seq<ProcessState>, trace: seq<DPT>, algorithm: string): (r: seq<ProcessState>)
    requires TraceFits(trace, |states|)
    ensures |r| == |states|
    decreases |trace|
  {
    if trace == [] then states
    else
      var n := |trace| - 1;
      ReplayStep(Replay(states, trace[..n], algorithm), trace[n], algorithm)
  }

  /** A process within its capacity, which is at least one frame. */
  predicate WithinCapacity(s: ProcessState)
  {
    s.size >= 1 && |s.pages| <= s.size
  }

  /** Under every policy but OPT, a replay that starts with all processes
      within capacity keeps them within capacity. */
  lemma {:induction false} ReplayKeepsCapacity(states: seq<ProcessState>, trace: seq<DPT>, algorithm: string)
    requires TraceFits(trace, |states|)
    requires Bounded(algorithm)
    requires forall i :: 0 <= i < |states| ==> WithinCapacity(states[i])
    ensures forall i :: 0 <= i < |states| ==> WithinCapacity(Replay(states, trace, algorithm)[i])
    decreases |trace|
  {
    if trace != [] {
      var n := |trace| - 1;
      var before := Replay(states, trace[..n], algorithm);
      ReplayKeepsCapacity(states, trace[..n], algorithm);
      var e := trace[n];
      var s := before[e.processID];
      if !s.isFinished {
        AccessKeepsCapacity(s, e.pageNumber, e.time, algorithm);
        assert WithinCapacity(AccessStep(s, e.pageNumber, e.time, algorithm));
      }
    }
  }

  /** A replay changes no process's identity, capacity or finished flag, and
      a finished process not at all. */
  lemma {:induction false} ReplayLeavesFinished(states: seq<ProcessState>, trace: seq<DPT>, algorithm: string)
    requires TraceFits(trace, |states|)
    ensures var r := Replay(states, trace, algorithm);
      forall i :: 0 <= i < |r| ==>
        && r[i].id == states[i].id && r[i].size == states[i].size
        && r[i].isFinished == states[i].isFinished
        && (states[i].isFinished ==> r[i] == states[i])
    decreases |trace|
  {
    if trace != [] {
      ReplayLeavesFinished(states, trace[..|trace| - 1], algorithm);
    }
  }

  /** A process that no trace entry names is left as it was. */
  lemma {:induction false} ReplayLeavesUnnamed(states: seq<ProcessState>, trace: seq<DPT>, algorithm: string, i: nat)
    requires TraceFits(trace, |states|)
    requires i < |states|
    requires forall j :: 0 <= j < |trace| ==> trace[j].processID != i
    ensures Replay(states, trace, algorithm)[i] == states[i]
    decreases |trace|
  {
    if trace != [] {
      ReplayLeavesUnnamed(states, trace[..|trace| - 1], algorithm, i);
    }
  }

  /** How many of the trace's entries for process i miss: the process is
      unfinished and the page is not resident just before the entry. */
  function MissCount(states: seq<ProcessState>, trace: seq<DPT>, algorithm: string, i: nat): nat
    requires TraceFits(trace, |states|)
    requires i < |states|
    decreases |trace|
  {
    if trace == [] then 0
    else
      var n := |trace| - 1;
      var before := Replay(states, trace[..n], algorithm);
      var e := trace[n];
      MissCount(states, trace[..n], algorithm, i) +
        (if e.processID == i && !before[i].isFinished && !Resident(before[i].pages, e.pageNumber) then 1 else 0)
  }

  /** A process's fault count grows by exactly the number of its trace
      entries that miss. */
  lemma {:induction false} ReplayCountsMisses(states: seq<ProcessState>, trace: seq<DPT>, algorithm: string, i: nat)
    requires TraceFits(trace, |states|)
    requires i < |states|
    ensures Replay(states, trace, algorithm)[i].faultCount == states[i].faultCount + MissCount(states, trace, algorithm, i)
    decreases |trace|
  {
    if trace != [] {
      var n := |trace| - 1;
      var before := Replay(states, trace[..n], algorithm);
      ReplayCountsMisses(states, trace[..n], algorithm, i);
      var e := trace[n];
      AccessCountsMisses(before[e.processID], e.pageNumber, e.time, algorithm);
    }
  }

  /** The first three accesses of a worked LIFO trace on a process with two
      frames: pages 1 and 2 fault in, then page 1 hits. */
  lemma LifoScenarioFill()
    ensures var s0 := ProcessState(0, 2, false, 0, SizeMax, 0, []);
      AccessStep(AccessStep(AccessStep(s0, 1, 0, Lifo), 2, 1, Lifo), 1, 2, Lifo) ==
        ProcessState(0, 2, false, 2, 2, 2, [Touch(NewPage(0, 1, 0), 2), NewPage(0, 2, 1)])
  {
    var p1, p2 := NewPage(0, 1, 0), NewPage(0, 2, 1);
    var s0 := ProcessState(0, 2, false, 0, SizeMax, 0, []);
    var s1 := ProcessState(0, 2, false, 1, SizeMax, 0, [p1]);
    var s2 := ProcessState(0, 2, false, 2, SizeMax, 0, [p1, p2]);
    assert AccessStep(s0, 1, 0, Lifo) == s1;
    assert FirstIndexOf(s1.pages, 2) == 1;
    assert AccessStep(s1, 2, 1, Lifo) == s2;
    assert FirstIndexOf(s2.pages, 1) == 0;
  }

  /** The worked LIFO trace continued with pages 3 and 1 at times 3 and 4:
      the fault on page 3 evicts page 2, the last inserted, not page 1; the
      process counts three faults and ends with pages 1 and 3 resident. */
  lemma LifoScenario()
    ensures var s0 := ProcessState(0, 2, false, 0, SizeMax, 0, []);
      var r := AccessStep(AccessStep(AccessStep(AccessStep(AccessStep(s0, 1, 0, Lifo), 2, 1, Lifo), 1, 2, Lifo), 3, 3, Lifo), 1, 4, Lifo);
      && r.faultCount == 3
      && |r.pages| == 2 && r.pages[0].pageNumber == 1 && r.pages[1].pageNumber == 3
      && r.minWorkset == 2 && r.maxWorkset == 2
  {
    LifoScenarioFill();
    var p1, p2, p3 := Touch(NewPage(0, 1, 0), 2), NewPage(0, 2, 1), NewPage(0, 3, 3);
    var s3 := ProcessState(0, 2, false, 2, 2, 2, [p1, p2]);
    var s4 := ProcessState(0, 2, false, 3, 2, 2, [p1, p3]);
    assert FirstIndexOf(s3.pages, 3) == 2;
    assert Evict(s3.pages, Lifo, 3, None) == [p1];
    assert AccessStep(s3, 3, 3, Lifo) == s4;
    assert FirstIndexOf(s4.pages, 1) == 0;
  }

  /** processWorkset on snapshots: every process keeps the pages last
      accessed no later than x. */
  function WorksetStates(states: seq<ProcessState>, x: int): (r: seq<ProcessState>)
    ensures |r| == |states|
  {
    seq(|states|, i requires 0 <= i < |states| => states[i].(pages := AccessedBy(states[i].pages, x)))
  }

  /** processWorkset run twice leaves what it left the first time. */
  lemma WorksetIdempotent(states: seq<ProcessState>, x: int)
    ensures WorksetStates(WorksetStates(states, x), x) == WorksetStates(states, x)
  {
    forall i | 0 <= i < |states| {
      AccessedByIdempotent(states[i].pages, x);
    }
  }

  /** Whether the frame table holds a frame for that page of that process. */
  predicate HoldsFrame(frames: seq<Frame>, pageNumber: int, processID: int)
  {
    exists j :: 0 <= j < |frames| && frames[j].pageNumber == pageNumber && frames[j].processID == processID
  }

  /** processDisk on the frame table: append a frame, numbered by its
      position, unless one for that page of that process is there. */
  function WithFrame(frames: seq<Frame>, d: DPT): seq<Frame>
  {
    if HoldsFrame(frames, d.pageNumber, d.processID) then frames
    else frames + [Frame(|frames|, d.pageNumber, d.processID)]
  }

  /** Frames are numbered by position and no page of a process has two. */
  predicate FramesWellFormed(frames: seq<Frame>)
  {
    && (forall j :: 0 <= j < |frames| ==> frames[j].id == j)
    && (forall j, k :: 0 <= j < k < |frames| ==>
          frames[j].pageNumber != frames[k].pageNumber || frames[j].processID != frames[k].processID)
  }

  /** processDisk afterwards holds a frame for the entry, keeps every frame
      it had, adds at most one, and keeps the table well formed. */
  lemma WithFrameHolds(frames: seq<Frame>, d: DPT)
    ensures var r := WithFrame(frames, d);
      && HoldsFrame(r, d.pageNumber, d.processID)
      && |frames| <= |r| <= |frames| + 1
      && r[..|frames|] == frames
      && (FramesWellFormed(frames) ==> FramesWellFormed(r))
  {
    var r := WithFrame(frames, d);
    if !HoldsFrame(frames, d.pageNumber, d.processID) {
      assert r[|frames|].pageNumber == d.pageNumber && r[|frames|].processID == d.processID;
    }
  }

  /** processDisk is idempotent: a second call with the same entry changes nothing. */
  lemma WithFrameIdempotent(frames: seq<Frame>, d: DPT)
    ensures WithFrame(WithFrame(frames, d), d) == WithFrame(frames, d)
  {
    WithFrameHolds(frames, d);
  }

  /** find_if over the frame table for a page of a process. */
  method FindFrame(frames: seq<Frame>, pageNumber: int, processID: int) returns (i: nat)
    ensures i <= |frames|
    ensures i < |frames| ==> frames[i].pageNumber == pageNumber && frames[i].processID == processID
    ensures forall j :: 0 <= j < i ==> frames[j].pageNumber != pageNumber || frames[j].processID != processID
  {
    i := 0;
    while i < |frames| && !(frames[i].pageNumber == pageNumber && frames[i].processID == processID)
      invariant i <= |frames|
      invariant forall j :: 0 <= j < i ==> frames[j].pageNumber != pageNumber || frames[j].processID != processID
    {
      i := i + 1;
    }
  }

  /** Snapshots of a table of processes, position by position. */
  function StatesOf(processes: seq<Process>): (r: seq<ProcessState>)
    reads processes
    ensures |r| == |processes|
  {
    seq(|processes|, i requires 0 <= i < |processes| reads processes => processes[i].State())
  }

  /** The simulation context that stands for the program's globals. */
  class Simulator {
    var processes: seq<Process>
    var diskFrames: seq<Frame>
    var dptEntries: seq<DPT>
    var gX: int

    /** The process table holds each process once. */
    ghost predicate Valid()
      reads this
    {
      forall i, j :: 0 <= i < j < |processes| ==> processes[i] != processes[j]
    }

    /** A context over loaded processes and trace, with an empty frame table. */
    constructor (processes: seq<Process>, dptEntries: seq<DPT>, gX: int)
      requires forall i, j :: 0 <= i < j < |processes| ==> processes[i] != processes[j]
      ensures Valid()
      ensures this.processes == processes && this.dptEntries == dptEntries && this.gX == gX
      ensures diskFrames == []
    {
      this.processes := processes;
      this.dptEntries := dptEntries;
      this.gX := gX;
      diskFrames := [];
    }

    /** runSimulation. */
    method RunSimulation(algorithm: string)
      requires Valid()
      requires TraceFits(dptEntries, |processes|)
      modifies processes
      ensures StatesOf(processes) == Replay(old(StatesOf(processes)), dptEntries, algorithm)
    {
      ghost var initial := StatesOf(processes);
      var j := 0;
      while j < |dptEntries|
        invariant j <= |dptEntries|
        invariant StatesOf(processes) == Replay(initial, dptEntries[..j], algorithm)
      {
        var line := dptEntries[j];
        var proc := processes[line.processID];
        ghost var before := StatesOf(processes);
        if !proc.isFinished {
          proc.AccessPage(line.pageNumber, line.time, algorithm);
        }
        assert StatesOf(processes) == ReplayStep(before, line, algorithm);
        assert dptEntries[..j + 1][..j] == dptEntries[..j];
        j := j + 1;
      }
      assert dptEntries[..j] == dptEntries;
    }

    /** processPage. */
    method ProcessPage(idx: nat, algorithm: string)
      requires Valid()
      requires idx < |dptEntries| && 0 <= dptEntries[idx].processID < |processes|
      modifies processes[dptEntries[idx].processID]
      ensures var d := dptEntries[idx];
        StatesOf(processes) ==
          old(StatesOf(processes))[d.processID := ProcessPageStep(old(StatesOf(processes))[d.processID], d.pageNumber, d.time, algorithm)]
    {
      var dpt := dptEntries[idx];
      var proc := processes[dpt.processID];
      var i := proc.FindPage(dpt.pageNumber);
      if i == |proc.pages| {
        proc.PageFaultHandler(dpt.pageNumber, dpt.time, algorithm, 1, None);
      } else {
        proc.pages := proc.pages[i := Touch(proc.pages[i], dpt.time)];
      }
    }

    /** processWorkset. */
    method ProcessWorkset()
      requires Valid()
      modifies processes
      ensures StatesOf(processes) == WorksetStates(old(StatesOf(processes)), gX)
    {
      ghost var initial := StatesOf(processes);
      var j := 0;
      while j < |processes|
        invariant j <= |processes|
        invariant forall i :: 0 <= i < j ==>
          processes[i].State() == initial[i].(pages := AccessedBy(initial[i].pages, gX))
        invariant forall i :: j <= i < |processes| ==> processes[i].State() == initial[i]
      {
        processes[j].DropAccessedAfter(gX);
        j := j + 1;
      }
    }

    /** processDisk. */
    method ProcessDisk(idx: nat)
      requires idx < |dptEntries|
      modifies this`diskFrames
      ensures diskFrames == WithFrame(old(diskFrames), dptEntries[idx])
    {
      var dpt := dptEntries[idx];
      var found := FindFrame(diskFrames, dpt.pageNumber, dpt.processID);
      if found == |diskFrames| {
        diskFrames := diskFrames + [Frame(|diskFrames|, dpt.pageNumber, dpt.processID)];
      }
    }
  }
}
