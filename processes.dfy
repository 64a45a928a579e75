/** One process's resident pages and counters, and the three operations that
    change them in place: replacePage, pageFaultHandler and accessPage. The
    functions over ProcessState say what each operation does to a snapshot;
    the class Process performs the operations and is proved against them. */
module Processes {
  import opened Algorithms
  import opened Replacement

  /** SIZE_MAX of a 64-bit size_t, the initial minimum working-set size. */
  const SizeMax: int := 0xFFFF_FFFF_FFFF_FFFF

  /** static_cast<size_t> of a 32-bit int: negative sizes wrap to huge ones. */
  function SizeT(x: int): (r: int)
    ensures x >= 0 ==> r == x
    ensures -0x8000_0000 <= x < 0 ==> r > SizeMax - 0x8000_0000
  {
    if x >= 0 then x else x + SizeMax + 1
  }

  /** A snapshot of a Process: the fields the page engine reads or writes. */
  datatype ProcessState = ProcessState(
    id: int,
    size: int,
    isFinished: bool,
    faultCount: int,
    minWorkset: nat,
    maxWorkset: nat,
    pages: seq<Page>)

  /** Whether a page with that number is resident. */
  predicate Resident(pages: seq<Page>, pageNumber: int)
  {
    exists j :: 0 <= j < |pages| && pages[j].pageNumber == pageNumber
  }

  /** find_if on the page number: the first matching position, or |pages| when none matches. */
  function FirstIndexOf(pages: seq<Page>, pageNumber: int): (i: nat)
    ensures i <= |pages|
    ensures i < |pages| ==> pages[i].pageNumber == pageNumber
    ensures forall j :: 0 <= j < i ==> pages[j].pageNumber != pageNumber
    ensures i == |pages| <==> !Resident(pages, pageNumber)
  {
    if pages == [] then 0
    else if pages[0].pageNumber == pageNumber then 0
    else 1 + FirstIndexOf(pages[1..], pageNumber)
  }

  /** The page pageFaultHandler appends. */
  function NewPage(processID: int, pageNumber: int, currentTime: int): Page
  {
    Page(processID, -1, pageNumber, 1, currentTime, currentTime)
  }

  /** A hit: the last access moves to now and the frequency grows by one;
      kthAccessTime is left as it was. */
  function Touch(p: Page, currentTime: int): Page
  {
    p.(accessTime := currentTime, frequency := p.frequency + 1)
  }

  /** Whether pageFaultHandler calls replacePage: the vector is at or over capacity. */
  predicate AtCapacity(s: ProcessState)
  {
    |s.pages| >= SizeT(s.size)
  }

  /** pageFaultHandler: replacePage when at capacity, then append the new page
      and count the fault. */
  function FaultStep(s: ProcessState, pageNumber: int, currentTime: int, algorithm: string,
                     lookahead: Option<seq<DPT>>): ProcessState
  {
    var kept := if AtCapacity(s) then Evict(s.pages, algorithm, currentTime, lookahead) else s.pages;
    s.(pages := kept + [NewPage(s.id, pageNumber, currentTime)], faultCount := s.faultCount + 1)
  }

  /** accessPage: a miss goes to pageFaultHandler without a lookahead; a hit
      touches the first matching page and folds the vector's size into the
      working-set bounds. */
  function AccessStep(s: ProcessState, pageNumber: int, currentTime: int, algorithm: string): ProcessState
  {
    var i := FirstIndexOf(s.pages, pageNumber);
    if i == |s.pages| then FaultStep(s, pageNumber, currentTime, algorithm, None)
    else
      var n := |s.pages|;
      s.(pages := s.pages[i := Touch(s.pages[i], currentTime)],
         minWorkset := if n < s.minWorkset then n else s.minWorkset,
         maxWorkset := if n > s.maxWorkset then n else s.maxWorkset)
  }

  /** processPage: accessPage without the working-set bookkeeping. */
  function ProcessPageStep(s: ProcessState, pageNumber: int, currentTime: int, algorithm: string): ProcessState
  {
    var i := FirstIndexOf(s.pages, pageNumber);
    if i == |s.pages| then FaultStep(s, pageNumber, currentTime, algorithm, None)
    else s.(pages := s.pages[i := Touch(s.pages[i], currentTime)])
  }

  /** The policies that always find a victim in a non-empty vector. */
  predicate Bounded(algorithm: string)
  {
    algorithm == Lifo || algorithm == Mru || algorithm == LruX || algorithm == Lfu || algorithm == Ws
  }

  /** pageFaultHandler counts exactly one fault, appends the new page last, and
      otherwise keeps the old pages in order, minus at most the one victim. */
  lemma FaultStepEffect(s: ProcessState, pageNumber: int, currentTime: int, algorithm: string,
                        lookahead: Option<seq<DPT>>)
    ensures var r := FaultStep(s, pageNumber, currentTime, algorithm, lookahead);
      var n := |r.pages|;
      && r.faultCount == s.faultCount + 1
      && n >= 1 && r.pages[n - 1] == NewPage(s.id, pageNumber, currentTime)
      && multiset(r.pages[..n - 1]) <= multiset(s.pages)
      && |s.pages| - 1 <= n - 1 <= |s.pages|
      && (!AtCapacity(s) ==> r.pages[..n - 1] == s.pages)
      && r.(pages := s.pages, faultCount := s.faultCount) == s
  {
    var r := FaultStep(s, pageNumber, currentTime, algorithm, lookahead);
    var kept := if AtCapacity(s) then Evict(s.pages, algorithm, currentTime, lookahead) else s.pages;
    assert r.pages[..|r.pages| - 1] == kept;
    EvictRemovesAtMostOne(s.pages, algorithm, currentTime, lookahead);
  }

  /** With a capacity of at least one and a policy that always finds a victim,
      pageFaultHandler keeps the vector within capacity. */
  lemma {:induction false} FaultStepKeepsCapacity(s: ProcessState, pageNumber: int, currentTime: int, algorithm: string,
                                                  lookahead: Option<seq<DPT>>)
    requires s.size >= 1 && |s.pages| <= s.size
    requires Bounded(algorithm)
    ensures |FaultStep(s, pageNumber, currentTime, algorithm, lookahead).pages| <= s.size
  {
    EvictRemovesAtMostOne(s.pages, algorithm, currentTime, lookahead);
  }

  /** accessPage counts a fault exactly when the page is not resident. */
  lemma AccessCountsMisses(s: ProcessState, pageNumber: int, currentTime: int, algorithm: string)
    ensures var r := AccessStep(s, pageNumber, currentTime, algorithm);
      r.faultCount == s.faultCount + (if Resident(s.pages, pageNumber) then 0 else 1)
  {
  }

  /** On a hit only the first page with that number changes (its access time
      and frequency), no fault is counted, and the working-set bounds then
      enclose the vector's size. */
  lemma AccessHit(s: ProcessState, pageNumber: int, currentTime: int, algorithm: string)
    requires Resident(s.pages, pageNumber)
    ensures var r := AccessStep(s, pageNumber, currentTime, algorithm);
      var i := FirstIndexOf(s.pages, pageNumber);
      && r.faultCount == s.faultCount
      && |r.pages| == |s.pages|
      && (forall j :: 0 <= j < i ==> s.pages[j].pageNumber != pageNumber)
      && r.pages[i] == s.pages[i].(accessTime := currentTime, frequency := s.pages[i].frequency + 1)
      && (forall j :: 0 <= j < |s.pages| && j != i ==> r.pages[j] == s.pages[j])
      && r.minWorkset <= |r.pages| <= r.maxWorkset
      && r.minWorkset <= s.minWorkset && s.maxWorkset <= r.maxWorkset
      && r.(pages := s.pages, minWorkset := s.minWorkset, maxWorkset := s.maxWorkset) == s
  {
  }

  /** On a miss accessPage is pageFaultHandler with no lookahead. */
  lemma AccessMiss(s: ProcessState, pageNumber: int, currentTime: int, algorithm: string)
    requires !Resident(s.pages, pageNumber)
    ensures AccessStep(s, pageNumber, currentTime, algorithm) == FaultStep(s, pageNumber, currentTime, algorithm, None)
  {
  }

  /** With a capacity of at least one and a policy that always finds a
      victim, accessPage keeps the vector within capacity. */
  lemma {:induction false} AccessKeepsCapacity(s: ProcessState, pageNumber: int, currentTime: int, algorithm: string)
    requires s.size >= 1 && |s.pages| <= s.size
    requires Bounded(algorithm)
    ensures |AccessStep(s, pageNumber, currentTime, algorithm).pages| <= s.size
  {
    if !Resident(s.pages, pageNumber) {
      FaultStepKeepsCapacity(s, pageNumber, currentTime, algorithm, None);
    }
  }

  /** accessPage never passes a lookahead, so under "OPT-lookahead-X" a miss
      at capacity evicts nothing and the vector outgrows the capacity. */
  lemma OptAccessOutgrowsCapacity(s: ProcessState, pageNumber: int, currentTime: int)
    requires s.size >= 0 && |s.pages| >= s.size
    requires !Resident(s.pages, pageNumber)
    ensures |AccessStep(s, pageNumber, currentTime, OptLookahead).pages| == |s.pages| + 1 > s.size
  {
  }

  /** The working-set bounds are refreshed only on a hit: a miss leaves them
      as they were, whatever the vector's new size. */
  lemma AccessMissKeepsWorksetBounds(s: ProcessState, pageNumber: int, currentTime: int, algorithm: string)
    requires !Resident(s.pages, pageNumber)
    ensures var r := AccessStep(s, pageNumber, currentTime, algorithm);
      r.minWorkset == s.minWorkset && r.maxWorkset == s.maxWorkset
  {
  }

  /** So the bounds need not enclose the vector's size: the first access of a
      freshly loaded process misses and leaves one resident page with the
      bounds still at SIZE_MAX and 0. */
  lemma FirstFaultOutsideWorksetBounds()
    ensures var r := AccessStep(ProcessState(0, 2, false, 0, SizeMax, 0, []), 7, 0, Lifo);
      && |r.pages| == 1
      && r.maxWorkset == 0 < |r.pages|
      && r.minWorkset == SizeMax > |r.pages|
  {
    assert FirstIndexOf([], 7) == 0;
  }

  /** processPage does to the pages and the fault count what accessPage does,
      and leaves the working-set bounds alone. */
  lemma ProcessPageMatchesAccess(s: ProcessState, pageNumber: int, currentTime: int, algorithm: string)
    ensures var r := ProcessPageStep(s, pageNumber, currentTime, algorithm);
      var a := AccessStep(s, pageNumber, currentTime, algorithm);
      && r.pages == a.pages && r.faultCount == a.faultCount
      && r.minWorkset == s.minWorkset && r.maxWorkset == s.maxWorkset
  {
  }

  /** A process of the simulation: its fields are updated in place by the
      page engine. */
  class Process {
    var id: int
    var size: int
    var isFinished: bool
    var faultCount: int
    var minWorkset: nat
    var maxWorkset: nat
    var pages: seq<Page>

    /** A process as the configuration loader creates it. */
    constructor (id: int, size: int)
      ensures State() == ProcessState(id, size, false, 0, SizeMax, 0, [])
    {
      this.id := id;
      this.size := size;
      isFinished := false;
      faultCount := 0;
      minWorkset := SizeMax;
      maxWorkset := 0;
      pages := [];
    }

    function State(): ProcessState
      reads this
    {
      ProcessState(id, size, isFinished, faultCount, minWorkset, maxWorkset, pages)
    }

    /** find_if over the pages for a page number. */
    method FindPage(pageNumber: int) returns (i: nat)
      ensures i <= |pages|
      ensures i < |pages| ==> pages[i].pageNumber == pageNumber
      ensures forall j :: 0 <= j < i ==> pages[j].pageNumber != pageNumber
    {
      i := 0;
      while i < |pages| && pages[i].pageNumber != pageNumber
        invariant i <= |pages|
        invariant forall j :: 0 <= j < i ==> pages[j].pageNumber != pageNumber
      {
        i := i + 1;
      }
    }

    /** replacePage: erase the victim the policy selects, if any. The
        history parameter k is accepted and used by no policy. */
    method ReplacePage(algorithm: string, currentTime: int, k: int, lookahead: Option<seq<DPT>>)
      modifies this`pages
      ensures pages == Evict(old(pages), algorithm, currentTime, lookahead)
    {
      if |pages| == 0 {
        return;
      }
      var victim: Option<nat> := None;
      if algorithm == Lifo {
        victim := Some(|pages| - 1);
      } else if algorithm == Mru {
        victim := Some(MaxElement(pages, MruLess()));
      } else if algorithm == LruX {
        victim := Some(MinElement(pages, LruLess(currentTime)));
      } else if algorithm == Lfu {
        victim := Some(MinElement(pages, LfuLess()));
      } else if algorithm == OptLookahead && lookahead.Some? {
        var future := BuildFutureAccessMap(lookahead.value);
        victim := Some(MaxElement(pages, OptLess(future)));
      } else if algorithm == Ws {
        victim := Some(MinElement(pages, WsLess(currentTime)));
      }
      if victim.Some? {
        pages := Erase(pages, victim.value);
      }
    }

    /** pageFaultHandler. */
    method PageFaultHandler(pageNumber: int, currentTime: int, algorithm: string, k: int,
                            lookahead: Option<seq<DPT>>)
      modifies this`pages, this`faultCount
      ensures State() == FaultStep(old(State()), pageNumber, currentTime, algorithm, lookahead)
    {
      if |pages| >= SizeT(size) {
        ReplacePage(algorithm, currentTime, k, lookahead);
      }
      pages := pages + [NewPage(id, pageNumber, currentTime)];
      faultCount := faultCount + 1;
    }

    /** accessPage. */
    method AccessPage(pageNumber: int, currentTime: int, algorithm: string)
      modifies this`pages, this`faultCount, this`minWorkset, this`maxWorkset
      ensures State() == AccessStep(old(State()), pageNumber, currentTime, algorithm)
    {
      var i := FindPage(pageNumber);
      if i == |pages| {
        PageFaultHandler(pageNumber, currentTime, algorithm, 1, None);
      } else {
        pages := pages[i := Touch(pages[i], currentTime)];
        if |pages| < minWorkset {
          minWorkset := |pages|;
        }
        if |pages| > maxWorkset {
          maxWorkset := |pages|;
        }
      }
    }

    /** The body of processWorkset for one process: remove_if and erase of the
        pages last accessed after time x. */
    method DropAccessedAfter(x: int)
      modifies this`pages
      ensures pages == AccessedBy(old(pages), x)
    {
      var kept: seq<Page> := [];
      var i := 0;
      while i < |pages|
        invariant pages == old(pages)
        invariant i <= |pages|
        invariant kept == AccessedBy(pages[..i], x)
      {
        if !(x < pages[i].accessTime) {
          kept := kept + [pages[i]];
        }
        AccessedBySnoc(pages[..i], pages[i], x);
        assert pages[..i + 1] == pages[..i] + [pages[i]];
        i := i + 1;
      }
      assert pages[..i] == pages;
      pages := kept;
    }
  }

  /** The pages last accessed no later than x, in their original order. */
  function AccessedBy(pages: seq<Page>, x: int): (r: seq<Page>)
    ensures |r| <= |pages|
    decreases |pages|
  {
    if pages == [] then []
    else
      var n := |pages| - 1;
      AccessedBy(pages[..n], x) + (if pages[n].accessTime <= x then [pages[n]] else [])
  }

  lemma AccessedBySnoc(pages: seq<Page>, p: Page, x: int)
    ensures AccessedBy(pages + [p], x) == AccessedBy(pages, x) + (if p.accessTime <= x then [p] else [])
  {
    assert (pages + [p])[..|pages|] == pages;
  }

  /** Filtering twice by the same time changes nothing the second time. */
  lemma {:induction false} AccessedByIdempotent(pages: seq<Page>, x: int)
    ensures AccessedBy(AccessedBy(pages, x), x) == AccessedBy(pages, x)
    decreases |pages|
  {
    if pages != [] {
      var n := |pages| - 1;
      var kept := AccessedBy(pages[..n], x);
      AccessedByIdempotent(pages[..n], x);
      if pages[n].accessTime <= x {
        AccessedBySnoc(kept, pages[n], x);
      } else {
        assert kept + [] == kept;
      }
    }
  }

  /** processWorkset keeps exactly the pages last accessed no later than x. */
  lemma {:induction false} AccessedByMembers(pages: seq<Page>, x: int)
    ensures forall p :: p in AccessedBy(pages, x) <==> p in pages && p.accessTime <= x
    decreases |pages|
  {
    if pages != [] {
      var n := |pages| - 1;
      AccessedByMembers(pages[..n], x);
      assert pages == pages[..n] + [pages[n]];
    }
  }

  /** The kept pages keep their multiplicities. */
  lemma {:induction false} AccessedBySubmultiset(pages: seq<Page>, x: int)
    ensures multiset(AccessedBy(pages, x)) <= multiset(pages)
    decreases |pages|
  {
    if pages != [] {
      var n := |pages| - 1;
      AccessedBySubmultiset(pages[..n], x);
      assert pages == pages[..n] + [pages[n]];
    }
  }

  /** When no page is too recent the vector is left as it was. */
  lemma {:induction false} AccessedByKeepsOld(pages: seq<Page>, x: int)
    requires forall j :: 0 <= j < |pages| ==> pages[j].accessTime <= x
    ensures AccessedBy(pages, x) == pages
    decreases |pages|
  {
    if pages != [] {
      var n := |pages| - 1;
      AccessedByKeepsOld(pages[..n], x);
      assert pages == pages[..n] + [pages[n]];
    }
  }
}
