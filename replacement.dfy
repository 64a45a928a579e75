/** The eviction-policy engine: which resident page replacePage erases under
    each of the six policy names, decided over the process's page vector in
    insertion order. Every comparator is the one the simulator hands to the
    standard library, so the victims are the ones the code picks, which for
    "MRU" and "OPT-lookahead-X" are not the ones the names suggest. */
module Replacement {
  import opened Algorithms

  /** A resident page; frameID is -1 until a frame is assigned. */
  datatype Page = Page(
    processID: int,
    frameID: int,
    pageNumber: int,
    frequency: int,
    accessTime: int,
    kthAccessTime: int)

  /** One entry of the access trace: process, page and time of the access. */
  datatype DPT = DPT(processID: int, pageNumber: int, time: int)

  /** INT_MAX of a 32-bit int: the next-use time of a page the lookahead never mentions. */
  const IntMax: int := 0x7FFF_FFFF

  /** The Working-Set policy's fixed staleness threshold, in time units. */
  const WsThreshold: int := 10

  const Lifo: string := "LIFO"
  const Mru: string := "MRU"
  const LruX: string := "LRU-X"
  const Lfu: string := "LFU"
  const OptLookahead: string := "OPT-lookahead-X"
  const Ws: string := "WS"

  /** The policy names replacePage recognises; any other name evicts nothing. */
  predicate KnownPolicy(algorithm: string)
  {
    algorithm == Lifo || algorithm == Mru || algorithm == LruX ||
    algorithm == Lfu || algorithm == OptLookahead || algorithm == Ws
  }

  /** The comparator the "MRU" branch passes to max_element. */
  function MruLess(): (Page, Page) -> bool
  {
    (a: Page, b: Page) => a.accessTime > b.accessTime
  }

  /** The comparator the "LRU-X" branch passes to min_element. */
  function LruLess(currentTime: int): (Page, Page) -> bool
  {
    (a: Page, b: Page) => (currentTime - a.kthAccessTime) > (currentTime - b.kthAccessTime)
  }

  /** The comparator the "LFU" branch passes to min_element. */
  function LfuLess(): (Page, Page) -> bool
  {
    (a: Page, b: Page) => a.frequency < b.frequency
  }

  /** The time a page is next used according to the lookahead map, INT_MAX if never. */
  function NextUse(future: map<int, int>, pageNumber: int): int
  {
    if pageNumber in future then future[pageNumber] else IntMax
  }

  /** The comparator the "OPT-lookahead-X" branch passes to max_element. */
  function OptLess(future: map<int, int>): (Page, Page) -> bool
  {
    (a: Page, b: Page) => NextUse(future, a.pageNumber) > NextUse(future, b.pageNumber)
  }

  /** The comparator the "WS" branch passes to min_element; it never looks at b. */
  function WsLess(currentTime: int): (Page, Page) -> bool
  {
    (a: Page, b: Page) => currentTime - a.accessTime > WsThreshold
  }

  /** One step of the loop that builds the lookahead map: an entry is
      recorded when its page is new to the map or is seen at an earlier time. */
  function RecordAccess(future: map<int, int>, d: DPT): map<int, int>
  {
    if d.pageNumber !in future || future[d.pageNumber] > d.time then future[d.pageNumber := d.time]
    else future
  }

  /** Whether some entry of the lookahead is an access to the page. */
  predicate Mentions(accesses: seq<DPT>, pageNumber: int)
  {
    exists j :: 0 <= j < |accesses| && accesses[j].pageNumber == pageNumber
  }

  /** The lookahead map replacePage builds: every page number the lookahead
      mentions, of any process, sent to the earliest time it is accessed. */
  function FutureAccessMap(accesses: seq<DPT>): map<int, int>
    decreases |accesses|
  {
    if accesses == [] then map[]
    else RecordAccess(FutureAccessMap(accesses[..|accesses| - 1]), accesses[|accesses| - 1])
  }

  /** The loop of replacePage that fills the lookahead map. */
  method BuildFutureAccessMap(accesses: seq<DPT>) returns (future: map<int, int>)
    ensures future == FutureAccessMap(accesses)
  {
    future := map[];
    var i := 0;
    while i < |accesses|
      invariant i <= |accesses|
      invariant future == FutureAccessMap(accesses[..i])
    {
      var d := accesses[i];
      ghost var before := future;
      if d.pageNumber !in future || future[d.pageNumber] > d.time {
        future := future[d.pageNumber := d.time];
      }
      assert future == RecordAccess(before, d);
      FutureAccessMapSnoc(accesses, i);
      i := i + 1;
    }
    assert accesses[..i] == accesses;
  }

  lemma FutureAccessMapSnoc(accesses: seq<DPT>, i: nat)
    requires i < |accesses|
    ensures FutureAccessMap(accesses[..i + 1]) == RecordAccess(FutureAccessMap(accesses[..i]), accesses[i])
  {
    assert accesses[..i + 1][..i] == accesses[..i];
  }

  /** The page replacePage erases, as a position in `pages`, or None when it
      erases nothing: an empty vector, an unrecognised policy name, or
      "OPT-lookahead-X" without a lookahead. */
  function Victim(pages: seq<Page>, algorithm: string, currentTime: int, lookahead: Option<seq<DPT>>): (r: Option<nat>)
    ensures r.Some? ==> r.value < |pages|
    ensures r.None? <==>
      (|pages| == 0 || !KnownPolicy(algorithm) || (algorithm == OptLookahead && lookahead.None?))
  {
    if |pages| == 0 then None
    else if algorithm == Lifo then Some(|pages| - 1)
    else if algorithm == Mru then Some(MaxElement(pages, MruLess()))
    else if algorithm == LruX then Some(MinElement(pages, LruLess(currentTime)))
    else if algorithm == Lfu then Some(MinElement(pages, LfuLess()))
    else if algorithm == OptLookahead && lookahead.Some? then
      Some(MaxElement(pages, OptLess(FutureAccessMap(lookahead.value))))
    else if algorithm == Ws then Some(MinElement(pages, WsLess(currentTime)))
    else None
  }

  /** The page vector after replacePage. */
  function Evict(pages: seq<Page>, algorithm: string, currentTime: int, lookahead: Option<seq<DPT>>): (r: seq<Page>)
  {
    match Victim(pages, algorithm, currentTime, lookahead)
    case None => pages
    case Some(i) => Erase(pages, i)
  }

  /** replacePage changes nothing, or erases exactly one page and keeps the
      others in their order. */
  lemma EvictRemovesAtMostOne(pages: seq<Page>, algorithm: string, currentTime: int, lookahead: Option<seq<DPT>>)
    ensures var r := Evict(pages, algorithm, currentTime, lookahead);
      match Victim(pages, algorithm, currentTime, lookahead)
      case None =>
        r == pages
      case Some(i) =>
        && |r| == |pages| - 1
        && r == pages[..i] + pages[i + 1..]
        && multiset(r) + multiset{pages[i]} == multiset(pages)
  {
    var v := Victim(pages, algorithm, currentTime, lookahead);
    if v.Some? {
      EraseMultiset(pages, v.value);
    }
  }

  /** LIFO evicts the most recently inserted page, the last of the vector. */
  lemma LifoVictim(pages: seq<Page>, currentTime: int, lookahead: Option<seq<DPT>>)
    requires |pages| > 0
    ensures Victim(pages, Lifo, currentTime, lookahead) == Some(|pages| - 1)
  {
  }

  /** "MRU" evicts the first page with the SMALLEST access time: max_element
      under a ">" comparator finds a minimum. */
  lemma MruVictim(pages: seq<Page>, currentTime: int, lookahead: Option<seq<DPT>>)
    requires |pages| > 0
    ensures var v := Victim(pages, Mru, currentTime, lookahead);
      && v.Some?
      && (forall j :: 0 <= j < |pages| ==> pages[v.value].accessTime <= pages[j].accessTime)
      && (forall j :: 0 <= j < v.value ==> pages[v.value].accessTime < pages[j].accessTime)
  {
    MaxElementInvertedLeast(pages, MruLess(), (p: Page) => p.accessTime);
  }

  /** "LRU-X" evicts the first page maximising currentTime - kthAccessTime. */
  lemma LruVictim(pages: seq<Page>, currentTime: int, lookahead: Option<seq<DPT>>)
    requires |pages| > 0
    ensures var v := Victim(pages, LruX, currentTime, lookahead);
      && v.Some?
      && (forall j :: 0 <= j < |pages| ==>
            currentTime - pages[j].kthAccessTime <= currentTime - pages[v.value].kthAccessTime)
      && (forall j :: 0 <= j < v.value ==>
            currentTime - pages[j].kthAccessTime < currentTime - pages[v.value].kthAccessTime)
  {
    MinElementGreatest(pages, LruLess(currentTime), (p: Page) => currentTime - p.kthAccessTime);
  }

  /** LFU evicts the first page with the smallest frequency. */
  lemma LfuVictim(pages: seq<Page>, currentTime: int, lookahead: Option<seq<DPT>>)
    requires |pages| > 0
    ensures var v := Victim(pages, Lfu, currentTime, lookahead);
      && v.Some?
      && (forall j :: 0 <= j < |pages| ==> pages[v.value].frequency <= pages[j].frequency)
      && (forall j :: 0 <= j < v.value ==> pages[v.value].frequency < pages[j].frequency)
  {
    MinElementLeast(pages, LfuLess(), (p: Page) => p.frequency);
  }

  /** "OPT-lookahead-X" with a lookahead evicts the first page whose next use
      is SOONEST (INT_MAX standing for "not in the lookahead"). */
  lemma OptVictim(pages: seq<Page>, currentTime: int, lookahead: seq<DPT>)
    requires |pages| > 0
    ensures var v := Victim(pages, OptLookahead, currentTime, Some(lookahead));
      var future := FutureAccessMap(lookahead);
      && v.Some?
      && (forall j :: 0 <= j < |pages| ==>
            NextUse(future, pages[v.value].pageNumber) <= NextUse(future, pages[j].pageNumber))
      && (forall j :: 0 <= j < v.value ==>
            NextUse(future, pages[v.value].pageNumber) < NextUse(future, pages[j].pageNumber))
  {
    var future := FutureAccessMap(lookahead);
    MaxElementInvertedLeast(pages, OptLess(future), (p: Page) => NextUse(future, p.pageNumber));
  }

  /** A page is stale for WS when more than the threshold has passed since its last access. */
  predicate Stale(p: Page, currentTime: int)
  {
    currentTime - p.accessTime > WsThreshold
  }

  /** WS evicts the last stale page at position 1 or later, or the first page
      when there is none; so it always evicts exactly one page. */
  lemma WsVictim(pages: seq<Page>, currentTime: int, lookahead: Option<seq<DPT>>)
    requires |pages| > 0
    ensures var v := Victim(pages, Ws, currentTime, lookahead);
      && v.Some?
      && (v.value == 0 || Stale(pages[v.value], currentTime))
      && (forall j :: v.value < j < |pages| ==> !Stale(pages[j], currentTime))
  {
    MinElementUnary(pages, WsLess(currentTime), (p: Page) => Stale(p, currentTime));
  }

  /** The lookahead map holds exactly the pages the lookahead mentions; the
      next-use time of such a page is its earliest access in the lookahead,
      and pages it never mentions rank last with INT_MAX. */
  lemma {:induction false} NextUseIsEarliest(lookahead: seq<DPT>, pageNumber: int)
    ensures pageNumber in FutureAccessMap(lookahead) <==> Mentions(lookahead, pageNumber)
    ensures var t := NextUse(FutureAccessMap(lookahead), pageNumber);
      if Mentions(lookahead, pageNumber) then
        && (forall j :: 0 <= j < |lookahead| && lookahead[j].pageNumber == pageNumber ==> t <= lookahead[j].time)
        && (exists j :: 0 <= j < |lookahead| && lookahead[j].pageNumber == pageNumber && lookahead[j].time == t)
      else t == IntMax
    decreases |lookahead|
  {
    if lookahead != [] {
      var n := |lookahead| - 1;
      var prefix := lookahead[..n];
      var d := lookahead[n];
      NextUseIsEarliest(prefix, pageNumber);
      assert forall j :: 0 <= j < n ==> prefix[j] == lookahead[j];
      var before := FutureAccessMap(prefix);
      var t := NextUse(FutureAccessMap(lookahead), pageNumber);
      if d.pageNumber == pageNumber {
        assert Mentions(lookahead, pageNumber);
        if pageNumber !in before || before[pageNumber] > d.time {
          assert t == d.time;
        } else {
          var k :| 0 <= k < n && prefix[k].pageNumber == pageNumber && prefix[k].time == t;
          assert lookahead[k].pageNumber == pageNumber && lookahead[k].time == t;
        }
      } else if Mentions(prefix, pageNumber) {
        var k :| 0 <= k < n && prefix[k].pageNumber == pageNumber && prefix[k].time == t;
        assert lookahead[k].pageNumber == pageNumber && lookahead[k].time == t;
      }
    }
  }
}
