/** The MIN/OPT policy: on a miss with every frame occupied, evict the resident
    page whose next request lies farthest in the future (or never comes). */
module OptPolicy {
  import opened JavaInt
  import opened PageSets
  import opened MemoryFrames
  import opened PageSequences
  import opened SimulationResults
  import opened ReferenceStrings

  /** The findNextUse scan: where `page` is next requested at or after
      `start`, or Integer.MAX_VALUE. */
  function NextUse(page: int, requests: seq<int>, start: nat): (r: int)
    ensures r == INT_MAX || start <= r < |requests|
    decreases |requests| - start
  {
    if start >= |requests| then INT_MAX
    else if requests[start] == page then start
    else NextUse(page, requests, start + 1)
  }

  /** NextUse is the least index at or after `start` holding `page` when
      there is one, and Integer.MAX_VALUE when there is none. */
  lemma {:induction false} NextUseIsFirstOccurrence(page: int, requests: seq<int>, start: nat)
    ensures (forall i :: start <= i < |requests| ==> requests[i] != page) ==>
      NextUse(page, requests, start) == INT_MAX
    ensures (exists i :: start <= i < |requests| && requests[i] == page) ==>
      var r := NextUse(page, requests, start);
      start <= r < |requests| && requests[r] == page && forall i :: start <= i < r ==> requests[i] != page
    decreases |requests| - start
  {
    if start < |requests| && requests[start] != page {
      NextUseIsFirstOccurrence(page, requests, start + 1);
    }
  }

  /** The findOptimalVictim scan over the pages in the frames: a running
      maximum of next uses, replaced on `>=`. */
  function LastFarthest(pages: seq<int>, requests: seq<int>, start: nat): (k: nat)
    requires |pages| > 0
    ensures k < |pages|
    decreases |pages|
  {
    if |pages| == 1 then 0
    else
      var k := LastFarthest(pages[..|pages| - 1], requests, start);
      if NextUse(pages[|pages| - 1], requests, start) >= NextUse(pages[k], requests, start)
      then |pages| - 1 else k
  }

  /** One more iteration of the scan. */
  lemma LastFarthestSnoc(pages: seq<int>, i: nat, requests: seq<int>, start: nat)
    requires i < |pages|
    ensures i == 0 ==> LastFarthest(pages[..1], requests, start) == 0
    ensures i > 0 ==>
      var k := LastFarthest(pages[..i], requests, start);
      k < i &&
      LastFarthest(pages[..i + 1], requests, start) ==
        if NextUse(pages[i], requests, start) >= NextUse(pages[k], requests, start) then i else k
  {
    assert pages[..i + 1][..i] == pages[..i];
  }

  /** The scan picks a slot whose next use is maximal, and every later slot's
      next use is strictly smaller: the last of the tied maxima wins. */
  lemma {:induction false} LastFarthestIsLastMaximum(pages: seq<int>, requests: seq<int>, start: nat)
    requires |pages| > 0
    ensures var k := LastFarthest(pages, requests, start);
      (forall j :: 0 <= j < |pages| ==>
        NextUse(pages[j], requests, start) <= NextUse(pages[k], requests, start)) &&
      (forall j :: k < j < |pages| ==>
        NextUse(pages[j], requests, start) < NextUse(pages[k], requests, start))
    decreases |pages|
  {
    if |pages| > 1 {
      var front := pages[..|pages| - 1];
      LastFarthestIsLastMaximum(front, requests, start);
      assert forall j :: 0 <= j < |front| ==> front[j] == pages[j];
    }
  }

  /** The victim chosen while serving request `current`; slot 0 when there
      are no frames, as the scan's initial value. */
  function OptimalVictim(table: seq<Loaded>, requests: seq<int>, current: nat): nat
  {
    if |table| == 0 then 0 else LastFarthest(LoadedPages(table), requests, current + 1)
  }

  datatype OptState = OptState(table: seq<Loaded>, faults: int)

  /** One request for page `p` at position `current` with `n` frames. */
  function OptStep(s: OptState, p: int, requests: seq<int>, current: nat, n: int): OptState
    requires n >= 1
  {
    if p in LoadedPages(s.table) then s
    else if |s.table| < n then
      OptState(s.table + [Loaded(p, current)], s.faults + 1)
    else
      OptState(s.table[OptimalVictim(s.table, requests, current) := Loaded(p, current)],
               s.faults + 1)
  }

  lemma OptStepHit(s: OptState, p: int, requests: seq<int>, current: nat, n: int)
    requires n >= 1 && p in LoadedPages(s.table)
    ensures OptStep(s, p, requests, current, n) == s
  {
  }

  lemma OptStepLoad(s: OptState, p: int, requests: seq<int>, current: nat, n: int)
    requires n >= 1 && p !in LoadedPages(s.table) && |s.table| < n
    ensures OptStep(s, p, requests, current, n) ==
      OptState(s.table + [Loaded(p, current)], s.faults + 1)
  {
  }

  lemma OptStepEvict(s: OptState, p: int, requests: seq<int>, current: nat, n: int, v: nat)
    requires n >= 1 && p !in LoadedPages(s.table) && |s.table| >= n
    requires v == LastFarthest(LoadedPages(s.table), requests, current + 1)
    ensures OptStep(s, p, requests, current, n) ==
      OptState(s.table[v := Loaded(p, current)], s.faults + 1)
  {
  }

  /** The state after the first k requests, starting from no frames. */
  function OptRun(requests: seq<int>, k: nat, n: int): OptState
    requires k <= |requests| && n >= 1
  {
    if k == 0 then OptState([], 0)
    else OptStep(OptRun(requests, k - 1, n), requests[k - 1], requests, k - 1, n)
  }

  /** What holds of the frames after the first k requests: no page twice, at
      most n slots, only pages already requested, every frame loaded by an
      earlier request, and at least one fault per distinct page. */
  predicate OptInvariant(s: OptState, requests: seq<int>, k: nat, n: int)
    requires k <= |requests|
  {
    Distinct(LoadedPages(s.table)) && |s.table| <= n &&
    Elems(LoadedPages(s.table)) <= Elems(requests[..k]) &&
    (forall j :: 0 <= j < |s.table| ==> s.table[j].load < k) &&
    |Elems(requests[..k])| <= s.faults <= k
  }

  /** A hit changes nothing. A miss costs exactly one fault and leaves the
      requested page resident; below capacity it appends a frame, at capacity
      it overwrites only the victim's slot. */
  lemma OptStepEffect(s: OptState, p: int, requests: seq<int>, current: nat, n: int)
    requires n >= 1 && |s.table| <= n
    ensures var t := OptStep(s, p, requests, current, n);
      (p in LoadedPages(s.table) ==> t == s) &&
      (p !in LoadedPages(s.table) ==>
        t.faults == s.faults + 1 && p in LoadedPages(t.table) &&
        (|s.table| < n ==> t.table == s.table + [Loaded(p, current)]) &&
        (|s.table| == n ==>
          var v := OptimalVictim(s.table, requests, current);
          |t.table| == n && v < n && t.table[v] == Loaded(p, current) &&
          forall j :: 0 <= j < n && j != v ==> t.table[j] == s.table[j]))
  {
    var t := OptStep(s, p, requests, current, n);
    if p !in LoadedPages(s.table) {
      assert LoadedPages(t.table)[|t.table| - 1] == p || LoadedPages(t.table)[OptimalVictim(s.table, requests, current)] == p;
    }
  }

  /** One step keeps the invariant: the state after k - 1 requests keeps it,
      so the state after serving request k - 1 keeps it for k. */
  lemma OptStepKeepsInvariant(s: OptState, requests: seq<int>, k: nat, n: int)
    requires 0 < k <= |requests| && n >= 1
    requires OptInvariant(s, requests, k - 1, n)
    ensures OptInvariant(OptStep(s, requests[k - 1], requests, k - 1, n), requests, k, n)
  {
    var p := requests[k - 1];
    ElemsPrefixStep(requests, k - 1);
    ElemsCard(requests[..k]);
    if p !in LoadedPages(s.table) {
      if |s.table| < n {
        LoadKeepsInvariant(s, requests, k, n);
      } else {
        EvictKeepsInvariant(s, requests, k, n, OptimalVictim(s.table, requests, k - 1));
      }
    }
  }

  lemma LoadKeepsInvariant(s: OptState, requests: seq<int>, k: nat, n: int)
    requires 0 < k <= |requests| && n >= 1
    requires OptInvariant(s, requests, k - 1, n)
    requires requests[k - 1] !in LoadedPages(s.table) && |s.table| < n
    requires Elems(requests[..k]) == Elems(requests[..k - 1]) + {requests[k - 1]}
    requires |Elems(requests[..k])| <= k
    ensures OptInvariant(OptState(s.table + [Loaded(requests[k - 1], k - 1)], s.faults + 1), requests, k, n)
  {
    var t := s.table + [Loaded(requests[k - 1], k - 1)];
    assert LoadedPages(t) == LoadedPages(s.table) + [requests[k - 1]];
  }

  lemma EvictKeepsInvariant(s: OptState, requests: seq<int>, k: nat, n: int, v: nat)
    requires 0 < k <= |requests| && n >= 1
    requires OptInvariant(s, requests, k - 1, n)
    requires requests[k - 1] !in LoadedPages(s.table) && |s.table| == n && v < n
    requires Elems(requests[..k]) == Elems(requests[..k - 1]) + {requests[k - 1]}
    requires |Elems(requests[..k])| <= k
    ensures OptInvariant(OptState(s.table[v := Loaded(requests[k - 1], k - 1)], s.faults + 1), requests, k, n)
  {
    var p := requests[k - 1];
    var ps, qs := LoadedPages(s.table), LoadedPages(s.table[v := Loaded(p, k - 1)]);
    assert qs == ps[v := p];
    forall x | x in Elems(qs) ensures x in Elems(requests[..k]) {
      var j :| 0 <= j < |qs| && qs[j] == x;
      if j != v { assert x in Elems(ps); }
    }
  }

  /** The invariant holds after every prefix of the sequence. */
  lemma {:induction false} OptRunInvariant(requests: seq<int>, k: nat, n: int)
    requires k <= |requests| && n >= 1
    ensures OptInvariant(OptRun(requests, k, n), requests, k, n)
  {
    if k == 0 {
      OptInvariantInitially(requests, n);
    } else {
      var s := OptRun(requests, k - 1, n);
      OptRunInvariant(requests, k - 1, n);
      assert OptRun(requests, k, n) == OptStep(s, requests[k - 1], requests, k - 1, n);
      OptStepKeepsInvariant(s, requests, k, n);
    }
  }

  lemma OptInvariantInitially(requests: seq<int>, n: int)
    requires n >= 1
    ensures OptInvariant(OptRun(requests, 0, n), requests, 0, n)
  {
    assert requests[..0] == [];
  }

  /** Distinct resident pages tie on next use only when neither is requested
      again, so the `>=` tie-break decides only among such pages. A Java list
      has at most Integer.MAX_VALUE elements, so no real index equals the
      sentinel. */
  lemma TiesAreNeverUsedAgain(p: int, q: int, requests: seq<int>, start: nat)
    requires |requests| <= INT_MAX
    requires p != q
    requires NextUse(p, requests, start) == NextUse(q, requests, start)
    ensures NextUse(p, requests, start) == INT_MAX
    ensures forall i :: start <= i < |requests| ==> requests[i] != p && requests[i] != q
  {
    NextUseIsFirstOccurrence(p, requests, start);
    NextUseIsFirstOccurrence(q, requests, start);
  }

  /** When no more distinct pages are requested than there are frames, nothing
      is ever evicted: each distinct page faults exactly once and all of them
      end up resident. */
  lemma {:induction false} OptNoEviction(requests: seq<int>, k: nat, n: int)
    requires k <= |requests| && n >= 1
    requires |Elems(requests[..k])| <= n
    ensures Elems(LoadedPages(OptRun(requests, k, n).table)) == Elems(requests[..k])
    ensures OptRun(requests, k, n).faults == |Elems(requests[..k])|
  {
    if k == 0 {
      assert requests[..0] == [];
    } else {
      var s := OptRun(requests, k - 1, n);
      ElemsPrefixStep(requests, k - 1);
      assert Elems(requests[..k]) == Elems(requests[..k - 1]) + {requests[k - 1]};
      SingletonUnionCard(Elems(requests[..k - 1]), requests[k - 1]);
      OptNoEviction(requests, k - 1, n);
      OptRunInvariant(requests, k - 1, n);
      assert OptRun(requests, k, n) == OptStep(s, requests[k - 1], requests, k - 1, n);
      NoEvictionStep(s, requests, k, n);
    }
  }

  /** One request of a run that has never evicted: a miss finds a free slot. */
  lemma NoEvictionStep(s: OptState, requests: seq<int>, k: nat, n: int)
    requires 0 < k <= |requests| && n >= 1
    requires OptInvariant(s, requests, k - 1, n)
    requires Elems(LoadedPages(s.table)) == Elems(requests[..k - 1]) && s.faults == |Elems(requests[..k - 1])|
    requires Elems(requests[..k]) == Elems(requests[..k - 1]) + {requests[k - 1]}
    requires |Elems(requests[..k])| <= n
    ensures Elems(LoadedPages(OptStep(s, requests[k - 1], requests, k - 1, n).table)) == Elems(requests[..k])
    ensures OptStep(s, requests[k - 1], requests, k - 1, n).faults == |Elems(requests[..k])|
  {
    var p := requests[k - 1];
    if p !in LoadedPages(s.table) {
      SingletonUnionCard(Elems(requests[..k - 1]), p);
      DistinctCard(LoadedPages(s.table));
      assert |s.table| < n;
      OptStepLoad(s, p, requests, k - 1, n);
      assert LoadedPages(s.table + [Loaded(p, k - 1)]) == LoadedPages(s.table) + [p];
    }
  }

  lemma SingletonUnionCard(a: set<int>, x: int)
    ensures |a| <= |a + {x}| <= |a| + 1
    ensures x !in a ==> |a + {x}| == |a| + 1
  {
    if x in a {
      assert a + {x} == a;
    }
  }

  lemma RunHit(requests: seq<int>, k: nat, n: int, s: OptState, j: nat)
    requires k < |requests| && n >= 1 && OptRun(requests, k, n) == s
    requires j < |s.table| && s.table[j].page == requests[k]
    ensures OptRun(requests, k + 1, n) == s
  {
    assert LoadedPages(s.table)[j] == requests[k];
  }

  lemma RunLoad(requests: seq<int>, k: nat, n: int, s: OptState)
    requires k < |requests| && n >= 1 && OptRun(requests, k, n) == s
    requires requests[k] !in LoadedPages(s.table) && |s.table| < n
    ensures OptRun(requests, k + 1, n) ==
      OptState(s.table + [Loaded(requests[k], k)], s.faults + 1)
  {
  }

  lemma RunEvict(requests: seq<int>, k: nat, n: int, s: OptState, v: nat)
    requires k < |requests| && n >= 1 && OptRun(requests, k, n) == s
    requires requests[k] !in LoadedPages(s.table) && |s.table| >= n
    requires OptimalVictim(s.table, requests, k) == v
    ensures OptRun(requests, k + 1, n) ==
      OptState(s.table[v := Loaded(requests[k], k)], s.faults + 1)
  {
  }

  lemma VictimOfThree(table: seq<Loaded>, requests: seq<int>, current: nat, a: int, b: int, c: int)
    requires |table| == 3
    requires NextUse(table[0].page, requests, current + 1) == a
    requires NextUse(table[1].page, requests, current + 1) == b
    requires NextUse(table[2].page, requests, current + 1) == c
    ensures OptimalVictim(table, requests, current) ==
      if c >= (if b >= a then b else a) then 2 else if b >= a then 1 else 0
  {
    var ps := LoadedPages(table);
    assert ps[..2][..1] == [table[0].page];
    assert LastFarthest(ps[..2][..1], requests, current + 1) == 0;
    assert ps[..2] == [table[0].page, table[1].page];
    assert LastFarthest(ps[..2], requests, current + 1) == if b >= a then 1 else 0;
  }

  lemma NextUseAt(page: int, requests: seq<int>, start: nat, r: nat)
    requires start <= r < |requests| && requests[r] == page
    requires forall i :: start <= i < r ==> requests[i] != page
    ensures NextUse(page, requests, start) == r
  {
    NextUseIsFirstOccurrence(page, requests, start);
    assert requests[r] == page;
  }

  lemma NextUseNever(page: int, requests: seq<int>, start: nat)
    requires forall i :: start <= i < |requests| ==> requests[i] != page
    ensures NextUse(page, requests, start) == INT_MAX
  {
    NextUseIsFirstOccurrence(page, requests, start);
  }

  lemma OptExampleRequest0(rs: seq<int>)
    requires IsReference(rs)
    ensures OptRun(rs, 1, 3) ==
      OptState([Loaded(1, 0)], 1)
  {
    RunLoad(rs, 0, 3, OptState([], 0));
  }

  lemma OptExampleRequest1(rs: seq<int>)
    requires IsReference(rs)
    ensures OptRun(rs, 2, 3) ==
      OptState([Loaded(1, 0), Loaded(2, 1)], 2)
  {
    OptExampleRequest0(rs);
    RunLoad(rs, 1, 3, OptState([Loaded(1, 0)], 1));
  }

  lemma OptExampleRequest2(rs: seq<int>)
    requires IsReference(rs)
    ensures OptRun(rs, 3, 3) ==
      OptState([Loaded(1, 0), Loaded(2, 1), Loaded(3, 2)], 3)
  {
    OptExampleRequest1(rs);
    RunLoad(rs, 2, 3, OptState([Loaded(1, 0), Loaded(2, 1)], 2));
  }

  lemma OptExampleRequest3(rs: seq<int>)
    requires IsReference(rs)
    ensures OptRun(rs, 4, 3) ==
      OptState([Loaded(1, 0), Loaded(2, 1), Loaded(4, 3)], 4)
  {
    OptExampleRequest2(rs);
    NextUseAt(1, rs, 4, 4);
    NextUseAt(2, rs, 4, 5);
    NextUseAt(3, rs, 4, 9);
    VictimOfThree(OptState([Loaded(1, 0), Loaded(2, 1), Loaded(3, 2)], 3).table, rs, 3, 4, 5, 9);
    RunEvict(rs, 3, 3, OptState([Loaded(1, 0), Loaded(2, 1), Loaded(3, 2)], 3), 2);
  }

  lemma OptExampleRequest4(rs: seq<int>)
    requires IsReference(rs)
    ensures OptRun(rs, 5, 3) ==
      OptState([Loaded(1, 0), Loaded(2, 1), Loaded(4, 3)], 4)
  {
    OptExampleRequest3(rs);
    RunHit(rs, 4, 3, OptState([Loaded(1, 0), Loaded(2, 1), Loaded(4, 3)], 4), 0);
  }

  lemma OptExampleRequest5(rs: seq<int>)
    requires IsReference(rs)
    ensures OptRun(rs, 6, 3) ==
      OptState([Loaded(1, 0), Loaded(2, 1), Loaded(4, 3)], 4)
  {
    OptExampleRequest4(rs);
    RunHit(rs, 5, 3, OptState([Loaded(1, 0), Loaded(2, 1), Loaded(4, 3)], 4), 1);
  }

  lemma OptExampleRequest6(rs: seq<int>)
    requires IsReference(rs)
    ensures OptRun(rs, 7, 3) ==
      OptState([Loaded(1, 0), Loaded(2, 1), Loaded(5, 6)], 5)
  {
    OptExampleRequest5(rs);
    NextUseAt(1, rs, 7, 7);
    NextUseAt(2, rs, 7, 8);
    NextUseAt(4, rs, 7, 10);
    VictimOfThree(OptState([Loaded(1, 0), Loaded(2, 1), Loaded(4, 3)], 4).table, rs, 6, 7, 8, 10);
    RunEvict(rs, 6, 3, OptState([Loaded(1, 0), Loaded(2, 1), Loaded(4, 3)], 4), 2);
  }

  lemma OptExampleRequest7(rs: seq<int>)
    requires IsReference(rs)
    ensures OptRun(rs, 8, 3) ==
      OptState([Loaded(1, 0), Loaded(2, 1), Loaded(5, 6)], 5)
  {
    OptExampleRequest6(rs);
    RunHit(rs, 7, 3, OptState([Loaded(1, 0), Loaded(2, 1), Loaded(5, 6)], 5), 0);
  }

  lemma OptExampleRequest8(rs: seq<int>)
    requires IsReference(rs)
    ensures OptRun(rs, 9, 3) ==
      OptState([Loaded(1, 0), Loaded(2, 1), Loaded(5, 6)], 5)
  {
    OptExampleRequest7(rs);
    RunHit(rs, 8, 3, OptState([Loaded(1, 0), Loaded(2, 1), Loaded(5, 6)], 5), 1);
  }

  lemma OptExampleRequest9(rs: seq<int>)
    requires IsReference(rs)
    ensures OptRun(rs, 10, 3) ==
      OptState([Loaded(1, 0), Loaded(3, 9), Loaded(5, 6)], 6)
  {
    OptExampleRequest8(rs);
    NextUseNever(1, rs, 10);
    NextUseNever(2, rs, 10);
    NextUseAt(5, rs, 10, 11);
    VictimOfThree(OptState([Loaded(1, 0), Loaded(2, 1), Loaded(5, 6)], 5).table, rs, 9, INT_MAX, INT_MAX, 11);
    RunEvict(rs, 9, 3, OptState([Loaded(1, 0), Loaded(2, 1), Loaded(5, 6)], 5), 1);
  }

  lemma OptExampleRequest10(rs: seq<int>)
    requires IsReference(rs)
    ensures OptRun(rs, 11, 3) ==
      OptState([Loaded(1, 0), Loaded(4, 10), Loaded(5, 6)], 7)
  {
    OptExampleRequest9(rs);
    NextUseNever(1, rs, 11);
    NextUseNever(3, rs, 11);
    NextUseAt(5, rs, 11, 11);
    VictimOfThree(OptState([Loaded(1, 0), Loaded(3, 9), Loaded(5, 6)], 6).table, rs, 10, INT_MAX, INT_MAX, 11);
    RunEvict(rs, 10, 3, OptState([Loaded(1, 0), Loaded(3, 9), Loaded(5, 6)], 6), 1);
  }

  lemma OptExampleRequest11(rs: seq<int>)
    requires IsReference(rs)
    ensures OptRun(rs, 12, 3) ==
      OptState([Loaded(1, 0), Loaded(4, 10), Loaded(5, 6)], 7)
  {
    OptExampleRequest10(rs);
    RunHit(rs, 11, 3, OptState([Loaded(1, 0), Loaded(4, 10), Loaded(5, 6)], 7), 2);
  }

  /** On the reference string with three frames: seven faults, frames holding
      1, 4 and 5 at the end, pages 2 and 3 in swap. */
  lemma OptExample(rs: seq<int>, s: OptState)
    requires IsReference(rs) && s == OptRun(rs, 12, 3)
    ensures s.faults == 7 && LoadedPages(s.table) == [1, 4, 5]
    ensures SwapOf(rs, Elems(LoadedPages(s.table))) == {2, 3}
  {
    OptExampleRequest11(rs);
    assert LoadedPages(s.table) == [1, 4, 5];
    assert Elems([1, 4, 5]) == {1, 4, 5};
    ReferenceSwap(rs, {1, 4, 5});
    assert {1, 2, 3, 4, 5} - {1, 4, 5} == {2, 3};
  }

  /** The policy object: the frames in slot order and the fault counter. */
  class OPTPolicy {
    var frames: seq<MemoryFrame>
    var pageFaultCount: int

    constructor ()
      ensures frames == [] && pageFaultCount == 0
    {
      frames := [];
      pageFaultCount := 0;
    }

    /** The name the policy reports its results under. */
    function GetPolicyName(): (name: string)
      ensures name == "MIN"
    {
      "MIN"
    }

    /** The frames' contents and the counter, as the specification's state. */
    function State(): OptState
      reads this
    {
      OptState(LoadedOf(frames), pageFaultCount)
    }

    method Reset()
      modifies this
      ensures frames == [] && pageFaultCount == 0
    {
      frames := [];
      pageFaultCount := 0;
    }

    /** Serves every request in order, then reports the swap state. The final
        frames and count are those of the specification run (which keeps
        `OptInvariant`, by `OptRunInvariant`), and the swap is the requested
        pages less the resident ones. */
    method Simulate(sequence: PageSequence, numberOfFrames: int, executionTimeSeconds: int)
      returns (result: SimulationResult)
      requires numberOfFrames >= 1
      modifies this
      ensures State() == OptRun(sequence.requests, |sequence.requests|, numberOfFrames)
      ensures result == SimulationResult("MIN", executionTimeSeconds, pageFaultCount,
                                         SwapOf(sequence.requests, Elems(LoadedPages(LoadedOf(frames)))))
    {
      Reset();
      var requests: seq<int> := sequence.GetRequests();
      var i := 0;
      while i < |requests|
        invariant 0 <= i <= |requests|
        invariant State() == OptRun(requests, i, numberOfFrames)
      {
        ghost var before := State();
        ProcessPageRequest(requests[i], numberOfFrames, requests, i);
        assert State() == OptStep(before, requests[i], requests, i, numberOfFrames);
        i := i + 1;
      }
      var swapState := CalculateSwapState(sequence);
      result := SimulationResult(GetPolicyName(), executionTimeSeconds, pageFaultCount, swapState);
    }

    /** One request. A hit leaves the frame list and the counter exactly as
        they were; otherwise the new state is the specification's step. */
    method ProcessPageRequest(pageIndex: int, numberOfFrames: int, allRequests: seq<int>, currentIndex: nat)
      requires numberOfFrames >= 1
      modifies this
      ensures State() == OptStep(old(State()), pageIndex, allRequests, currentIndex, numberOfFrames)
      ensures pageIndex in LoadedPages(old(LoadedOf(frames))) ==>
        frames == old(frames) && pageFaultCount == old(pageFaultCount)
    {
      var resident := IsPageInMemory(pageIndex);
      ghost var s0 := State();
      assert s0 == old(State());
      if resident {
        OptStepHit(s0, pageIndex, allRequests, currentIndex, numberOfFrames);
        return;
      }
      pageFaultCount := pageFaultCount + 1;
      if |frames| < numberOfFrames {
        var frame := new MemoryFrame(pageIndex, currentIndex);
        ghost var before := LoadedOf(frames);
        assert before == s0.table;
        LoadedSnoc(frames, frame);
        frames := frames + [frame];
        OptStepLoad(s0, pageIndex, allRequests, currentIndex, numberOfFrames);
        assert LoadedOf(frames) == before + [Loaded(frame.pageIndex, frame.loadTime)];
        assert State() == OptStep(s0, pageIndex, allRequests, currentIndex, numberOfFrames);
      } else {
        var victimIndex := FindOptimalVictim(allRequests, currentIndex);
        var frame := new MemoryFrame(pageIndex, currentIndex);
        ghost var loaded := Loaded(pageIndex, currentIndex);
        assert Loaded(frame.pageIndex, frame.loadTime) == loaded;
        ghost var before := LoadedOf(frames);
        assert before == s0.table;
        var after := frames[victimIndex := frame];
        LoadedUpdate(frames, victimIndex, frame);
        assert LoadedOf(after) == before[victimIndex := loaded];
        frames := after;
        assert LoadedOf(frames) == s0.table[victimIndex := loaded];
        OptStepEvict(s0, pageIndex, allRequests, currentIndex, numberOfFrames, victimIndex);
        assert State() == OptStep(s0, pageIndex, allRequests, currentIndex, numberOfFrames);
      }
    }

    method IsPageInMemory(pageIndex: int) returns (found: bool)
      ensures found <==> pageIndex in LoadedPages(LoadedOf(frames))
    {
      ghost var pages := LoadedPages(LoadedOf(frames));
      var i := 0;
      while i < |frames|
        invariant 0 <= i <= |frames|
        invariant forall j :: 0 <= j < i ==> pages[j] != pageIndex
      {
        if frames[i].pageIndex == pageIndex {
          assert pages[i] == pageIndex;
          return true;
        }
        i := i + 1;
      }
      return false;
    }

    /** The victim slot: the one the scan over next uses ends on. */
    method FindOptimalVictim(allRequests: seq<int>, currentIndex: nat) returns (victimIndex: int)
      ensures |frames| == 0 ==> victimIndex == 0
      ensures |frames| > 0 ==> victimIndex == LastFarthest(LoadedPages(LoadedOf(frames)), allRequests, currentIndex + 1)
      ensures |frames| > 0 ==> 0 <= victimIndex < |frames|
    {
      victimIndex := 0;
      var farthestUse := -1;
      ghost var pages := LoadedPages(LoadedOf(frames));
      ghost var start := currentIndex + 1;
      var i := 0;
      while i < |frames|
        invariant 0 <= i <= |frames|
        invariant i == 0 ==> victimIndex == 0 && farthestUse == -1
        invariant i > 0 ==> 0 <= victimIndex < i
        invariant i > 0 ==> victimIndex == LastFarthest(pages[..i], allRequests, start)
        invariant i > 0 ==> farthestUse == NextUse(pages[victimIndex], allRequests, start)
      {
        var pageInFrame := frames[i].pageIndex;
        assert pageInFrame == pages[i];
        var nextUse := FindNextUse(pageInFrame, allRequests, currentIndex + 1);
        LastFarthestSnoc(pages, i, allRequests, start);
        if nextUse >= farthestUse {
          farthestUse := nextUse;
          victimIndex := i;
        }
        i := i + 1;
      }
      if |frames| > 0 {
        assert pages[..|frames|] == pages;
        assert victimIndex == LastFarthest(pages, allRequests, start);
      }
    }

    method FindNextUse(pageIndex: int, allRequests: seq<int>, startIndex: nat) returns (next: int)
      ensures next == NextUse(pageIndex, allRequests, startIndex)
    {
      var i := startIndex;
      while i < |allRequests|
        invariant startIndex <= i
        invariant NextUse(pageIndex, allRequests, i) == NextUse(pageIndex, allRequests, startIndex)
        decreases |allRequests| - i
      {
        if allRequests[i] == pageIndex {
          return i;
        }
        i := i + 1;
      }
      return INT_MAX;
    }

    /** The requested pages that no frame holds. */
    method CalculateSwapState(sequence: PageSequence) returns (swap: set<int>)
      ensures swap == SwapOf(sequence.requests, Elems(LoadedPages(LoadedOf(frames))))
    {
      var allPages := Elems(sequence.GetRequests());
      ghost var pages := LoadedPages(LoadedOf(frames));
      var pagesInMemory: set<int> := {};
      var i := 0;
      while i < |frames|
        invariant 0 <= i <= |frames|
        invariant pagesInMemory == Elems(pages[..i])
      {
        ElemsPrefixStep(pages, i);
        pagesInMemory := pagesInMemory + {frames[i].pageIndex};
        i := i + 1;
      }
      assert pages[..|frames|] == pages;
      swap := allPages - pagesInMemory;
    }
  }
}
