/** The first-in, first-out policy: a queue of resident pages in admission
    order, the resident set beside it and the set of evicted pages. */
module FifoPolicy {
  import opened PageSets
  import opened PageSequences
  import opened SimulationResults
  import opened ReferenceStrings

  datatype FifoState = FifoState(queue: seq<int>, resident: set<int>, swap: set<int>, faults: int)

  /** One request. A hit leaves everything as it was (the queue is not
      reordered). A miss counts a fault, takes the page out of the swap set
      and admits it at the tail; at capacity the head is evicted first and
      goes to the swap set. The head is only absent when the resident set
      and the queue disagree, which `FifoInvariant` rules out (the source
      would fail there on an empty poll); the step then leaves the state
      alone. */
  function FifoStep(s: FifoState, p: int, n: int): (r: FifoState)
    ensures p in s.resident ==> r == s
    ensures p !in s.resident && (|s.resident| < n || s.queue != []) ==>
      r.faults == s.faults + 1 && p in r.resident && |r.queue| > 0 && r.queue[|r.queue| - 1] == p
  {
    if p in s.resident then s
    else if |s.resident| < n then
      FifoState(s.queue + [p], s.resident + {p}, s.swap - {p}, s.faults + 1)
    else if s.queue == [] then s
    else
      var victim := s.queue[0];
      FifoState(s.queue[1..] + [p], s.resident - {victim} + {p}, s.swap - {p} + {victim}, s.faults + 1)
  }

  lemma FifoStepLoad(s: FifoState, p: int, n: int)
    requires p !in s.resident && |s.resident| < n
    ensures FifoStep(s, p, n) == FifoState(s.queue + [p], s.resident + {p}, s.swap - {p}, s.faults + 1)
  {
  }

  lemma FifoStepEvict(s: FifoState, p: int, n: int)
    requires p !in s.resident && |s.resident| >= n && s.queue != []
    ensures FifoStep(s, p, n) ==
      FifoState(s.queue[1..] + [p], s.resident - {s.queue[0]} + {p}, s.swap - {p} + {s.queue[0]}, s.faults + 1)
  {
  }

  /** The state after the first k requests, from the state `reset` leaves. */
  function FifoRun(requests: seq<int>, k: nat, n: int): FifoState
    requires k <= |requests|
  {
    if k == 0 then FifoState([], {}, {}, 0)
    else FifoStep(FifoRun(requests, k - 1, n), requests[k - 1], n)
  }

  lemma FifoRunNext(requests: seq<int>, k: nat, n: int)
    requires k < |requests|
    ensures FifoRun(requests, k + 1, n) == FifoStep(FifoRun(requests, k, n), requests[k], n)
  {
  }

  /** What holds after the first k requests: the queue has no page twice and
      holds exactly the resident pages, at most n of them; every page
      requested so far is resident or in the swap set and never both; and
      there is at least one fault per distinct page requested. */
  predicate FifoInvariant(s: FifoState, requests: seq<int>, k: nat, n: int)
    requires k <= |requests|
  {
    Distinct(s.queue) && Elems(s.queue) == s.resident && |s.queue| <= n &&
    s.swap !! s.resident && s.swap + s.resident == Elems(requests[..k]) &&
    |Elems(requests[..k])| <= s.faults <= k
  }

  lemma FifoInvariantInitially(requests: seq<int>, n: int)
    requires n >= 1
    ensures FifoInvariant(FifoRun(requests, 0, n), requests, 0, n)
  {
    assert requests[..0] == [];
  }

  /** Admitting a page the queue lacks at its tail. */
  lemma QueueAppend(q: seq<int>, p: int)
    requires Distinct(q) && p !in q
    ensures Distinct(q + [p]) && Elems(q + [p]) == Elems(q) + {p}
  {
  }

  /** Dropping the head of a queue and admitting a page it lacks at the tail. */
  lemma QueueRotate(q: seq<int>, p: int)
    requires Distinct(q) && q != [] && p !in q
    ensures Distinct(q[1..] + [p]) && Elems(q[1..] + [p]) == Elems(q) - {q[0]} + {p}
  {
    var rest := q[1..];
    assert q == [q[0]] + rest;
    assert q[0] !in rest;
    assert Elems(q) == {q[0]} + Elems(rest);
    QueueAppend(rest, p);
  }

  lemma FifoLoadKeepsInvariant(s: FifoState, requests: seq<int>, k: nat, n: int)
    requires 0 < k <= |requests| && n >= 1
    requires FifoInvariant(s, requests, k - 1, n)
    requires requests[k - 1] !in s.resident && |s.resident| < n
    requires Elems(requests[..k]) == Elems(requests[..k - 1]) + {requests[k - 1]}
    requires |Elems(requests[..k])| <= k
    ensures FifoInvariant(FifoState(s.queue + [requests[k - 1]], s.resident + {requests[k - 1]},
                                    s.swap - {requests[k - 1]}, s.faults + 1), requests, k, n)
  {
    DistinctCard(s.queue);
    QueueAppend(s.queue, requests[k - 1]);
  }

  lemma FifoEvictKeepsInvariant(s: FifoState, requests: seq<int>, k: nat, n: int)
    requires 0 < k <= |requests| && n >= 1
    requires FifoInvariant(s, requests, k - 1, n)
    requires requests[k - 1] !in s.resident && |s.resident| >= n && s.queue != []
    requires Elems(requests[..k]) == Elems(requests[..k - 1]) + {requests[k - 1]}
    requires |Elems(requests[..k])| <= k
    ensures FifoInvariant(FifoState(s.queue[1..] + [requests[k - 1]], s.resident - {s.queue[0]} + {requests[k - 1]},
                                    s.swap - {requests[k - 1]} + {s.queue[0]}, s.faults + 1), requests, k, n)
  {
    QueueRotate(s.queue, requests[k - 1]);
    assert s.queue[0] in Elems(s.queue);
  }

  lemma FifoHitKeepsInvariant(s: FifoState, requests: seq<int>, k: nat, n: int)
    requires 0 < k <= |requests| && n >= 1
    requires FifoInvariant(s, requests, k - 1, n)
    requires requests[k - 1] in s.resident
    requires Elems(requests[..k]) == Elems(requests[..k - 1]) + {requests[k - 1]}
    ensures FifoInvariant(s, requests, k, n)
  {
  }

  /** One step keeps the invariant. */
  lemma FifoStepKeepsInvariant(s: FifoState, requests: seq<int>, k: nat, n: int)
    requires 0 < k <= |requests| && n >= 1
    requires FifoInvariant(s, requests, k - 1, n)
    ensures FifoInvariant(FifoStep(s, requests[k - 1], n), requests, k, n)
  {
    var p := requests[k - 1];
    ElemsPrefixStep(requests, k - 1);
    if p in s.resident {
      FifoHitKeepsInvariant(s, requests, k, n);
    } else {
      ElemsCard(requests[..k]);
      if |s.resident| < n {
        FifoLoadKeepsInvariant(s, requests, k, n);
        FifoStepLoad(s, p, n);
      } else {
        DistinctCard(s.queue);
        FifoEvictKeepsInvariant(s, requests, k, n);
        FifoStepEvict(s, p, n);
      }
    }
  }

  /** One step of a run that has evicted nothing evicts nothing while the
      pages requested still fit, and faults exactly on the new ones. */
  lemma FifoFitStep(s: FifoState, requests: seq<int>, k: nat, n: int)
    requires 0 < k <= |requests| && n >= 1
    requires FifoInvariant(s, requests, k - 1, n)
    requires s.swap == {} && s.faults == |Elems(requests[..k - 1])|
    requires |Elems(requests[..k])| <= n
    ensures FifoStep(s, requests[k - 1], n).swap == {}
    ensures FifoStep(s, requests[k - 1], n).faults == |Elems(requests[..k])|
  {
    var p := requests[k - 1];
    ElemsPrefixStep(requests, k - 1);
    var before, after := Elems(requests[..k - 1]), Elems(requests[..k]);
    if p in s.resident {
      assert after == before;
    } else {
      assert s.resident == before && p !in before;
      assert |after| == |before| + 1;
      DistinctCard(s.queue);
      FifoStepLoad(s, p, n);
    }
  }

  /** The invariant holds after every prefix of the sequence. */
  lemma {:induction false} FifoRunInvariant(requests: seq<int>, k: nat, n: int)
    requires k <= |requests| && n >= 1
    ensures FifoInvariant(FifoRun(requests, k, n), requests, k, n)
  {
    if k == 0 {
      FifoInvariantInitially(requests, n);
    } else {
      FifoRunInvariant(requests, k - 1, n);
      FifoStepKeepsInvariant(FifoRun(requests, k - 1, n), requests, k, n);
    }
  }

  /** While the pages requested so far fit in the frames, a run has
      evicted nothing and faulted exactly once per distinct page. */
  lemma {:induction false} FifoRunFitting(requests: seq<int>, k: nat, n: int)
    requires k <= |requests| && n >= 1
    requires |Elems(requests[..k])| <= n
    ensures FifoRun(requests, k, n).swap == {}
    ensures FifoRun(requests, k, n).faults == |Elems(requests[..k])|
  {
    if k == 0 {
      assert requests[..0] == [];
    } else {
      ElemsPrefixGrows(requests, k - 1);
      FifoRunFitting(requests, k - 1, n);
      FifoRunInvariant(requests, k - 1, n);
      FifoFitStep(FifoRun(requests, k - 1, n), requests, k, n);
    }
  }

  /** The swap set a whole run ends with is the requested pages less the
      resident ones, the same formula the other policies compute afterwards. */
  lemma FifoSwapIsRequestedLessResident(requests: seq<int>, n: int)
    requires n >= 1
    ensures FifoRun(requests, |requests|, n).swap == SwapOf(requests, FifoRun(requests, |requests|, n).resident)
  {
    FifoRunInvariant(requests, |requests|, n);
    assert requests[..|requests|] == requests;
  }

  /** At capacity the evicted page is the head of the queue, the earliest
      admitted of the resident pages, and it moves to the swap set. */
  lemma FifoEvictsHead(s: FifoState, requests: seq<int>, k: nat, n: int)
    requires k < |requests| && n >= 1 && FifoInvariant(s, requests, k, n)
    requires requests[k] !in s.resident && |s.resident| >= n
    ensures s.queue != []
    ensures s.queue[0] !in FifoStep(s, requests[k], n).resident
    ensures s.queue[0] in FifoStep(s, requests[k], n).swap
    ensures FifoStep(s, requests[k], n).resident == s.resident - {s.queue[0]} + {requests[k]}
  {
    DistinctCard(s.queue);
    FifoStepEvict(s, requests[k], n);
    assert s.queue[0] in Elems(s.queue);
  }

  /** The queue is as long as the resident set, so at capacity it has a head. */
  lemma FifoRunQueueHoldsResident(requests: seq<int>, k: nat, n: int)
    requires k <= |requests| && n >= 1
    ensures |FifoRun(requests, k, n).resident| < n || FifoRun(requests, k, n).queue != []
  {
    FifoRunInvariant(requests, k, n);
    DistinctCard(FifoRun(requests, k, n).queue);
  }

  lemma FifoRunHit(requests: seq<int>, k: nat, n: int, s: FifoState)
    requires k < |requests| && FifoRun(requests, k, n) == s && requests[k] in s.resident
    ensures FifoRun(requests, k + 1, n) == s
  {
  }

  lemma FifoRunLoad(requests: seq<int>, k: nat, n: int, s: FifoState)
    requires k < |requests| && FifoRun(requests, k, n) == s
    requires requests[k] !in s.resident && |s.resident| < n
    ensures FifoRun(requests, k + 1, n) ==
      FifoState(s.queue + [requests[k]], s.resident + {requests[k]}, s.swap - {requests[k]}, s.faults + 1)
  {
  }

  lemma FifoRunEvict(requests: seq<int>, k: nat, n: int, s: FifoState)
    requires k < |requests| && FifoRun(requests, k, n) == s
    requires requests[k] !in s.resident && |s.resident| >= n && s.queue != []
    ensures FifoRun(requests, k + 1, n) ==
      FifoState(s.queue[1..] + [requests[k]], s.resident - {s.queue[0]} + {requests[k]},
                s.swap - {requests[k]} + {s.queue[0]}, s.faults + 1)
  {
    FifoStepEvict(s, requests[k], n);
  }

  /** `1 2 1 2` with one frame: every request faults, and 1 ends in swap. */
  lemma FifoAlternatingRequest0(rs: seq<int>)
    requires rs == [1, 2, 1, 2]
    ensures FifoRun(rs, 1, 1) == FifoState([1], {1}, {}, 1)
  {
    FifoRunLoad(rs, 0, 1, FifoState([], {}, {}, 0));
  }

  lemma FifoAlternatingRequest1(rs: seq<int>)
    requires rs == [1, 2, 1, 2]
    ensures FifoRun(rs, 2, 1) == FifoState([2], {2}, {1}, 2)
  {
    FifoAlternatingRequest0(rs);
    FifoRunEvict(rs, 1, 1, FifoState([1], {1}, {}, 1));
  }

  lemma FifoAlternatingRequest2(rs: seq<int>)
    requires rs == [1, 2, 1, 2]
    ensures FifoRun(rs, 3, 1) == FifoState([1], {1}, {2}, 3)
  {
    FifoAlternatingRequest1(rs);
    FifoRunEvict(rs, 2, 1, FifoState([2], {2}, {1}, 2));
  }

  lemma FifoAlternatingRequest3(rs: seq<int>)
    requires rs == [1, 2, 1, 2]
    ensures FifoRun(rs, 4, 1) == FifoState([2], {2}, {1}, 4)
  {
    FifoAlternatingRequest2(rs);
    FifoRunEvict(rs, 3, 1, FifoState([1], {1}, {2}, 3));
  }

  lemma FifoReferenceRequest0(rs: seq<int>)
    requires IsReference(rs)
    ensures FifoRun(rs, 1, 3) == FifoState([1], {1}, {}, 1)
  {
    FifoRunLoad(rs, 0, 3, FifoState([], {}, {}, 0));
  }

  lemma FifoReferenceRequest1(rs: seq<int>)
    requires IsReference(rs)
    ensures FifoRun(rs, 2, 3) == FifoState([1, 2], {1, 2}, {}, 2)
  {
    FifoReferenceRequest0(rs);
    FifoRunLoad(rs, 1, 3, FifoState([1], {1}, {}, 1));
  }

  lemma FifoReferenceRequest2(rs: seq<int>)
    requires IsReference(rs)
    ensures FifoRun(rs, 3, 3) == FifoState([1, 2, 3], {1, 2, 3}, {}, 3)
  {
    FifoReferenceRequest1(rs);
    FifoRunLoad(rs, 2, 3, FifoState([1, 2], {1, 2}, {}, 2));
  }

  lemma FifoReferenceRequest3(rs: seq<int>)
    requires IsReference(rs)
    ensures FifoRun(rs, 4, 3) == FifoState([2, 3, 4], {2, 3, 4}, {1}, 4)
  {
    FifoReferenceRequest2(rs);
    FifoRunEvict(rs, 3, 3, FifoState([1, 2, 3], {1, 2, 3}, {}, 3));
  }

  lemma FifoReferenceRequest4(rs: seq<int>)
    requires IsReference(rs)
    ensures FifoRun(rs, 5, 3) == FifoState([3, 4, 1], {1, 3, 4}, {2}, 5)
  {
    FifoReferenceRequest3(rs);
    FifoRunEvict(rs, 4, 3, FifoState([2, 3, 4], {2, 3, 4}, {1}, 4));
  }

  lemma FifoReferenceRequest5(rs: seq<int>)
    requires IsReference(rs)
    ensures FifoRun(rs, 6, 3) == FifoState([4, 1, 2], {1, 2, 4}, {3}, 6)
  {
    FifoReferenceRequest4(rs);
    FifoRunEvict(rs, 5, 3, FifoState([3, 4, 1], {1, 3, 4}, {2}, 5));
  }

  lemma FifoReferenceRequest6(rs: seq<int>)
    requires IsReference(rs)
    ensures FifoRun(rs, 7, 3) == FifoState([1, 2, 5], {1, 2, 5}, {3, 4}, 7)
  {
    FifoReferenceRequest5(rs);
    FifoRunEvict(rs, 6, 3, FifoState([4, 1, 2], {1, 2, 4}, {3}, 6));
  }

  lemma FifoReferenceRequest7(rs: seq<int>)
    requires IsReference(rs)
    ensures FifoRun(rs, 8, 3) == FifoState([1, 2, 5], {1, 2, 5}, {3, 4}, 7)
  {
    FifoReferenceRequest6(rs);
    FifoRunHit(rs, 7, 3, FifoState([1, 2, 5], {1, 2, 5}, {3, 4}, 7));
  }

  lemma FifoReferenceRequest8(rs: seq<int>)
    requires IsReference(rs)
    ensures FifoRun(rs, 9, 3) == FifoState([1, 2, 5], {1, 2, 5}, {3, 4}, 7)
  {
    FifoReferenceRequest7(rs);
    FifoRunHit(rs, 8, 3, FifoState([1, 2, 5], {1, 2, 5}, {3, 4}, 7));
  }

  lemma FifoReferenceRequest9(rs: seq<int>)
    requires IsReference(rs)
    ensures FifoRun(rs, 10, 3) == FifoState([2, 5, 3], {2, 3, 5}, {1, 4}, 8)
  {
    FifoReferenceRequest8(rs);
    FifoRunEvict(rs, 9, 3, FifoState([1, 2, 5], {1, 2, 5}, {3, 4}, 7));
  }

  lemma FifoReferenceRequest10(rs: seq<int>)
    requires IsReference(rs)
    ensures FifoRun(rs, 11, 3) == FifoState([5, 3, 4], {3, 4, 5}, {1, 2}, 9)
  {
    FifoReferenceRequest9(rs);
    FifoRunEvict(rs, 10, 3, FifoState([2, 5, 3], {2, 3, 5}, {1, 4}, 8));
  }

  lemma FifoReferenceRequest11(rs: seq<int>)
    requires IsReference(rs)
    ensures FifoRun(rs, 12, 3) == FifoState([5, 3, 4], {3, 4, 5}, {1, 2}, 9)
  {
    FifoReferenceRequest10(rs);
    FifoRunHit(rs, 11, 3, FifoState([5, 3, 4], {3, 4, 5}, {1, 2}, 9));
  }


  lemma FifoAlternatingExample()
    ensures FifoRun([1, 2, 1, 2], 4, 1).faults == 4
    ensures FifoRun([1, 2, 1, 2], 4, 1).swap == {1}
  {
    FifoAlternatingRequest3([1, 2, 1, 2]);
  }

  /** The reference string with three frames: nine faults, and the pages
      evicted last and not reloaded are 1 and 2. */
  lemma FifoReferenceExample(rs: seq<int>)
    requires IsReference(rs)
    ensures FifoRun(rs, 12, 3).faults == 9
    ensures FifoRun(rs, 12, 3).queue == [5, 3, 4]
    ensures FifoRun(rs, 12, 3).swap == {1, 2}
  {
    FifoReferenceRequest11(rs);
  }

  /** The policy object: the queue, the resident and swap sets, and the
      fault counter, as the source keeps them. */
  class FIFOPolicy {
    var frameQueue: seq<int>
    var pagesInMemory: set<int>
    var swapState: set<int>
    var pageFaults: int

    constructor ()
      ensures frameQueue == [] && pagesInMemory == {} && swapState == {} && pageFaults == 0
    {
      frameQueue := [];
      pagesInMemory := {};
      swapState := {};
      pageFaults := 0;
    }

    /** The name the policy reports its results under. */
    function GetPolicyName(): (name: string)
      ensures name == "FIFO"
    {
      "FIFO"
    }

    function State(): FifoState
      reads this
    {
      FifoState(frameQueue, pagesInMemory, swapState, pageFaults)
    }

    method Reset()
      modifies this
      ensures frameQueue == [] && pagesInMemory == {} && swapState == {} && pageFaults == 0
    {
      frameQueue := [];
      pagesInMemory := {};
      swapState := {};
      pageFaults := 0;
    }

    /** Serves every request in order. The fields end as the specification
        run leaves them, and the reported swap is the requested pages less
        the resident ones. */
    method Simulate(sequence: PageSequence, numberOfFrames: int, executionTimeSeconds: int)
      returns (result: SimulationResult)
      requires numberOfFrames >= 1
      modifies this
      ensures State() == FifoRun(sequence.requests, |sequence.requests|, numberOfFrames)
      ensures result == SimulationResult("FIFO", executionTimeSeconds, pageFaults, swapState)
      ensures swapState == SwapOf(sequence.requests, pagesInMemory)
    {
      Reset();
      var requests: seq<int> := sequence.GetRequests();
      var i := 0;
      while i < |requests|
        invariant 0 <= i <= |requests|
        invariant State() == FifoRun(requests, i, numberOfFrames)
      {
        FifoRunQueueHoldsResident(requests, i, numberOfFrames);
        ServeRequest(requests[i], numberOfFrames);
        FifoRunNext(requests, i, numberOfFrames);
        i := i + 1;
      }
      FifoSwapIsRequestedLessResident(requests, numberOfFrames);
      result := SimulationResult(GetPolicyName(), executionTimeSeconds, pageFaults, swapState);
    }

    /** The body of the loop in `simulate`, for one request: the fields move
        as the specification's step says. The queue has a head whenever the
        resident set is full, which every run guarantees
        (`FifoRunQueueHoldsResident`). */
    method ServeRequest(pageIndex: int, numberOfFrames: int)
      requires |pagesInMemory| < numberOfFrames || frameQueue != []
      modifies this
      ensures State() == FifoStep(old(State()), pageIndex, numberOfFrames)
    {
      if pageIndex !in pagesInMemory {
        pageFaults := pageFaults + 1;
        swapState := swapState - {pageIndex};
        if |pagesInMemory| < numberOfFrames {
          pagesInMemory := pagesInMemory + {pageIndex};
          frameQueue := frameQueue + [pageIndex];
        } else {
          var pageToReplace := frameQueue[0];
          frameQueue := frameQueue[1..];
          pagesInMemory := pagesInMemory - {pageToReplace};
          swapState := swapState + {pageToReplace};
          pagesInMemory := pagesInMemory + {pageIndex};
          frameQueue := frameQueue + [pageIndex];
        }
      }
    }
  }
}
