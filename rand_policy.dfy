/** The random policy: a resident set and a swap set, with any resident page
    as the victim at capacity. The choice is left open, so every property
    here holds whichever pages are chosen. */
module RandPolicy {
  import opened PageSets
  import opened PageSequences
  import opened SimulationResults

  datatype RandState = RandState(resident: set<int>, swap: set<int>, faults: int)

  /** One request, with `victim` the page chosen should the frames be full.
      A hit leaves everything as it was; a miss counts a fault, takes the
      page out of the swap set and admits it, after moving the victim from
      the resident set to the swap set when no frame is free. */
  function RandStep(s: RandState, p: int, n: int, victim: int): RandState
  {
    if p in s.resident then s
    else if |s.resident| < n then RandState(s.resident + {p}, s.swap - {p}, s.faults + 1)
    else RandState(s.resident - {victim} + {p}, s.swap - {p} + {victim}, s.faults + 1)
  }

  /** What a miss does, whichever resident page is chosen: one more fault,
      the page resident and out of the swap set; at capacity the victim
      leaves the frames for the swap set and the resident count stays. */
  lemma RandMiss(s: RandState, p: int, n: int, victim: int)
    requires p !in s.resident && (|s.resident| < n || victim in s.resident)
    ensures RandStep(s, p, n, victim).faults == s.faults + 1
    ensures p in RandStep(s, p, n, victim).resident && p !in RandStep(s, p, n, victim).swap
    ensures |s.resident| < n ==> RandStep(s, p, n, victim).resident == s.resident + {p}
    ensures |s.resident| >= n ==>
      victim !in RandStep(s, p, n, victim).resident && victim in RandStep(s, p, n, victim).swap &&
      |RandStep(s, p, n, victim).resident| == |s.resident|
  {
    if |s.resident| >= n {
      var rest := s.resident - {victim};
      assert s.resident == rest + {victim};
      assert |rest| == |s.resident| - 1;
    }
  }

  /** What holds after the first k requests: at most n resident pages; every
      page requested so far is resident or in the swap set and never both;
      between one fault per distinct page and one per request; and, while the
      distinct pages requested fit in the frames, nothing has been swapped
      out and each of them has faulted exactly once. */
  predicate RandInvariant(s: RandState, requests: seq<int>, k: nat, n: int)
    requires k <= |requests|
  {
    |s.resident| <= n && s.swap !! s.resident && s.swap + s.resident == Elems(requests[..k]) &&
    |Elems(requests[..k])| <= s.faults <= k &&
    (|Elems(requests[..k])| <= n ==> s.swap == {} && s.faults == |Elems(requests[..k])|)
  }

  lemma RandInvariantInitially(requests: seq<int>, n: int)
    requires n >= 1
    ensures RandInvariant(RandState({}, {}, 0), requests, 0, n)
  {
    assert requests[..0] == [];
  }

  /** A hit changes nothing, and the page was already requested. */
  lemma RandHitKeepsInvariant(s: RandState, requests: seq<int>, k: nat, n: int)
    requires k < |requests| && RandInvariant(s, requests, k, n)
    requires requests[k] in s.resident
    ensures RandInvariant(s, requests, k + 1, n)
  {
    ElemsPrefixStep(requests, k);
    assert Elems(requests[..k + 1]) == Elems(requests[..k]);
  }

  /** A miss with a free frame: the page is admitted and leaves the swap set. */
  lemma RandLoadKeepsInvariant(s: RandState, requests: seq<int>, k: nat, n: int)
    requires k < |requests| && RandInvariant(s, requests, k, n)
    requires requests[k] !in s.resident && |s.resident| < n
    ensures RandInvariant(RandState(s.resident + {requests[k]}, s.swap - {requests[k]}, s.faults + 1),
      requests, k + 1, n)
  {
    ElemsPrefixStep(requests, k);
    ElemsCard(requests[..k + 1]);
    AdmitKeepsSets(s.resident, s.swap, Elems(requests[..k]), s.faults, n, requests[k]);
  }

  /** The set reasoning behind a load: admitting a page that is not resident
      to a resident set with room keeps the sets' relation to the pages
      requested, now including that page. */
  lemma AdmitKeepsSets(resident: set<int>, swap: set<int>, before: set<int>, faults: int, n: int, p: int)
    requires |resident| < n && p !in resident
    requires swap !! resident && swap + resident == before && |before| <= faults
    requires |before| <= n ==> swap == {} && faults == |before|
    ensures |resident + {p}| <= n
    ensures (swap - {p}) !! (resident + {p}) && (swap - {p}) + (resident + {p}) == before + {p}
    ensures |before + {p}| <= faults + 1
    ensures |before + {p}| <= n ==> swap - {p} == {} && faults + 1 == |before + {p}|
  {
    var after := before + {p};
    assert |resident + {p}| == |resident| + 1;
    if p in swap {
      // a page coming back from the swap set: some page was swapped out
      // earlier, so the pages requested no longer fit
      assert after == before;
      assert |before| > n;
    } else {
      assert p !in before;
      assert |after| == |before| + 1;
    }
  }

  /** A miss with every frame taken: the victim moves to the swap set and the
      page takes its place. As the frames were full when the page was not
      among them, the distinct pages no longer fit. */
  lemma RandEvictKeepsInvariant(s: RandState, requests: seq<int>, k: nat, n: int, victim: int)
    requires k < |requests| && RandInvariant(s, requests, k, n)
    requires requests[k] !in s.resident && |s.resident| >= n && victim in s.resident
    ensures RandInvariant(RandState(s.resident - {victim} + {requests[k]}, s.swap - {requests[k]} + {victim},
      s.faults + 1), requests, k + 1, n)
  {
    var p := requests[k];
    ElemsPrefixStep(requests, k);
    ElemsCard(requests[..k + 1]);
    var before, after := Elems(requests[..k]), Elems(requests[..k + 1]);
    var rest := s.resident - {victim};
    assert s.resident == rest + {victim};
    assert |rest| == |s.resident| - 1;
    var resident, swap := rest + {p}, s.swap - {p} + {victim};
    assert |resident| == |s.resident|;
    assert swap !! resident;
    assert swap + resident == after;
    assert s.resident + {p} <= after;
    assert |s.resident + {p}| == |s.resident| + 1;
  }

  /** One request keeps the invariant, whichever resident page is the victim. */
  lemma RandStepKeepsInvariant(s: RandState, requests: seq<int>, k: nat, n: int, victim: int)
    requires k < |requests| && n >= 1
    requires RandInvariant(s, requests, k, n)
    requires requests[k] !in s.resident && |s.resident| >= n ==> victim in s.resident
    ensures RandInvariant(RandStep(s, requests[k], n, victim), requests, k + 1, n)
  {
    var p := requests[k];
    if p in s.resident {
      RandHitKeepsInvariant(s, requests, k, n);
    } else if |s.resident| < n {
      RandLoadKeepsInvariant(s, requests, k, n);
    } else {
      RandEvictKeepsInvariant(s, requests, k, n, victim);
    }
  }

  /** What a finished run reports: the swap set is the requested pages less
      the resident ones, there is at most one fault per request, and when
      the distinct pages fit in the frames each faults once and none is
      swapped out. */
  lemma RandRunOutcome(s: RandState, requests: seq<int>, n: int)
    requires RandInvariant(s, requests, |requests|, n)
    ensures s.swap == SwapOf(requests, s.resident)
    ensures s.faults <= |requests|
    ensures |Elems(requests)| <= n ==> s.faults == |Elems(requests)| && s.swap == {}
  {
    assert requests[..|requests|] == requests;
  }

  /** The policy object: the resident and swap sets and the fault counter.
      The source's random-number generator is replaced by an unconstrained
      choice. */
  class RANDPageReplacementPolicy {
    var pagesInMemory: set<int>
    var swapState: set<int>
    var pageFaults: int

    constructor ()
      ensures pagesInMemory == {} && swapState == {} && pageFaults == 0
    {
      pagesInMemory := {};
      swapState := {};
      pageFaults := 0;
    }

    /** The name the policy reports its results under. */
    function GetPolicyName(): (name: string)
      ensures name == "RAND"
    {
      "RAND"
    }

    function State(): RandState
      reads this
    {
      RandState(pagesInMemory, swapState, pageFaults)
    }

    method Reset()
      modifies this
      ensures pagesInMemory == {} && swapState == {} && pageFaults == 0
    {
      pagesInMemory := {};
      swapState := {};
      pageFaults := 0;
    }

    /** Serves every request in order. Whatever pages are chosen, the final
        state keeps the invariant, the reported swap is the requested pages
        less the resident ones, and when the distinct pages fit in the frames
        each faults once and nothing is swapped out. */
    method Simulate(sequence: PageSequence, numberOfFrames: int, executionTimeSeconds: int)
      returns (result: SimulationResult)
      requires numberOfFrames >= 1
      modifies this
      ensures RandInvariant(State(), sequence.requests, |sequence.requests|, numberOfFrames)
      ensures swapState == SwapOf(sequence.requests, pagesInMemory)
      ensures |Elems(sequence.requests)| <= numberOfFrames ==>
        pageFaults == |Elems(sequence.requests)| && swapState == {}
      ensures result == SimulationResult("RAND", executionTimeSeconds, pageFaults, swapState)
    {
      Reset();
      var requests: seq<int> := sequence.GetRequests();
      RandInvariantInitially(requests, numberOfFrames);
      var i := 0;
      while i < |requests|
        invariant 0 <= i <= |requests|
        invariant RandInvariant(State(), requests, i, numberOfFrames)
      {
        ServeNext(requests, i, numberOfFrames);
        i := i + 1;
      }
      RandRunOutcome(State(), requests, numberOfFrames);
      result := SimulationResult(GetPolicyName(), executionTimeSeconds, pageFaults, swapState);
    }

    /** Serves request i of the run; the invariant carries over to the
        first i + 1 requests, whichever page is chosen. */
    method ServeNext(requests: seq<int>, i: nat, numberOfFrames: int)
      requires numberOfFrames >= 1 && i < |requests|
      requires RandInvariant(State(), requests, i, numberOfFrames)
      modifies this
      ensures RandInvariant(State(), requests, i + 1, numberOfFrames)
    {
      ghost var before := State();
      ghost var victim := ServeRequest(requests[i], numberOfFrames);
      RandStepKeepsInvariant(before, requests, i, numberOfFrames, victim);
    }

    /** The body of the loop in `simulate`, for one request: the fields move
        as the step with the chosen page says, and when a page is evicted it
        is one of the resident ones. */
    method ServeRequest(pageIndex: int, numberOfFrames: int) returns (ghost victim: int)
      requires numberOfFrames >= 1
      modifies this
      ensures State() == RandStep(old(State()), pageIndex, numberOfFrames, victim)
      ensures pageIndex !in old(pagesInMemory) && |old(pagesInMemory)| >= numberOfFrames ==>
        victim in old(pagesInMemory)
    {
      victim := pageIndex;
      if pageIndex !in pagesInMemory {
        pageFaults := pageFaults + 1;
        swapState := swapState - {pageIndex};
        if |pagesInMemory| < numberOfFrames {
          pagesInMemory := pagesInMemory + {pageIndex};
        } else {
          var pageToReplace := SelectRandomPage();
          victim := pageToReplace;
          pagesInMemory := pagesInMemory - {pageToReplace};
          swapState := swapState + {pageToReplace};
          pagesInMemory := pagesInMemory + {pageIndex};
        }
      }
    }

    /** Some resident page; which one is not specified. */
    method SelectRandomPage() returns (page: int)
      requires pagesInMemory != {}
      ensures page in pagesInMemory
    {
      ghost var some := PickOne(pagesInMemory);
      page :| page in pagesInMemory;
    }
  }
}
