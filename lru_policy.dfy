/** The least-recently-used policy: frames in slot order, each stamped with
    the position of its most recent request; a miss at capacity replaces the
    slot with the oldest stamp. */
module LruPolicy {
  import opened PageSets
  import opened MemoryFrames
  import opened PageSequences
  import opened SimulationResults
  import opened ReferenceStrings

  /** The slot a running minimum over last-access stamps settles on: strict
      `<`, so the lowest slot wins a tie. */
  function LruVictim(table: seq<FrameValue>): (k: nat)
    requires |table| > 0
    ensures k < |table|
  {
    if |table| == 1 then 0
    else
      var v := LruVictim(table[..|table| - 1]);
      if table[|table| - 1].lastAccess < table[v].lastAccess then |table| - 1 else v
  }

  /** The victim's stamp is the least one, and every earlier slot's is larger. */
  lemma {:induction false} LruVictimIsFirstMinimum(table: seq<FrameValue>)
    requires |table| > 0
    ensures forall j :: 0 <= j < |table| ==> table[LruVictim(table)].lastAccess <= table[j].lastAccess
    ensures forall j :: 0 <= j < LruVictim(table) ==> table[j].lastAccess > table[LruVictim(table)].lastAccess
  {
    if |table| > 1 {
      var init := table[..|table| - 1];
      LruVictimIsFirstMinimum(init);
      assert forall j :: 0 <= j < |init| ==> init[j] == table[j];
    }
  }

  /** One more iteration of the scan, on the first i + 1 slots. */
  lemma LruVictimSnoc(table: seq<FrameValue>, i: nat)
    requires 0 < i < |table|
    ensures LruVictim(table[..i + 1]) ==
      var v := LruVictim(table[..i]);
      if table[i].lastAccess < table[v].lastAccess then i else v
  {
    assert table[..i + 1][..i] == table[..i];
  }

  datatype LruState = LruState(table: seq<FrameValue>, faults: int)

  /** One request at position t: a hit refreshes the first slot holding the
      page; a miss counts a fault and appends a frame stamped t or, at
      capacity, overwrites the victim's slot with one. */
  function LruStep(s: LruState, p: int, t: int, n: int): LruState
    requires n >= 1
  {
    var ps := Pages(s.table);
    if p in ps then
      var k := IndexOf(ps, p);
      LruState(s.table[k := s.table[k].(lastAccess := t)], s.faults)
    else if |s.table| < n then
      LruState(s.table + [FrameValue(p, t, t)], s.faults + 1)
    else
      LruState(s.table[LruVictim(s.table) := FrameValue(p, t, t)], s.faults + 1)
  }

  lemma LruStepHit(s: LruState, p: int, t: int, n: int, k: nat)
    requires n >= 1 && k < |s.table| && s.table[k].page == p
    requires forall j :: 0 <= j < k ==> s.table[j].page != p
    ensures LruStep(s, p, t, n) == LruState(s.table[k := s.table[k].(lastAccess := t)], s.faults)
  {
    IndexOfAt(Pages(s.table), p, k);
  }

  lemma LruStepLoad(s: LruState, p: int, t: int, n: int)
    requires n >= 1 && p !in Pages(s.table) && |s.table| < n
    ensures LruStep(s, p, t, n) == LruState(s.table + [FrameValue(p, t, t)], s.faults + 1)
  {
  }

  lemma LruStepEvict(s: LruState, p: int, t: int, n: int, v: nat)
    requires n >= 1 && p !in Pages(s.table) && |s.table| >= n && v == LruVictim(s.table)
    ensures LruStep(s, p, t, n) == LruState(s.table[v := FrameValue(p, t, t)], s.faults + 1)
  {
  }

  /** The state after the first k requests of a run that starts empty. */
  function LruRun(requests: seq<int>, k: nat, n: int): LruState
    requires k <= |requests| && n >= 1
  {
    if k == 0 then LruState([], 0)
    else LruStep(LruRun(requests, k - 1, n), requests[k - 1], k - 1, n)
  }

  /** The run one request further is one more step. */
  lemma LruRunNext(requests: seq<int>, k: nat, n: int)
    requires k < |requests| && n >= 1
    ensures LruRun(requests, k + 1, n) == LruStep(LruRun(requests, k, n), requests[k], k, n)
  {
  }

  /** What holds of the frames after the first k requests: no page twice,
      at most n slots, at least one fault per distinct page, and the stamps
      described by `LruRecency`. */
  predicate LruInvariant(s: LruState, requests: seq<int>, k: nat, n: int)
    requires k <= |requests|
  {
    Distinct(Pages(s.table)) && |s.table| <= n &&
    |Elems(requests[..k])| <= s.faults <= k &&
    LruRecency(s.table, requests, k)
  }

  /** Each slot's stamp is the position of its page's latest request among
      the first k, and is no earlier than the frame's load time. */
  predicate LruRecency(table: seq<FrameValue>, requests: seq<int>, k: nat)
    requires k <= |requests|
  {
    forall j :: 0 <= j < |table| ==>
      0 <= table[j].load <= table[j].lastAccess == LastIndexOf(requests[..k], table[j].page)
  }

  lemma LruInvariantInitially(requests: seq<int>, n: int)
    requires n >= 1
    ensures LruInvariant(LruRun(requests, 0, n), requests, 0, n)
  {
    assert requests[..0] == [];
  }

  /** A hit refreshes the stamp of the slot h holding the page. */
  lemma LruHitKeepsRecency(table: seq<FrameValue>, requests: seq<int>, k: nat, h: nat, t: seq<FrameValue>)
    requires 0 < k <= |requests| && h < |table| && table[h].page == requests[k - 1]
    requires forall j :: 0 <= j < |table| && j != h ==> table[j].page != table[h].page
    requires LruRecency(table, requests, k - 1)
    requires |t| == |table| && t[h] == FrameValue(table[h].page, k - 1, table[h].load)
    requires forall j :: 0 <= j < |t| && j != h ==> t[j] == table[j]
    ensures LruRecency(t, requests, k)
  {
    forall j | 0 <= j < |t|
      ensures 0 <= t[j].load <= t[j].lastAccess == LastIndexOf(requests[..k], t[j].page)
    {
      LastIndexOfPrefixStep(requests, k, t[j].page);
    }
  }

  /** A miss puts a frame stamped k - 1 in slot v (v == |table| appends). */
  lemma LruMissKeepsRecency(table: seq<FrameValue>, requests: seq<int>, k: nat, v: nat, t: seq<FrameValue>)
    requires 0 < k <= |requests| && requests[k - 1] !in Pages(table)
    requires LruRecency(table, requests, k - 1)
    requires v <= |table| && |t| == (if v == |table| then v + 1 else |table|)
    requires t[v] == FrameValue(requests[k - 1], k - 1, k - 1)
    requires forall j :: 0 <= j < |t| && j != v ==> t[j] == table[j]
    ensures LruRecency(t, requests, k)
  {
    forall j | 0 <= j < |t|
      ensures 0 <= t[j].load <= t[j].lastAccess == LastIndexOf(requests[..k], t[j].page)
    {
      LastIndexOfPrefixStep(requests, k, t[j].page);
      if j != v {
        assert Pages(table)[j] == t[j].page;
      }
    }
  }

  lemma LruHitKeepsInvariant(s: LruState, requests: seq<int>, k: nat, n: int, h: nat)
    requires 0 < k <= |requests| && n >= 1
    requires LruInvariant(s, requests, k - 1, n)
    requires h < |s.table| && s.table[h].page == requests[k - 1]
    requires Elems(requests[..k]) == Elems(requests[..k - 1]) + {requests[k - 1]}
    ensures LruInvariant(LruState(s.table[h := s.table[h].(lastAccess := k - 1)], s.faults), requests, k, n)
  {
    var t := s.table[h := s.table[h].(lastAccess := k - 1)];
    assert Pages(t) == Pages(s.table);
    assert requests[k - 1] in Elems(requests[..k - 1]) by {
      assert requests[..k - 1][s.table[h].lastAccess] == requests[k - 1];
    }
    forall j | 0 <= j < |s.table| && j != h ensures s.table[j].page != s.table[h].page {
      assert Pages(s.table)[j] != Pages(s.table)[h];
    }
    LruHitKeepsRecency(s.table, requests, k, h, t);
  }

  lemma LruLoadKeepsInvariant(s: LruState, requests: seq<int>, k: nat, n: int)
    requires 0 < k <= |requests| && n >= 1
    requires LruInvariant(s, requests, k - 1, n)
    requires requests[k - 1] !in Pages(s.table) && |s.table| < n
    requires Elems(requests[..k]) == Elems(requests[..k - 1]) + {requests[k - 1]}
    requires |Elems(requests[..k])| <= k
    ensures LruInvariant(LruState(s.table + [FrameValue(requests[k - 1], k - 1, k - 1)], s.faults + 1), requests, k, n)
  {
    var t := s.table + [FrameValue(requests[k - 1], k - 1, k - 1)];
    assert Pages(t) == Pages(s.table) + [requests[k - 1]];
    LruMissKeepsRecency(s.table, requests, k, |s.table|, t);
  }

  lemma LruEvictKeepsInvariant(s: LruState, requests: seq<int>, k: nat, n: int, v: nat)
    requires 0 < k <= |requests| && n >= 1
    requires LruInvariant(s, requests, k - 1, n)
    requires requests[k - 1] !in Pages(s.table) && |s.table| == n && v < n
    requires Elems(requests[..k]) == Elems(requests[..k - 1]) + {requests[k - 1]}
    requires |Elems(requests[..k])| <= k
    ensures LruInvariant(LruState(s.table[v := FrameValue(requests[k - 1], k - 1, k - 1)], s.faults + 1), requests, k, n)
  {
    var p := requests[k - 1];
    var t := s.table[v := FrameValue(p, k - 1, k - 1)];
    assert Pages(t) == Pages(s.table)[v := p];
    LruMissKeepsRecency(s.table, requests, k, v, t);
  }

  /** One step keeps the invariant. */
  lemma LruStepKeepsInvariant(s: LruState, requests: seq<int>, k: nat, n: int)
    requires 0 < k <= |requests| && n >= 1
    requires LruInvariant(s, requests, k - 1, n)
    ensures LruInvariant(LruStep(s, requests[k - 1], k - 1, n), requests, k, n)
  {
    var p := requests[k - 1];
    ElemsPrefixStep(requests, k - 1);
    ElemsCard(requests[..k]);
    var ps := Pages(s.table);
    if p in ps {
      var h := IndexOf(ps, p);
      assert LruStep(s, p, k - 1, n) == LruState(s.table[h := s.table[h].(lastAccess := k - 1)], s.faults);
      LruHitKeepsInvariant(s, requests, k, n, h);
    } else if |s.table| < n {
      LruStepLoad(s, p, k - 1, n);
      LruLoadKeepsInvariant(s, requests, k, n);
    } else {
      var v := LruVictim(s.table);
      LruStepEvict(s, p, k - 1, n, v);
      LruEvictKeepsInvariant(s, requests, k, n, v);
    }
  }

  /** The invariant holds after every prefix of the sequence. */
  lemma {:induction false} LruRunInvariant(requests: seq<int>, k: nat, n: int)
    requires k <= |requests| && n >= 1
    ensures LruInvariant(LruRun(requests, k, n), requests, k, n)
  {
    if k == 0 {
      LruInvariantInitially(requests, n);
    } else {
      LruRunInvariant(requests, k - 1, n);
      LruStepKeepsInvariant(LruRun(requests, k - 1, n), requests, k, n);
    }
  }

  /** A slot's stamp is the position of the latest request for its page:
      that request is for the page and no later one is. */
  lemma LruStampIsLatestRequest(s: LruState, requests: seq<int>, k: nat, n: int, j: nat)
    requires k <= |requests| && LruInvariant(s, requests, k, n) && j < |s.table|
    ensures 0 <= s.table[j].lastAccess < k && requests[s.table[j].lastAccess] == s.table[j].page
    ensures forall i :: s.table[j].lastAccess < i < k ==> requests[i] != s.table[j].page
  {
    var prefix := requests[..k];
    LastIndexOfIsLast(prefix, s.table[j].page);
    assert forall i :: 0 <= i < k ==> prefix[i] == requests[i];
  }

  /** Distinct resident pages carry distinct stamps, so the strict `<` never
      meets a tie and the victim is the unique least recently used page. */
  lemma LruVictimIsLeastRecent(s: LruState, requests: seq<int>, k: nat, n: int)
    requires k <= |requests| && LruInvariant(s, requests, k, n) && |s.table| > 0
    ensures forall i, j :: 0 <= i < j < |s.table| ==> s.table[i].lastAccess != s.table[j].lastAccess
    ensures forall j :: 0 <= j < |s.table| && j != LruVictim(s.table) ==>
      s.table[LruVictim(s.table)].lastAccess < s.table[j].lastAccess
  {
    var ps := Pages(s.table);
    forall i, j | 0 <= i < j < |s.table| ensures s.table[i].lastAccess != s.table[j].lastAccess {
      assert ps[i] != ps[j];
      LruStampIsLatestRequest(s, requests, k, n, i);
      LruStampIsLatestRequest(s, requests, k, n, j);
    }
    LruVictimIsFirstMinimum(s.table);
  }

  /** While the distinct pages requested so far fit in the n frames, nothing
      has been evicted: every requested page is resident and each faulted
      exactly once. */
  lemma {:induction false} LruNoEviction(requests: seq<int>, k: nat, n: int)
    requires k <= |requests| && n >= 1
    requires |Elems(requests[..k])| <= n
    ensures Elems(Pages(LruRun(requests, k, n).table)) == Elems(requests[..k])
    ensures LruRun(requests, k, n).faults == |Elems(requests[..k])|
  {
    if k == 0 {
      assert requests[..0] == [];
    } else {
      ElemsPrefixStep(requests, k - 1);
      ElemsPrefixGrows(requests, k - 1);
      LruNoEviction(requests, k - 1, n);
      LruRunInvariant(requests, k - 1, n);
      LruNoEvictionStep(LruRun(requests, k - 1, n), requests, k, n);
    }
  }

  /** One request of a run that has never evicted: a miss finds a free slot. */
  lemma LruNoEvictionStep(s: LruState, requests: seq<int>, k: nat, n: int)
    requires 0 < k <= |requests| && n >= 1
    requires Distinct(Pages(s.table))
    requires Elems(Pages(s.table)) == Elems(requests[..k - 1]) && s.faults == |Elems(requests[..k - 1])|
    requires Elems(requests[..k]) == Elems(requests[..k - 1]) + {requests[k - 1]}
    requires |Elems(requests[..k])| <= n
    ensures Elems(Pages(LruStep(s, requests[k - 1], k - 1, n).table)) == Elems(requests[..k])
    ensures LruStep(s, requests[k - 1], k - 1, n).faults == |Elems(requests[..k])|
  {
    var p := requests[k - 1];
    var ps := Pages(s.table);
    if p in ps {
      LruHitKeepsPages(s, p, k - 1, n);
    } else {
      DistinctCard(ps);
      assert |Elems(requests[..k])| == |ps| + 1;
      LruStepLoad(s, p, k - 1, n);
      assert Pages(s.table + [FrameValue(p, k - 1, k - 1)]) == ps + [p];
    }
  }

  /** A hit changes a stamp only, so the resident pages and the count stay. */
  lemma LruHitKeepsPages(s: LruState, p: int, t: int, n: int)
    requires n >= 1 && p in Pages(s.table)
    ensures Pages(LruStep(s, p, t, n).table) == Pages(s.table)
    ensures LruStep(s, p, t, n).faults == s.faults
  {
    var h := IndexOf(Pages(s.table), p);
    assert Pages(s.table[h := s.table[h].(lastAccess := t)]) == Pages(s.table);
  }

  lemma LruRunHit(requests: seq<int>, k: nat, n: int, s: LruState, j: nat)
    requires k < |requests| && n >= 1 && LruRun(requests, k, n) == s
    requires j < |s.table| && s.table[j].page == requests[k]
    requires forall i :: 0 <= i < j ==> s.table[i].page != requests[k]
    ensures LruRun(requests, k + 1, n) == LruState(s.table[j := s.table[j].(lastAccess := k)], s.faults)
  {
    LruStepHit(s, requests[k], k, n, j);
  }

  lemma LruRunLoad(requests: seq<int>, k: nat, n: int, s: LruState)
    requires k < |requests| && n >= 1 && LruRun(requests, k, n) == s
    requires requests[k] !in Pages(s.table) && |s.table| < n
    ensures LruRun(requests, k + 1, n) == LruState(s.table + [FrameValue(requests[k], k, k)], s.faults + 1)
  {
  }

  lemma LruRunEvict(requests: seq<int>, k: nat, n: int, s: LruState, v: nat)
    requires k < |requests| && n >= 1 && LruRun(requests, k, n) == s
    requires requests[k] !in Pages(s.table) && |s.table| >= n && LruVictim(s.table) == v
    ensures LruRun(requests, k + 1, n) == LruState(s.table[v := FrameValue(requests[k], k, k)], s.faults + 1)
  {
  }

  /** The scan over three slots, written out. */
  lemma LruVictimOfThree(table: seq<FrameValue>)
    requires |table| == 3
    ensures LruVictim(table) ==
      var a, b, c := table[0].lastAccess, table[1].lastAccess, table[2].lastAccess;
      if c < (if b < a then b else a) then 2 else if b < a then 1 else 0
  {
    assert table[..2][..1] == [table[0]];
    assert LruVictim(table[..2][..1]) == 0;
    assert LruVictim(table[..2]) == if table[1].lastAccess < table[0].lastAccess then 1 else 0;
  }

  lemma LruExampleRequest0(rs: seq<int>)
    requires IsReference(rs)
    ensures LruRun(rs, 1, 3) ==
      LruState([FrameValue(1, 0, 0)], 1)
  {
    LruRunLoad(rs, 0, 3, LruState([], 0));
  }

  lemma LruExampleRequest1(rs: seq<int>)
    requires IsReference(rs)
    ensures LruRun(rs, 2, 3) ==
      LruState([FrameValue(1, 0, 0), FrameValue(2, 1, 1)], 2)
  {
    LruExampleRequest0(rs);
    LruRunLoad(rs, 1, 3, LruState([FrameValue(1, 0, 0)], 1));
  }

  lemma LruExampleRequest2(rs: seq<int>)
    requires IsReference(rs)
    ensures LruRun(rs, 3, 3) ==
      LruState([FrameValue(1, 0, 0), FrameValue(2, 1, 1), FrameValue(3, 2, 2)], 3)
  {
    LruExampleRequest1(rs);
    LruRunLoad(rs, 2, 3, LruState([FrameValue(1, 0, 0), FrameValue(2, 1, 1)], 2));
  }

  lemma LruExampleRequest3(rs: seq<int>)
    requires IsReference(rs)
    ensures LruRun(rs, 4, 3) ==
      LruState([FrameValue(4, 3, 3), FrameValue(2, 1, 1), FrameValue(3, 2, 2)], 4)
  {
    LruExampleRequest2(rs);
    LruVictimOfThree(LruState([FrameValue(1, 0, 0), FrameValue(2, 1, 1), FrameValue(3, 2, 2)], 3).table);
    LruRunEvict(rs, 3, 3, LruState([FrameValue(1, 0, 0), FrameValue(2, 1, 1), FrameValue(3, 2, 2)], 3), 0);
  }

  lemma LruExampleRequest4(rs: seq<int>)
    requires IsReference(rs)
    ensures LruRun(rs, 5, 3) ==
      LruState([FrameValue(4, 3, 3), FrameValue(1, 4, 4), FrameValue(3, 2, 2)], 5)
  {
    LruExampleRequest3(rs);
    LruVictimOfThree(LruState([FrameValue(4, 3, 3), FrameValue(2, 1, 1), FrameValue(3, 2, 2)], 4).table);
    LruRunEvict(rs, 4, 3, LruState([FrameValue(4, 3, 3), FrameValue(2, 1, 1), FrameValue(3, 2, 2)], 4), 1);
  }

  lemma LruExampleRequest5(rs: seq<int>)
    requires IsReference(rs)
    ensures LruRun(rs, 6, 3) ==
      LruState([FrameValue(4, 3, 3), FrameValue(1, 4, 4), FrameValue(2, 5, 5)], 6)
  {
    LruExampleRequest4(rs);
    LruVictimOfThree(LruState([FrameValue(4, 3, 3), FrameValue(1, 4, 4), FrameValue(3, 2, 2)], 5).table);
    LruRunEvict(rs, 5, 3, LruState([FrameValue(4, 3, 3), FrameValue(1, 4, 4), FrameValue(3, 2, 2)], 5), 2);
  }

  lemma LruExampleRequest6(rs: seq<int>)
    requires IsReference(rs)
    ensures LruRun(rs, 7, 3) ==
      LruState([FrameValue(5, 6, 6), FrameValue(1, 4, 4), FrameValue(2, 5, 5)], 7)
  {
    LruExampleRequest5(rs);
    LruVictimOfThree(LruState([FrameValue(4, 3, 3), FrameValue(1, 4, 4), FrameValue(2, 5, 5)], 6).table);
    LruRunEvict(rs, 6, 3, LruState([FrameValue(4, 3, 3), FrameValue(1, 4, 4), FrameValue(2, 5, 5)], 6), 0);
  }

  lemma LruExampleRequest7(rs: seq<int>)
    requires IsReference(rs)
    ensures LruRun(rs, 8, 3) ==
      LruState([FrameValue(5, 6, 6), FrameValue(1, 7, 4), FrameValue(2, 5, 5)], 7)
  {
    LruExampleRequest6(rs);
    LruRunHit(rs, 7, 3, LruState([FrameValue(5, 6, 6), FrameValue(1, 4, 4), FrameValue(2, 5, 5)], 7), 1);
  }

  lemma LruExampleRequest8(rs: seq<int>)
    requires IsReference(rs)
    ensures LruRun(rs, 9, 3) ==
      LruState([FrameValue(5, 6, 6), FrameValue(1, 7, 4), FrameValue(2, 8, 5)], 7)
  {
    LruExampleRequest7(rs);
    LruRunHit(rs, 8, 3, LruState([FrameValue(5, 6, 6), FrameValue(1, 7, 4), FrameValue(2, 5, 5)], 7), 2);
  }

  lemma LruExampleRequest9(rs: seq<int>)
    requires IsReference(rs)
    ensures LruRun(rs, 10, 3) ==
      LruState([FrameValue(3, 9, 9), FrameValue(1, 7, 4), FrameValue(2, 8, 5)], 8)
  {
    LruExampleRequest8(rs);
    LruVictimOfThree(LruState([FrameValue(5, 6, 6), FrameValue(1, 7, 4), FrameValue(2, 8, 5)], 7).table);
    LruRunEvict(rs, 9, 3, LruState([FrameValue(5, 6, 6), FrameValue(1, 7, 4), FrameValue(2, 8, 5)], 7), 0);
  }

  lemma LruExampleRequest10(rs: seq<int>)
    requires IsReference(rs)
    ensures LruRun(rs, 11, 3) ==
      LruState([FrameValue(3, 9, 9), FrameValue(4, 10, 10), FrameValue(2, 8, 5)], 9)
  {
    LruExampleRequest9(rs);
    LruVictimOfThree(LruState([FrameValue(3, 9, 9), FrameValue(1, 7, 4), FrameValue(2, 8, 5)], 8).table);
    LruRunEvict(rs, 10, 3, LruState([FrameValue(3, 9, 9), FrameValue(1, 7, 4), FrameValue(2, 8, 5)], 8), 1);
  }

  lemma LruExampleRequest11(rs: seq<int>)
    requires IsReference(rs)
    ensures LruRun(rs, 12, 3) ==
      LruState([FrameValue(3, 9, 9), FrameValue(4, 10, 10), FrameValue(5, 11, 11)], 10)
  {
    LruExampleRequest10(rs);
    LruVictimOfThree(LruState([FrameValue(3, 9, 9), FrameValue(4, 10, 10), FrameValue(2, 8, 5)], 9).table);
    LruRunEvict(rs, 11, 3, LruState([FrameValue(3, 9, 9), FrameValue(4, 10, 10), FrameValue(2, 8, 5)], 9), 2);
  }
  /** On the reference string with three frames: ten faults, frames holding
      3, 4 and 5 at the end, pages 1 and 2 in swap. */
  lemma LruExample(rs: seq<int>, s: LruState)
    requires IsReference(rs) && s == LruRun(rs, 12, 3)
    ensures s.faults == 10 && Pages(s.table) == [3, 4, 5]
    ensures SwapOf(rs, Elems(Pages(s.table))) == {1, 2}
  {
    LruExampleRequest11(rs);
    var table := [FrameValue(3, 9, 9), FrameValue(4, 10, 10), FrameValue(5, 11, 11)];
    assert s == LruState(table, 10);
    assert Pages(table) == [3, 4, 5];
    assert Elems([3, 4, 5]) == {3, 4, 5};
    ReferenceSwap(rs, {3, 4, 5});
    assert {1, 2, 3, 4, 5} - {3, 4, 5} == {1, 2};
  }

  /** The frame's fields hold the snapshot's values. */
  ghost predicate Mirrors(f: MemoryFrame, v: FrameValue)
    reads f
  {
    f.pageIndex == v.page && f.lastAccessTime == v.lastAccess && f.loadTime == v.load
  }

  /** Every slot's frame holds that slot's snapshot. */
  ghost predicate MirrorsAll(fs: seq<MemoryFrame>, vs: seq<FrameValue>)
    reads fs
  {
    |fs| == |vs| && forall j :: 0 <= j < |fs| ==> Mirrors(fs[j], vs[j])
  }

  lemma MirrorsSnoc(fs: seq<MemoryFrame>, vs: seq<FrameValue>, f: MemoryFrame, v: FrameValue)
    requires MirrorsAll(fs, vs) && Mirrors(f, v)
    ensures MirrorsAll(fs + [f], vs + [v])
  {
  }

  lemma MirrorsUpdate(fs: seq<MemoryFrame>, vs: seq<FrameValue>, k: nat, f: MemoryFrame, v: FrameValue)
    requires MirrorsAll(fs, vs) && Mirrors(f, v) && k < |fs|
    ensures MirrorsAll(fs[k := f], vs[k := v])
  {
  }

  /** The policy object: the frames in slot order and the fault counter. */
  class LRUPolicy {
    var frames: seq<MemoryFrame>
    var pageFaultCount: int
    /** The frames' field values, slot by slot. */
    ghost var table: seq<FrameValue>

    constructor ()
      ensures Valid() && frames == [] && pageFaultCount == 0
    {
      frames := [];
      pageFaultCount := 0;
      table := [];
    }

    /** The name the policy reports its results under. */
    function GetPolicyName(): (name: string)
      ensures name == "LRU"
    {
      "LRU"
    }

    /** `table` mirrors the frames, and no frame object sits in two slots, so
        refreshing one slot's frame leaves every other slot as it was. */
    ghost predicate Valid()
      reads this, frames
    {
      MirrorsAll(frames, table) && DistinctFrames(frames)
    }

    /** The frames' contents and the counter, as the specification's state. */
    ghost function State(): LruState
      reads this
    {
      LruState(table, pageFaultCount)
    }

    method Reset()
      modifies this
      ensures Valid() && frames == [] && pageFaultCount == 0
    {
      frames := [];
      pageFaultCount := 0;
      table := [];
    }

    /** Serves every request in order, stamping each with its position, then
        reports the swap state. The final frames and count are those of the
        specification run (which keeps `LruInvariant`, by `LruRunInvariant`),
        and the swap is the requested pages less the resident ones. */
    method Simulate(sequence: PageSequence, numberOfFrames: int, executionTimeSeconds: int)
      returns (result: SimulationResult)
      requires numberOfFrames >= 1
      modifies this
      ensures Valid()
      ensures State() == LruRun(sequence.requests, |sequence.requests|, numberOfFrames)
      ensures result == SimulationResult("LRU", executionTimeSeconds, pageFaultCount,
                                         SwapOf(sequence.requests, Elems(Pages(table))))
    {
      Reset();
      var requests: seq<int> := sequence.GetRequests();
      var i := 0;
      while i < |requests|
        invariant 0 <= i <= |requests|
        invariant Valid()
        invariant forall j :: 0 <= j < |frames| ==> fresh(frames[j])
        invariant State() == LruRun(requests, i, numberOfFrames)
      {
        ServeNext(requests, i, numberOfFrames);
        i := i + 1;
      }
      result := Report(sequence, executionTimeSeconds);
    }

    /** The result of a finished run: the policy's name, the given time, the
        fault count and the swap state of the current frames. */
    method Report(sequence: PageSequence, executionTimeSeconds: int) returns (result: SimulationResult)
      requires Valid()
      ensures result == SimulationResult("LRU", executionTimeSeconds, pageFaultCount,
                                         SwapOf(sequence.requests, Elems(Pages(table))))
    {
      var swapState := CalculateSwapState(sequence);
      result := SimulationResult(GetPolicyName(), executionTimeSeconds, pageFaultCount, swapState);
    }

    /** Serves request i of the run: the state moves on from the first i
        requests' run to the first i + 1's. */
    method ServeNext(requests: seq<int>, i: nat, numberOfFrames: int)
      requires numberOfFrames >= 1 && i < |requests| && Valid()
      requires State() == LruRun(requests, i, numberOfFrames)
      modifies this, frames
      ensures Valid()
      ensures forall j :: 0 <= j < |frames| ==> frames[j] in old(frames) || fresh(frames[j])
      ensures State() == LruRun(requests, i + 1, numberOfFrames)
    {
      ProcessPageRequest(requests[i], numberOfFrames, i);
      LruRunNext(requests, i, numberOfFrames);
    }

    /** One request at position currentTime: the new state is the
        specification's step, and every frame afterwards is an old one or a
        new one. */
    method ProcessPageRequest(pageIndex: int, numberOfFrames: int, currentTime: int)
      requires numberOfFrames >= 1 && Valid()
      modifies this, frames
      ensures Valid()
      ensures forall j :: 0 <= j < |frames| ==> frames[j] in old(frames) || fresh(frames[j])
      ensures State() == LruStep(old(State()), pageIndex, currentTime, numberOfFrames)
    {
      var existingFrame := FindFrameByPage(pageIndex);
      if existingFrame != null {
        RefreshFrame(existingFrame, IndexOf(Pages(table), pageIndex), currentTime);
        return;
      }
      pageFaultCount := pageFaultCount + 1;
      if |frames| < numberOfFrames {
        var frame := new MemoryFrame(pageIndex, currentTime);
        AppendFrame(frame);
      } else {
        var victimIndex := FindLRUVictim();
        LruStepEvict(old(State()), pageIndex, currentTime, numberOfFrames, victimIndex);
        var frame := new MemoryFrame(pageIndex, currentTime);
        ReplaceFrame(victimIndex, frame);
      }
    }

    /** The hit path: the frame in slot k is stamped with the current time,
        and nothing else changes. */
    method RefreshFrame(frame: MemoryFrame, ghost k: nat, currentTime: int)
      requires Valid() && k < |frames| && frame == frames[k]
      modifies this, frame
      ensures Valid() && frames == old(frames) && pageFaultCount == old(pageFaultCount)
      ensures table == old(table)[k := old(table)[k].(lastAccess := currentTime)]
    {
      frame.UpdateAccessTime(currentTime);
      table := table[k := table[k].(lastAccess := currentTime)];
      forall j | 0 <= j < |frames| && j != k ensures Mirrors(frames[j], table[j]) {
        assert frames[j] != frames[k];
      }
    }

    /** A miss with a free frame: the new frame goes after the others. */
    method AppendFrame(frame: MemoryFrame)
      requires Valid() && frame !in frames
      modifies this
      ensures Valid() && frames == old(frames) + [frame] && pageFaultCount == old(pageFaultCount)
      ensures table == old(table) + [frame.Value()]
    {
      DistinctFramesSnoc(frames, frame);
      MirrorsSnoc(frames, table, frame, frame.Value());
      frames := frames + [frame];
      table := table + [frame.Value()];
    }

    /** A miss with every frame taken: the new frame takes the victim's slot. */
    method ReplaceFrame(victimIndex: nat, frame: MemoryFrame)
      requires Valid() && victimIndex < |frames| && frame !in frames
      modifies this
      ensures Valid() && frames == old(frames)[victimIndex := frame] && pageFaultCount == old(pageFaultCount)
      ensures table == old(table)[victimIndex := frame.Value()]
    {
      DistinctFramesUpdate(frames, victimIndex, frame);
      MirrorsUpdate(frames, table, victimIndex, frame, frame.Value());
      frames := frames[victimIndex := frame];
      table := table[victimIndex := frame.Value()];
    }

    /** The first frame holding the page, or null when none does. */
    method FindFrameByPage(pageIndex: int) returns (frame: MemoryFrame?)
      requires Valid()
      ensures frame == null <==> pageIndex !in Pages(table)
      ensures frame != null ==> frame == frames[IndexOf(Pages(table), pageIndex)]
    {
      ghost var pages := Pages(table);
      var i := 0;
      while i < |frames|
        invariant 0 <= i <= |frames|
        invariant forall j :: 0 <= j < i ==> pages[j] != pageIndex
      {
        if frames[i].GetPageIndex() == pageIndex {
          IndexOfAt(pages, pageIndex, i);
          return frames[i];
        }
        i := i + 1;
      }
      return null;
    }

    /** The slot with the oldest stamp, lowest slot first on ties: the
        running minimum the specification's victim describes. */
    method FindLRUVictim() returns (victimIndex: int)
      requires Valid() && |frames| > 0
      ensures victimIndex == LruVictim(table)
    {
      victimIndex := 0;
      var oldestAccessTime := frames[0].GetLastAccessTime();
      var i := 1;
      while i < |frames|
        invariant 1 <= i <= |frames|
        invariant victimIndex == LruVictim(table[..i])
        invariant oldestAccessTime == table[victimIndex].lastAccess
      {
        var accessTime := frames[i].GetLastAccessTime();
        LruVictimSnoc(table, i);
        if accessTime < oldestAccessTime {
          oldestAccessTime := accessTime;
          victimIndex := i;
        }
        i := i + 1;
      }
      assert table[..|frames|] == table;
    }

    /** The requested pages that no frame holds. */
    method CalculateSwapState(sequence: PageSequence) returns (swap: set<int>)
      requires Valid()
      ensures swap == SwapOf(sequence.requests, Elems(Pages(table)))
    {
      var allPages := Elems(sequence.GetRequests());
      ghost var pages := Pages(table);
      var pagesInMemory: set<int> := {};
      var i := 0;
      while i < |frames|
        invariant 0 <= i <= |frames|
        invariant pagesInMemory == Elems(pages[..i])
      {
        ElemsPrefixStep(pages, i);
        pagesInMemory := pagesInMemory + {frames[i].GetPageIndex()};
        i := i + 1;
      }
      assert pages[..|frames|] == pages;
      swap := allPages - pagesInMemory;
    }
  }
}
