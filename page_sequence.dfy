/** A page-reference sequence: an immutable copy of the requested page indices. */
module PageSequences {
  import opened Errors
  import opened JavaText
  import opened JavaInt

  datatype PageSequence = PageSequence(requests: seq<int32>)
  {
    /** size(): the number of requests. */
    function Size(): (n: nat)
      ensures n == |requests|
    {
      |requests|
    }

    /** getRequests(): the stored requests, read-only and in order. */
    function GetRequests(): (rs: seq<int32>)
      ensures rs == requests
    {
      requests
    }

    /** validate(maxPages): walks the requests and throws at the first one
        outside [0, maxPages - 1]; succeeds exactly when every request is in
        that range. */
    method Validate(maxPages: int) returns (outcome: Outcome)
      ensures outcome == Pass <==> InRange(requests, maxPages)
      ensures outcome != Pass ==> outcome == Fail(IllegalArgument)
    {
      var i := 0;
      while i < |requests|
        invariant 0 <= i <= |requests|
        invariant forall k :: 0 <= k < i ==> 0 <= requests[k] < maxPages
      {
        if requests[i] < 0 || requests[i] >= maxPages {
          return Fail(IllegalArgument);
        }
        i := i + 1;
      }
      return Pass;
    }

    /** toString(): the requests in order, separated by single spaces. */
    method ToString() returns (s: string)
      ensures s == Join(Tokens(requests))
    {
      var sb := "";
      var i := 0;
      while i < |requests|
        invariant 0 <= i <= |requests|
        invariant sb == Join(Tokens(requests)[..i])
      {
        JoinPrefixStep(Tokens(requests), i);
        if i > 0 {
          sb := sb + " ";
        }
        sb := sb + IntToString(requests[i]);
        i := i + 1;
      }
      assert Tokens(requests)[..i] == Tokens(requests);
      return sb;
    }
  }

  predicate InRange(requests: seq<int>, maxPages: int)
  {
    forall i :: 0 <= i < |requests| ==> 0 <= requests[i] < maxPages
  }

  /** The constructor: rejects a null or empty list, otherwise keeps a copy of
      it, so the sequence has the same length and the same requests in order. */
  function Create(requests: Option<seq<int32>>): (r: Result<PageSequence>)
    ensures r.Ok? <==> requests.Some? && |requests.value| > 0
    ensures r.Ok? ==> r.value.GetRequests() == requests.value && r.value.Size() == |requests.value|
    ensures r.Err? ==> r.error == IllegalArgument
  {
    if requests.None? || |requests.value| == 0 then Err(IllegalArgument)
    else Ok(PageSequence(requests.value))
  }

  /** Splitting the rendering of a sequence on spaces gives one token per
      request, in request order, and each token parses back to its request. */
  lemma RenderingSplitsIntoRequests(ps: PageSequence)
    requires ps.Size() > 0
    ensures |Split(Join(Tokens(ps.requests)))| == ps.Size()
    ensures forall i :: 0 <= i < ps.Size() ==>
              ParseInt(Split(Join(Tokens(ps.requests)))[i]) == Some(ps.requests[i])
  {
    var t := Tokens(ps.requests);
    SplitJoin(t);
    forall i | 0 <= i < ps.Size() ensures ParseInt(t[i]) == Some(ps.requests[i]) {
      IntToStringRoundTrip(ps.requests[i]);
    }
  }
}
