/** The outcome of one policy run: name, elapsed-time metric, fault count and
    the final swap state, which is reported in ascending order. */
module SimulationResults {
  import opened Errors
  import opened JavaText
  import opened PageSets

  /** A value: the swap set is held by value, so later changes to the set the
      caller passed in cannot reach it (the source copies it into a TreeSet). */
  datatype SimulationResult = SimulationResult(
    policyName: string,
    executionTimeSeconds: int,
    pageFaults: int,
    swapState: set<int>)
  {
    /** The swap pages in iteration order of the result's TreeSet. */
    function SortedSwapState(): (s: seq<int>)
      ensures StrictlyIncreasing(s) && Elems(s) == swapState && |s| == |swapState|
    {
      Sorted(swapState)
    }

    /** getSwapStateFormatted(): "0" for an empty swap, otherwise the pages in
        ascending order separated by single spaces. */
    method GetSwapStateFormatted() returns (s: string)
      ensures s == FormatSwap(swapState)
    {
      if swapState == {} {
        return "0";
      }
      var pages := SortedSwapState();
      var sb := "";
      var i := 0;
      while i < |pages|
        invariant 0 <= i <= |pages|
        invariant sb == Join(Tokens(pages)[..i])
      {
        JoinPrefixStep(Tokens(pages), i);
        if |sb| > 0 {
          sb := sb + " ";
        }
        sb := sb + IntToString(pages[i]);
        i := i + 1;
      }
      assert Tokens(pages)[..i] == Tokens(pages);
      return sb;
    }
  }

  function FormatSwap(swap: set<int>): string
  {
    if swap == {} then "0" else Join(Tokens(Sorted(swap)))
  }

  /** A non-empty swap renders as one token per page: splitting on spaces gives
      |swap| tokens that parse to the pages in strictly ascending order. */
  lemma FormatSwapTokens(swap: set<int>)
    requires swap != {}
    ensures |Split(FormatSwap(swap))| == |swap|
    ensures forall i :: 0 <= i < |swap| ==> ParseInt(Split(FormatSwap(swap))[i]) == Some(Sorted(swap)[i])
    ensures forall i, j :: 0 <= i < j < |swap| ==> Sorted(swap)[i] < Sorted(swap)[j]
    ensures Elems(Sorted(swap)) == swap
  {
    var t := Tokens(Sorted(swap));
    SplitJoin(t);
    forall i | 0 <= i < |swap| ensures ParseInt(t[i]) == Some(Sorted(swap)[i]) {
      IntToStringRoundTrip(Sorted(swap)[i]);
    }
  }

  /** The format cannot be inverted: an empty swap and the swap {0} both render
      as "0". */
  lemma FormatSwapNotInjective()
    ensures FormatSwap({}) == FormatSwap({0})
  {
    var s := Sorted({0});
    assert |s| == 1 && s[0] in Elems(s);
    assert s == [0];
    assert Tokens([0]) == ["0"];
  }
}
