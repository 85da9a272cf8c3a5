/** The textbook page-reference string 1 2 3 4 1 2 5 1 2 3 4 5, on which the
    policies' examples are worked out. */
module ReferenceStrings {
  import opened PageSets

  /** `rs` is the reference string, stated position by position. */
  predicate IsReference(rs: seq<int>)
  {
    |rs| == 12 &&
    rs[0] == 1 && rs[1] == 2 && rs[2] == 3 && rs[3] == 4 && rs[4] == 1 && rs[5] == 2 &&
    rs[6] == 5 && rs[7] == 1 && rs[8] == 2 && rs[9] == 3 && rs[10] == 4 && rs[11] == 5
  }

  lemma ReferenceIsReference()
    ensures IsReference([1, 2, 3, 4, 1, 2, 5, 1, 2, 3, 4, 5])
  {
  }

  /** What a policy reports as swap on the reference string, given the pages
      it ends with. */
  lemma ReferenceSwap(rs: seq<int>, resident: set<int>)
    requires IsReference(rs)
    ensures SwapOf(rs, resident) == {1, 2, 3, 4, 5} - resident
  {
    forall x | x in Elems(rs) ensures x in {1, 2, 3, 4, 5} {
      var i :| 0 <= i < |rs| && rs[i] == x;
    }
    assert rs[0] in Elems(rs) && rs[1] in Elems(rs) && rs[2] in Elems(rs);
    assert rs[3] in Elems(rs) && rs[6] in Elems(rs);
  }
}
