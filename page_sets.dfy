/** Sets and sequences of page indices shared by the four policies. */
module PageSets {

  /** The distinct pages of a reference sequence (`new HashSet<>(requests)`). */
  function Elems(s: seq<int>): (r: set<int>)
    ensures forall x :: x in r <==> x in s
  {
    set x | x in s
  }

  predicate Distinct(s: seq<int>)
  {
    forall i, j :: 0 <= i < j < |s| ==> s[i] != s[j]
  }

  /** Pages never repeat in a distinct sequence, so it has as many elements as
      it has distinct pages. */
  lemma {:induction false} DistinctCard(s: seq<int>)
    requires Distinct(s)
    ensures |Elems(s)| == |s|
  {
    if |s| > 0 {
      var t := s[..|s| - 1];
      assert Distinct(t);
      DistinctCard(t);
      assert s == t + [s[|s| - 1]];
      assert s[|s| - 1] !in t;
      assert Elems(s) == Elems(t) + {s[|s| - 1]};
    }
  }

  /** A sequence never has more distinct pages than elements. */
  lemma {:induction false} ElemsCard(s: seq<int>)
    ensures |Elems(s)| <= |s|
  {
    if |s| > 0 {
      var t := s[..|s| - 1];
      ElemsCard(t);
      assert s == t + [s[|s| - 1]];
      assert Elems(s) == Elems(t) + {s[|s| - 1]};
    }
  }

  /** Pages requested among the first k references. */
  lemma ElemsPrefixStep(s: seq<int>, k: nat)
    requires k < |s|
    ensures Elems(s[..k + 1]) == Elems(s[..k]) + {s[k]}
  {
    assert s[..k + 1] == s[..k] + [s[k]];
  }

  /** A longer prefix has at least as many distinct pages. */
  lemma ElemsPrefixGrows(s: seq<int>, k: nat)
    requires k < |s|
    ensures |Elems(s[..k])| <= |Elems(s[..k + 1])|
  {
    ElemsPrefixStep(s, k);
    var a := Elems(s[..k]);
    if s[k] !in a {
      assert |a + {s[k]}| == |a| + 1;
    } else {
      assert a + {s[k]} == a;
    }
  }

  /** Position of the first occurrence of x in s, or |s| when there is none
      (the slot a linear search from the front stops at). */
  function IndexOf(s: seq<int>, x: int): (k: nat)
    ensures k <= |s|
    ensures k < |s| <==> x in s
    ensures k < |s| ==> s[k] == x
  {
    if s == [] then 0 else if s[0] == x then 0 else 1 + IndexOf(s[1..], x)
  }

  /** No earlier position holds x. */
  lemma {:induction false} IndexOfIsFirst(s: seq<int>, x: int)
    ensures forall j :: 0 <= j < IndexOf(s, x) ==> s[j] != x
  {
    if s != [] && s[0] != x {
      IndexOfIsFirst(s[1..], x);
      forall j | 0 < j < IndexOf(s, x) ensures s[j] != x {
        assert s[j] == s[1..][j - 1];
      }
    }
  }

  /** A position holding x with no earlier x is the one IndexOf finds. */
  lemma IndexOfAt(s: seq<int>, x: int, j: nat)
    requires j < |s| && s[j] == x
    requires forall i :: 0 <= i < j ==> s[i] != x
    ensures IndexOf(s, x) == j
  {
    IndexOfIsFirst(s, x);
  }

  /** Position of the last occurrence of x in s, or -1 when there is none. */
  function LastIndexOf(s: seq<int>, x: int): (r: int)
    ensures -1 <= r < |s|
    ensures r >= 0 <==> x in s
    ensures r >= 0 ==> s[r] == x
  {
    if s == [] then -1
    else if s[|s| - 1] == x then |s| - 1
    else LastIndexOf(s[..|s| - 1], x)
  }

  /** No later position holds x. */
  lemma {:induction false} LastIndexOfIsLast(s: seq<int>, x: int)
    ensures forall i :: LastIndexOf(s, x) < i < |s| ==> s[i] != x
  {
    if s != [] && s[|s| - 1] != x {
      var init := s[..|s| - 1];
      LastIndexOfIsLast(init, x);
      assert forall i :: 0 <= i < |init| ==> init[i] == s[i];
    }
  }

  /** The last occurrence among the first k elements, from the first k - 1. */
  lemma LastIndexOfPrefixStep(s: seq<int>, k: nat, x: int)
    requires 0 < k <= |s|
    ensures LastIndexOf(s[..k], x) == if s[k - 1] == x then k - 1 else LastIndexOf(s[..k - 1], x)
  {
    assert s[..k][..k - 1] == s[..k - 1];
  }

  /** The swap state every policy reports: pages that were requested but are
      not resident at the end (`allPages.removeAll(pagesInMemory)`). */
  function SwapOf(requests: seq<int>, resident: set<int>): (swap: set<int>)
    ensures swap !! resident
    ensures swap + resident >= Elems(requests)
    ensures swap <= Elems(requests)
  {
    Elems(requests) - resident
  }

  /** The least element of a non-empty finite set. */
  function SetMin(s: set<int>): (m: int)
    requires s != {}
    ensures m in s && forall x :: x in s ==> m <= x
  {
    HasMin(s);
    var m :| m in s && forall x :: x in s ==> m <= x;
    m
  }

  lemma HasMin(s: set<int>)
    requires s != {}
    ensures exists m :: m in s && forall x :: x in s ==> m <= x
  {
    var m := MinOf(s);
  }

  lemma {:induction false} MinOf(s: set<int>) returns (m: int)
    requires s != {}
    ensures m in s && forall x :: x in s ==> m <= x
    decreases |s|
  {
    var y := PickOne(s);
    var rest := s - {y};
    if rest == {} {
      assert s == {y};
      m := y;
    } else {
      var m' := MinOf(rest);
      assert forall x :: x in s ==> x == y || x in rest;
      m := if y < m' then y else m';
    }
  }

  lemma PickOne<T>(s: set<T>) returns (y: T)
    requires s != {}
    ensures y in s
  {
    y :| y in s;
  }

  predicate StrictlyIncreasing(s: seq<int>)
  {
    forall i, j :: 0 <= i < j < |s| ==> s[i] < s[j]
  }

  /** The elements of a set in ascending order (iteration order of a TreeSet). */
  function Sorted(s: set<int>): (r: seq<int>)
    ensures Elems(r) == s
    ensures StrictlyIncreasing(r)
    ensures |r| == |s|
    decreases |s|
  {
    if s == {} then []
    else
      var m := SetMin(s);
      var rest := Sorted(s - {m});
      SortedCons(m, rest, s);
      [m] + rest
  }

  lemma SortedCons(m: int, rest: seq<int>, s: set<int>)
    requires m in s && forall x :: x in s ==> m <= x
    requires Elems(rest) == s - {m} && StrictlyIncreasing(rest) && |rest| == |s - {m}|
    ensures Elems([m] + rest) == s
    ensures StrictlyIncreasing([m] + rest)
    ensures |[m] + rest| == |s|
  {
    var r := [m] + rest;
    forall i | 0 <= i < |rest| ensures m < rest[i] {
      assert rest[i] in Elems(rest);
    }
    forall i, j | 0 <= i < j < |r| ensures r[i] < r[j] {
      if i > 0 {
        assert r[i] == rest[i - 1] && r[j] == rest[j - 1];
      } else {
        assert r[j] == rest[j - 1];
      }
    }
    assert Elems(r) == {m} + Elems(rest);
  }
}
