/** A physical frame: the page it holds and two logical timestamps
    (positions in the reference sequence, never wall-clock time). */
module MemoryFrames {
  import opened JavaText

  /** Snapshot of a frame's three fields, used by the policies' specifications. */
  datatype FrameValue = FrameValue(page: int, lastAccess: int, load: int)

  class MemoryFrame {
    // Never written after construction in the source, hence `const` here.
    const pageIndex: int
    const loadTime: int
    // Refreshed on every hit by LRU.
    var lastAccessTime: int

    /** A frame loaded at `currentTime`: both timestamps equal that time. */
    constructor (pageIndex: int, currentTime: int)
      ensures this.pageIndex == pageIndex
      ensures lastAccessTime == currentTime && loadTime == currentTime
    {
      this.pageIndex := pageIndex;
      this.lastAccessTime := currentTime;
      this.loadTime := currentTime;
    }

    /** Writes only the last-access stamp; page and load time are constants. */
    method UpdateAccessTime(currentTime: int)
      modifies this
      ensures lastAccessTime == currentTime
    {
      lastAccessTime := currentTime;
    }

    function GetPageIndex(): (p: int)
      ensures p == pageIndex
    {
      pageIndex
    }

    function GetLastAccessTime(): (t: int)
      reads this
      ensures t == lastAccessTime
    {
      lastAccessTime
    }

    function GetLoadTime(): (t: int)
      ensures t == loadTime
    {
      loadTime
    }

    /** The current field values. */
    function Value(): (v: FrameValue)
      reads this
      ensures v.page == pageIndex && v.lastAccess == lastAccessTime && v.load == loadTime
    {
      FrameValue(pageIndex, lastAccessTime, loadTime)
    }

    /** `Frame[page = P, lastAccess = A, loadTime = L]` from the current fields. */
    function ToString(): (s: string)
      reads this
      ensures s == FrameText(Value())
      ensures |s| > 13 && s[..13] == "Frame[page = " && s[|s| - 1] == ']'
    {
      FrameText(Value())
    }
  }

  /** No frame object sits in two slots. */
  predicate DistinctFrames(fs: seq<MemoryFrame>)
  {
    forall i, j :: 0 <= i < j < |fs| ==> fs[i] != fs[j]
  }

  /** Appending a frame held by no slot keeps the slots distinct. */
  lemma DistinctFramesSnoc(fs: seq<MemoryFrame>, f: MemoryFrame)
    requires DistinctFrames(fs) && f !in fs
    ensures DistinctFrames(fs + [f])
  {
  }

  /** Putting a frame held by no slot into one slot keeps the slots distinct. */
  lemma DistinctFramesUpdate(fs: seq<MemoryFrame>, k: nat, f: MemoryFrame)
    requires DistinctFrames(fs) && f !in fs && k < |fs|
    ensures DistinctFrames(fs[k := f])
  {
  }

  /** A frame's two fixed fields: the page and the time it was loaded. */
  datatype Loaded = Loaded(page: int, load: int)

  /** The fixed fields of a list of frames, slot by slot; they need no heap
      access since neither field is ever written after construction. */
  function LoadedOf(fs: seq<MemoryFrame>): (ls: seq<Loaded>)
    ensures |ls| == |fs|
    ensures forall i :: 0 <= i < |fs| ==> ls[i] == Loaded(fs[i].pageIndex, fs[i].loadTime)
  {
    if fs == [] then [] else LoadedOf(fs[..|fs| - 1]) + [Loaded(fs[|fs| - 1].pageIndex, fs[|fs| - 1].loadTime)]
  }

  lemma LoadedSnoc(fs: seq<MemoryFrame>, f: MemoryFrame)
    ensures LoadedOf(fs + [f]) == LoadedOf(fs) + [Loaded(f.pageIndex, f.loadTime)]
  {
    assert (fs + [f])[..|fs|] == fs;
  }

  lemma LoadedUpdate(fs: seq<MemoryFrame>, k: int, f: MemoryFrame)
    requires 0 <= k < |fs|
    ensures LoadedOf(fs[k := f]) == LoadedOf(fs)[k := Loaded(f.pageIndex, f.loadTime)]
  {
  }

  function LoadedPages(ls: seq<Loaded>): (ps: seq<int>)
    ensures |ps| == |ls|
    ensures forall i :: 0 <= i < |ls| ==> ps[i] == ls[i].page
  {
    if ls == [] then [] else LoadedPages(ls[..|ls| - 1]) + [ls[|ls| - 1].page]
  }

  /** The page held in each slot. */
  function Pages(table: seq<FrameValue>): (ps: seq<int>)
    ensures |ps| == |table|
    ensures forall i :: 0 <= i < |table| ==> ps[i] == table[i].page
  {
    if table == [] then [] else Pages(table[..|table| - 1]) + [table[|table| - 1].page]
  }

  function FrameText(v: FrameValue): string
  {
    "Frame[page = " + (IntToString(v.page) + (", lastAccess = " + (IntToString(v.lastAccess) +
      (", loadTime = " + (IntToString(v.load) + "]")))))
  }

  /** Two equal strings that each start with a c-free piece followed by c agree
      on that piece and on what follows it. */
  lemma SplitAtFirst(c: char, x: string, r: string, y: string, r': string)
    requires c !in x && c !in y
    requires |r| > 0 && r[0] == c && |r'| > 0 && r'[0] == c
    requires x + r == y + r'
    ensures x == y && r == r'
  {
    var s := x + r;
    assert s[|x|] == c && s[|y|] == c;
    assert |x| == |y|;
    assert x == s[..|x|] && y == s[..|y|];
    assert r == s[|x|..] && r' == s[|y|..];
  }

  lemma StripPrefix(p: string, a: string, b: string)
    requires p + a == p + b
    ensures a == b
  {
    assert a == (p + a)[|p|..] && b == (p + b)[|p|..];
  }

  lemma IntToStringInjective(a: int, b: int)
    requires IntToString(a) == IntToString(b)
    ensures a == b
  {
    IntToStringRoundTrip(a);
    IntToStringRoundTrip(b);
  }

  /** The rendering determines the frame: distinct field values give distinct
      texts. */
  lemma FrameTextInjective(u: FrameValue, v: FrameValue)
    requires FrameText(u) == FrameText(v)
    ensures u == v
  {
    var pa, pb := IntToString(u.page), IntToString(v.page);
    var la, lb := IntToString(u.lastAccess), IntToString(v.lastAccess);
    var ta, tb := IntToString(u.load), IntToString(v.load);
    NoComma(u.page); NoComma(v.page); NoComma(u.lastAccess); NoComma(v.lastAccess);
    NoBracket(u.load); NoBracket(v.load);
    var endA, endB := ta + "]", tb + "]";
    var midA, midB := la + (", loadTime = " + endA), lb + (", loadTime = " + endB);
    var restA, restB := pa + (", lastAccess = " + midA), pb + (", lastAccess = " + midB);
    StripPrefix("Frame[page = ", restA, restB);
    SplitAtFirst(',', pa, ", lastAccess = " + midA, pb, ", lastAccess = " + midB);
    StripPrefix(", lastAccess = ", midA, midB);
    SplitAtFirst(',', la, ", loadTime = " + endA, lb, ", loadTime = " + endB);
    StripPrefix(", loadTime = ", endA, endB);
    SplitAtFirst(']', ta, "]", tb, "]");
    IntToStringInjective(u.page, v.page);
    IntToStringInjective(u.lastAccess, v.lastAccess);
    IntToStringInjective(u.load, v.load);
  }

  lemma NoComma(n: int)
    ensures ',' !in IntToString(n)
  {
    var s := IntToString(n);
    if ',' in s {
      var i :| 0 <= i < |s| && s[i] == ',';
      IntToStringChars(n, i);
    }
  }

  lemma NoBracket(n: int)
    ensures ']' !in IntToString(n)
  {
    var s := IntToString(n);
    if ']' in s {
      var i :| 0 <= i < |s| && s[i] == ']';
      IntToStringChars(n, i);
    }
  }
}
