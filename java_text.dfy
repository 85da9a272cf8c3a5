/** The bits of java.lang.String behaviour the model needs: decimal rendering
    of an integer (Integer.toString), its inverse (Integer.parseInt on the
    rendered form), joining tokens with one space, splitting on spaces, and
    String.trim. */
module JavaText {
  import opened Errors

  predicate IsDigit(c: char) { '0' <= c <= '9' }

  function DigitChar(d: nat): (c: char)
    requires d < 10
    ensures IsDigit(c)
  {
    "0123456789"[d]
  }

  function DigitValue(c: char): (d: nat)
    requires IsDigit(c)
    ensures d < 10
  {
    (c as int) - ('0' as int)
  }

  /** Decimal digits of n, most significant first, with no leading zero. */
  function NatToString(n: nat): (s: string)
    ensures |s| > 0
    ensures forall i :: 0 <= i < |s| ==> IsDigit(s[i])
    decreases n
  {
    if n < 10 then [DigitChar(n)] else NatToString(n / 10) + [DigitChar(n % 10)]
  }

  /** Integer.toString / String.valueOf / StringBuilder.append(int). */
  function IntToString(n: int): (s: string)
    ensures |s| > 0 && ' ' !in s
  {
    if n < 0 then "-" + NatToString(-n) else NatToString(n)
  }

  /** Every character of a rendering is a digit or the minus sign. */
  lemma IntToStringChars(n: int, i: nat)
    requires i < |IntToString(n)|
    ensures IsDigit(IntToString(n)[i]) || IntToString(n)[i] == '-'
  {
    if n < 0 && i > 0 {
      assert IntToString(n)[i] == NatToString(-n)[i - 1];
    }
  }

  function ParseDigits(s: string): nat
    requires forall i :: 0 <= i < |s| ==> IsDigit(s[i])
  {
    if |s| == 0 then 0 else 10 * ParseDigits(s[..|s| - 1]) + DigitValue(s[|s| - 1])
  }

  /** Reads an optional minus sign followed by decimal digits. */
  function ParseInt(s: string): Option<int>
  {
    if |s| > 0 && s[0] == '-' then
      if |s| > 1 && forall i :: 1 <= i < |s| ==> IsDigit(s[i]) then Some(0 - ParseDigits(s[1..])) else None
    else if |s| > 0 && forall i :: 0 <= i < |s| ==> IsDigit(s[i]) then Some(ParseDigits(s))
    else None
  }

  lemma {:induction false} ParseNatToString(n: nat)
    ensures ParseDigits(NatToString(n)) == n
  {
    if n >= 10 {
      var s := NatToString(n);
      assert s[..|s| - 1] == NatToString(n / 10);
      ParseNatToString(n / 10);
    }
  }

  /** Parsing undoes rendering. */
  lemma IntToStringRoundTrip(n: int)
    ensures ParseInt(IntToString(n)) == Some(n)
  {
    if n < 0 {
      var m: nat := -n;
      ParseNegative(m);
      assert IntToString(n) == "-" + NatToString(m);
    } else {
      ParseNonNegative(n);
    }
  }

  lemma ParseNonNegative(n: nat)
    ensures ParseInt(NatToString(n)) == Some(n)
  {
    var s := NatToString(n);
    assert IsDigit(s[0]) && s[0] != '-';
    ParseNatToString(n);
  }

  lemma ParseNegative(m: nat)
    requires m > 0
    ensures ParseInt("-" + NatToString(m)) == Some(-(m as int))
  {
    var d := NatToString(m);
    var s := "-" + d;
    assert s[1..] == d;
    assert forall i :: 1 <= i < |s| ==> s[i] == d[i - 1];
    ParseNatToString(m);
  }

  /** The decimal rendering of each number, in order. */
  function Tokens(xs: seq<int>): (t: seq<string>)
    ensures |t| == |xs|
    ensures forall i :: 0 <= i < |t| ==> t[i] == IntToString(xs[i])
  {
    seq(|xs|, i requires 0 <= i < |xs| => IntToString(xs[i]))
  }

  /** Tokens joined with exactly one space between neighbours, none at the ends. */
  function Join(parts: seq<string>): string
  {
    if |parts| == 0 then ""
    else if |parts| == 1 then parts[0]
    else parts[0] + " " + Join(parts[1..])
  }

  /** Appending one more token at the end, as a StringBuilder loop does. */
  lemma {:induction false} JoinSnoc(parts: seq<string>, last: string)
    ensures Join(parts + [last]) == if |parts| == 0 then last else Join(parts) + " " + last
  {
    if |parts| >= 2 {
      assert (parts + [last])[1..] == parts[1..] + [last];
      JoinSnoc(parts[1..], last);
    } else if |parts| == 1 {
      assert (parts + [last])[1..] == [last];
    }
  }

  /** One step of a loop that appends tokens[i] to a builder holding the join
      of tokens[..i], writing a space first unless the builder is empty. */
  lemma JoinPrefixStep(tokens: seq<string>, i: nat)
    requires i < |tokens|
    requires forall k :: 0 <= k < |tokens| ==> |tokens[k]| > 0
    ensures Join(tokens[..i]) == "" <==> i == 0
    ensures Join(tokens[..i + 1]) ==
              if i == 0 then tokens[i] else Join(tokens[..i]) + " " + tokens[i]
  {
    JoinEmpty(tokens[..i]);
    JoinSnoc(tokens[..i], tokens[i]);
    assert tokens[..i + 1] == tokens[..i] + [tokens[i]];
  }

  /** A join of non-empty tokens is empty only when there are no tokens. */
  lemma {:induction false} JoinEmpty(parts: seq<string>)
    requires forall i :: 0 <= i < |parts| ==> |parts[i]| > 0
    ensures Join(parts) == "" <==> |parts| == 0
  {
    if |parts| >= 2 {
      assert |Join(parts)| >= |parts[0]|;
    }
  }

  /** Index of the first space in s, or |s| when there is none. */
  function FirstSpace(s: string): (k: nat)
    ensures k <= |s|
    ensures forall i :: 0 <= i < k ==> s[i] != ' '
    ensures k < |s| ==> s[k] == ' '
  {
    if |s| == 0 || s[0] == ' ' then 0 else 1 + FirstSpace(s[1..])
  }

  /** The pieces of s between single spaces (a reference tokenizer). */
  function Split(s: string): seq<string>
    decreases |s|
  {
    var k := FirstSpace(s);
    if k == |s| then [s] else [s[..k]] + Split(s[k + 1..])
  }

  predicate IsToken(t: string) { |t| > 0 && ' ' !in t }

  lemma FirstSpaceAfterToken(p: string, rest: string)
    requires ' ' !in p
    ensures FirstSpace(p + " " + rest) == |p|
  {
    var s := p + " " + rest;
    assert s[|p|] == ' ';
    assert forall k :: 0 <= k < |p| ==> s[k] == p[k];
  }

  /** Splitting a join of space-free, non-empty tokens gives the tokens back. */
  lemma {:induction false} SplitJoin(parts: seq<string>)
    requires |parts| > 0
    requires forall i :: 0 <= i < |parts| ==> IsToken(parts[i])
    ensures Split(Join(parts)) == parts
  {
    if |parts| == 1 {
      assert FirstSpace(parts[0]) == |parts[0]|;
    } else {
      var p, rest := parts[0], Join(parts[1..]);
      var s := p + " " + rest;
      assert Join(parts) == s;
      FirstSpaceAfterToken(p, rest);
      assert s[..|p|] == p;
      assert s[|p| + 1..] == rest;
      SplitJoin(parts[1..]);
      assert Split(s) == [p] + Split(rest);
    }
  }

  /** Characters removed by String.trim: every char up to U+0020. */
  predicate IsTrimmed(c: char) { c <= ' ' }

  function TrimStart(s: string): string
  {
    if |s| > 0 && IsTrimmed(s[0]) then TrimStart(s[1..]) else s
  }

  function TrimEnd(s: string): string
  {
    if |s| > 0 && IsTrimmed(s[|s| - 1]) then TrimEnd(s[..|s| - 1]) else s
  }

  /** String.trim: s without its leading and trailing characters up to U+0020.
      It is empty exactly when every character of s is trimmable, and
      otherwise it neither starts nor ends with a trimmable character. */
  function Trim(s: string): (t: string)
    ensures |t| <= |s|
    ensures t == "" <==> forall k :: 0 <= k < |s| ==> IsTrimmed(s[k])
    ensures |t| > 0 ==> !IsTrimmed(t[0]) && !IsTrimmed(t[|t| - 1])
  {
    TrimEnds(s);
    TrimEnd(TrimStart(s))
  }

  lemma TrimEnds(s: string)
    ensures |TrimEnd(TrimStart(s))| <= |s|
    ensures TrimEnd(TrimStart(s)) == "" <==> forall k :: 0 <= k < |s| ==> IsTrimmed(s[k])
    ensures |TrimEnd(TrimStart(s))| > 0 ==>
              !IsTrimmed(TrimEnd(TrimStart(s))[0]) && !IsTrimmed(TrimEnd(TrimStart(s))[|TrimEnd(TrimStart(s))| - 1])
  {
    var i := TrimStartAt(s);
    var u := TrimStart(s);
    var j := TrimEndAt(u);
    if TrimEnd(u) == "" {
      assert |u| == 0;
    }
  }

  /** Trim keeps a contiguous window of s and cuts off only trimmable characters. */
  lemma TrimWindow(s: string)
    ensures exists i, j :: (0 <= i <= j <= |s| && Trim(s) == s[i..j] &&
                            (forall k :: 0 <= k < i ==> IsTrimmed(s[k])) &&
                            (forall k :: j <= k < |s| ==> IsTrimmed(s[k])))
  {
    var i := TrimStartAt(s);
    var u := TrimStart(s);
    var j := TrimEndAt(u);
    assert Trim(s) == s[i..i + j];
    forall k | i + j <= k < |s| ensures IsTrimmed(s[k]) {
      assert s[k] == u[k - i];
    }
  }

  lemma {:induction false} TrimStartAt(s: string) returns (i: nat)
    ensures i <= |s| && TrimStart(s) == s[i..]
    ensures forall k :: 0 <= k < i ==> IsTrimmed(s[k])
    ensures |TrimStart(s)| > 0 ==> !IsTrimmed(TrimStart(s)[0])
  {
    if |s| > 0 && IsTrimmed(s[0]) {
      var i' := TrimStartAt(s[1..]);
      assert s[1..][i'..] == s[i' + 1..];
      forall k | 0 <= k < i' + 1 ensures IsTrimmed(s[k]) {
        if k > 0 { assert s[k] == s[1..][k - 1]; }
      }
      i := i' + 1;
    } else {
      assert TrimStart(s) == s[0..];
      i := 0;
    }
  }

  lemma {:induction false} TrimEndAt(s: string) returns (j: nat)
    ensures j <= |s| && TrimEnd(s) == s[..j]
    ensures forall k :: j <= k < |s| ==> IsTrimmed(s[k])
    ensures |TrimEnd(s)| > 0 ==> !IsTrimmed(TrimEnd(s)[|TrimEnd(s)| - 1])
    ensures |TrimEnd(s)| > 0 ==> TrimEnd(s)[0] == s[0]
  {
    if |s| > 0 && IsTrimmed(s[|s| - 1]) {
      var s' := s[..|s| - 1];
      j := TrimEndAt(s');
      assert s'[..j] == s[..j];
    } else {
      assert TrimEnd(s) == s[..|s|];
      j := |s|;
    }
  }
}
