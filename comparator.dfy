/** CharsArrayComparator: the overlap detector. Given a head character sequence
    and a haystack, it finds the longest leading run of the head that occurs as a
    contiguous substring anywhere in the haystack and returns the haystack positions
    of its first occurrence.

    The source tests containment with `superString.matches(".*" + head + ".*")`
    and locates the run with `superString.indexOf(head)`. Both are modelled as
    literal substring search, which is what they mean for a head without regular
    expression metacharacters and a haystack without line terminators. */
module Comparator {

  /** `sub` occurs in `sup` starting at position `p`. */
  predicate OccursAt(sup: seq<char>, sub: seq<char>, p: int) {
    0 <= p && p + |sub| <= |sup| && sup[p..p + |sub|] == sub
  }

  /** The leftmost position at or after `from` where `sub` occurs in `sup`,
      or -1 when there is none (Java's String.indexOf); see IndexOfFromSpec. */
  function IndexOfFrom(sup: seq<char>, sub: seq<char>, from: nat): (r: int)
    requires from <= |sup|
    decreases |sup| - from
    ensures r == -1 || from <= r <= |sup|
  {
    if from + |sub| > |sup| then -1
    else if sup[from..from + |sub|] == sub then from
    else IndexOfFrom(sup, sub, from + 1)
  }

  lemma {:induction false} IndexOfFromSpec(sup: seq<char>, sub: seq<char>, from: nat)
    requires from <= |sup|
    decreases |sup| - from
    ensures var r := IndexOfFrom(sup, sub, from);
            (r == -1 || OccursAt(sup, sub, r))
            && (r == -1 <==> forall q :: from <= q ==> !OccursAt(sup, sub, q))
            && (r >= 0 ==> forall q :: from <= q < r ==> !OccursAt(sup, sub, q))
  {
    if from + |sub| > |sup| {
    } else if sup[from..from + |sub|] == sub {
    } else {
      IndexOfFromSpec(sup, sub, from + 1);
    }
  }

  /** The leftmost position of `sub` in `sup`, or -1. */
  function IndexOf(sup: seq<char>, sub: seq<char>): (r: int)
    ensures r == -1 || 0 <= r <= |sup|
  {
    IndexOfFrom(sup, sub, 0)
  }

  /** IndexOf answers -1 exactly when `sub` occurs nowhere, and otherwise
      the leftmost occurrence. */
  lemma IndexOfSpec(sup: seq<char>, sub: seq<char>)
    ensures IndexOf(sup, sub) == -1 <==> forall q :: !OccursAt(sup, sub, q)
    ensures IndexOf(sup, sub) >= 0 ==>
              OccursAt(sup, sub, IndexOf(sup, sub))
              && forall q :: 0 <= q < IndexOf(sup, sub) ==> !OccursAt(sup, sub, q)
  {
    IndexOfFromSpec(sup, sub, 0);
  }

  /** `sup` contains `sub` as a contiguous substring, at either end or inside. */
  predicate Contains(sup: seq<char>, sub: seq<char>) {
    IndexOf(sup, sub) >= 0
  }

  lemma ContainsEmpty(sup: seq<char>)
    ensures Contains(sup, [])
  {
    assert OccursAt(sup, [], 0);
    IndexOfSpec(sup, []);
  }

  /** A one-character sequence is contained exactly when that character occurs. */
  lemma ContainsSingleton(sup: seq<char>, s: seq<char>)
    requires |s| == 1
    ensures Contains(sup, s) <==> s[0] in sup
  {
    IndexOfSpec(sup, s);
    if s[0] in sup {
      var p :| 0 <= p < |sup| && sup[p] == s[0];
      assert sup[p..p + 1] == s;
      assert OccursAt(sup, s, p);
    }
  }

  /** Every character of a contained sequence occurs in the container. */
  lemma ContainsChar(sup: seq<char>, sub: seq<char>, i: nat)
    requires Contains(sup, sub) && i < |sub|
    ensures sub[i] in sup
  {
    IndexOfSpec(sup, sub);
    var p := IndexOf(sup, sub);
    assert sup[p..p + |sub|][i] == sup[p + i];
  }

  /** Containment is closed under taking prefixes. */
  lemma ContainsPrefixClosed(sup: seq<char>, s: seq<char>, i: nat, j: nat)
    requires i <= j <= |s|
    requires Contains(sup, s[..j])
    ensures Contains(sup, s[..i])
  {
    IndexOfSpec(sup, s[..j]);
    IndexOfSpec(sup, s[..i]);
    var p := IndexOf(sup, s[..j]);
    assert sup[p..p + i] == sup[p..p + j][..i];
    assert s[..j][..i] == s[..i];
    assert OccursAt(sup, s[..i], p);
  }

  /** The length of the longest prefix of `charSet` no longer than `k`
      that `charSuperSet` contains (a descending search); see LongestFromSpec. */
  function LongestFrom(charSet: seq<char>, charSuperSet: seq<char>, k: nat): (r: nat)
    requires k <= |charSet|
    ensures r <= k
  {
    if k == 0 then 0
    else if Contains(charSuperSet, charSet[..k]) then k
    else LongestFrom(charSet, charSuperSet, k - 1)
  }

  lemma {:induction false} LongestFromSpec(charSet: seq<char>, charSuperSet: seq<char>, k: nat)
    requires k <= |charSet|
    ensures Contains(charSuperSet, charSet[..LongestFrom(charSet, charSuperSet, k)])
    ensures forall j :: LongestFrom(charSet, charSuperSet, k) < j <= k ==> !Contains(charSuperSet, charSet[..j])
  {
    if k == 0 {
      assert charSet[..0] == [];
      ContainsEmpty(charSuperSet);
    } else if !Contains(charSuperSet, charSet[..k]) {
      LongestFromSpec(charSet, charSuperSet, k - 1);
    }
  }

  /** Reference definition of getHeadIndexesGreedy: the positions of the
      leftmost occurrence of the longest prefix of `charSet` contained in
      `charSuperSet`; empty when either input is empty. */
  function HeadOverlap(charSet: seq<char>, charSuperSet: seq<char>): (r: seq<int>)
    ensures |r| <= |charSet|
  {
    if |charSet| == 0 || |charSuperSet| == 0 then []
    else
      var k := LongestFrom(charSet, charSuperSet, |charSet|);
      var p := IndexOf(charSuperSet, charSet[..k]);
      seq(k, i => p + i)
  }

  /** What the overlap positions mean: a run of consecutive haystack
      positions where the prefix of that length occurs first, no longer
      prefix occurs anywhere, and the run is empty exactly when the first
      head character is absent from the haystack. */
  lemma HeadOverlapSpec(charSet: seq<char>, charSuperSet: seq<char>)
    ensures var r := HeadOverlap(charSet, charSuperSet);
            && (forall i :: 0 <= i < |r| ==> r[i] == r[0] + i)
            && (|r| > 0 ==> OccursAt(charSuperSet, charSet[..|r|], r[0]))
            && (|r| > 0 ==> forall q :: 0 <= q < r[0] ==> !OccursAt(charSuperSet, charSet[..|r|], q))
            && (forall j :: |r| < j <= |charSet| ==> !Contains(charSuperSet, charSet[..j]))
            && (|r| == 0 <==> (|charSet| == 0 || charSet[0] !in charSuperSet))
  {
    if |charSet| > 0 {
      ContainsSingleton(charSuperSet, charSet[..1]);
    }
    if |charSet| == 0 {
    } else if |charSuperSet| == 0 {
      forall j | 0 < j <= |charSet| ensures !Contains(charSuperSet, charSet[..j]) {
        IndexOfSpec(charSuperSet, charSet[..j]);
      }
    } else {
      var k := LongestFrom(charSet, charSuperSet, |charSet|);
      LongestFromSpec(charSet, charSuperSet, |charSet|);
      IndexOfSpec(charSuperSet, charSet[..k]);
      if k == 0 {
        assert !Contains(charSuperSet, charSet[..1]);
      } else {
        ContainsPrefixClosed(charSuperSet, charSet, 1, k);
      }
    }
  }

  /** The converse of HeadOverlapSpec: a non-empty run at p of length k is
      the overlap when the prefix of length k occurs first at p and the prefix
      one longer occurs nowhere. */
  lemma HeadOverlapIs(charSet: seq<char>, charSuperSet: seq<char>, p: nat, k: nat)
    requires 0 < k <= |charSet|
    requires OccursAt(charSuperSet, charSet[..k], p)
    requires forall q :: 0 <= q < p ==> !OccursAt(charSuperSet, charSet[..k], q)
    requires k == |charSet| || !Contains(charSuperSet, charSet[..k + 1])
    ensures HeadOverlap(charSet, charSuperSet) == seq(k, i => p + i)
  {
    IndexOfSpec(charSuperSet, charSet[..k]);
    GreedyStopIsLongest(charSet, charSuperSet, k);
  }

  /** Greedy growth of the prefix stops at the globally longest contained
      prefix, because containment is prefix-closed. */
  lemma GreedyStopIsLongest(charSet: seq<char>, charSuperSet: seq<char>, i: nat)
    requires i <= |charSet|
    requires Contains(charSuperSet, charSet[..i])
    requires i == |charSet| || !Contains(charSuperSet, charSet[..i + 1])
    ensures LongestFrom(charSet, charSuperSet, |charSet|) == i
  {
    var k := LongestFrom(charSet, charSuperSet, |charSet|);
    LongestFromSpec(charSet, charSuperSet, |charSet|);
    if k > i {
      ContainsPrefixClosed(charSuperSet, charSet, i + 1, k);
    }
  }

  /** getHeadIndexesGreedy: grow a prefix of `charSet` one character at a time
      while `charSuperSet` still contains it, then list the positions of its
      first occurrence. */
  method HeadIndexesGreedy(charSet: seq<char>, charSuperSet: seq<char>) returns (positions: seq<int>)
    ensures positions == HeadOverlap(charSet, charSuperSet)
  {
    if |charSet| == 0 || |charSuperSet| == 0 {
      return [];
    }
    var headBuilder: seq<char> := [];
    ContainsEmpty(charSuperSet);
    var i := 0;
    while i < |charSet|
      invariant 0 <= i <= |charSet|
      invariant headBuilder == charSet[..i]
      invariant Contains(charSuperSet, headBuilder)
    {
      headBuilder := headBuilder + [charSet[i]];
      assert headBuilder == charSet[..i + 1];
      if !Contains(charSuperSet, headBuilder) {
        // delete the character that broke containment
        headBuilder := headBuilder[..|headBuilder| - 1];
        break;
      }
      i := i + 1;
    }
    assert headBuilder == charSet[..i];
    GreedyStopIsLongest(charSet, charSuperSet, i);
    var startIndex := IndexOf(charSuperSet, headBuilder);
    var endIndex := startIndex + |headBuilder|;
    var headCharPositions := new int[|headBuilder|];
    var headCharPosition := 0;
    var j := startIndex;
    while j < endIndex
      invariant startIndex <= j <= endIndex
      invariant headCharPosition == j - startIndex
      invariant forall m :: 0 <= m < headCharPosition ==> headCharPositions[m] == startIndex + m
    {
      headCharPositions[headCharPosition] := j;
      headCharPosition := headCharPosition + 1;
      j := j + 1;
    }
    positions := headCharPositions[..];
    assert positions == seq(|headBuilder|, m => startIndex + m);
  }
}
