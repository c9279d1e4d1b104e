/** MergeOverlapPair: the splice. The head of `from` that overlaps `into`
    is matched where it first occurs in `into`, and that span of `into` is
    replaced by the whole of `from`. */
module Merge {
  import opened Wrappers
  import opened Comparator

  /** MergeOverlapPair.merge, with Java's null as None. It calls
      getHeadIndexesGreedy, whose result is HeadOverlap (see
      Comparator.HeadIndexesGreedy). */
  function MergeOverlapPair(fromString: Option<string>, intoString: Option<string>): (r: Option<string>)
    ensures r.None? <==> fromString.None?
    ensures fromString.Some? && intoString.None? ==> r == fromString
  {
    if intoString.None? && fromString.Some? then fromString
    else if fromString.None? then None
    else
      var overlap := HeadOverlap(fromString.value, intoString.value);
      if |overlap| == 0 then fromString
      else
        HeadOverlapSpec(fromString.value, intoString.value);
        Some(intoString.value[..overlap[0]] + fromString.value + intoString.value[overlap[|overlap| - 1] + 1..])
  }

  /** Without an overlap the merge gives back `from` and discards `into`. */
  lemma NoOverlapKeepsFrom(fromString: string, intoString: string)
    requires fromString == [] || fromString[0] !in intoString
    ensures MergeOverlapPair(Some(fromString), Some(intoString)) == Some(fromString)
  {
    HeadOverlapSpec(fromString, intoString);
  }

  /** With an overlap of k characters first found at p in `into`, the result
      is `into` up to p, then all of `from`, then `into` after the matched
      span; so it is k characters shorter than the two inputs together. */
  lemma SpliceShape(fromString: string, intoString: string)
    requires |fromString| > 0 && fromString[0] in intoString
    ensures var overlap := HeadOverlap(fromString, intoString);
            0 < |overlap| <= |fromString|
            && var p, k := overlap[0], |overlap|;
            && 0 <= p && p + k <= |intoString|
            && intoString[p..p + k] == fromString[..k]
            && MergeOverlapPair(Some(fromString), Some(intoString))
               == Some(intoString[..p] + fromString + intoString[p + k..])
            && |MergeOverlapPair(Some(fromString), Some(intoString)).value| == |intoString| + |fromString| - k
  {
    HeadOverlapSpec(fromString, intoString);
  }

  /** Once the overlap is known to be the run of k positions from p, the
      merge is `into` up to p, then `from`, then `into` after p + k. */
  lemma SpliceAt(fromString: string, intoString: string, p: nat, k: nat)
    requires 0 < k && p + k <= |intoString|
    requires HeadOverlap(fromString, intoString) == seq(k, i => p + i)
    ensures MergeOverlapPair(Some(fromString), Some(intoString))
            == Some(intoString[..p] + fromString + intoString[p + k..])
  {
    HeadOverlapSpec(fromString, intoString);
  }

  /** Whatever the inputs, a non-null `from` survives the merge whole: it
      occurs in the result, right after the untouched part of `into`. */
  lemma MergeContainsFrom(fromString: string, intoString: Option<string>)
    ensures Contains(MergeOverlapPair(Some(fromString), intoString).value, fromString)
  {
    var r := MergeOverlapPair(Some(fromString), intoString).value;
    var p := 0;
    if intoString.Some? && |fromString| > 0 && fromString[0] in intoString.value {
      SpliceShape(fromString, intoString.value);
      p := HeadOverlap(fromString, intoString.value)[0];
      assert r[p..p + |fromString|] == fromString;
    } else if intoString.Some? {
      NoOverlapKeepsFrom(fromString, intoString.value);
      assert r[..|fromString|] == fromString;
    } else {
      assert r[..|fromString|] == fromString;
    }
    assert OccursAt(r, fromString, p);
    IndexOfSpec(r, fromString);
  }

  /** A non-empty fragment merged into itself is itself: its whole head
      matches at position 0. */
  lemma MergeSelf(x: string)
    requires |x| > 0
    ensures MergeOverlapPair(Some(x), Some(x)) == Some(x)
  {
    HeadOverlapSpec(x, x);
    var r := HeadOverlap(x, x);
    assert x[..|x|] == x;
    assert x[0..0 + |x|] == x;
    assert OccursAt(x, x, 0);
    IndexOfSpec(x, x);
    assert |r| == |x|;
    assert r[0] == 0;
    SpliceShape(x, x);
    assert x[..0] + x + x[|x|..] == x;
  }
}
