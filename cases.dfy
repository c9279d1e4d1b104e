/** The short examples of the repository's unit tests, proved about the model. */
module TestCases {
  import opened Wrappers
  import opened Comparator
  import opened Search
  import opened Merge

  /** A run of k characters at p is the overlap when no earlier position of
      `into` starts with the head's first character and, unless the whole head
      matched, no position leaves room for a match one character longer. */
  lemma OverlapByFirstChar(from: string, into: string, p: nat, k: nat)
    requires 0 < k <= |from| && p + k <= |into| && into[p..p + k] == from[..k]
    requires forall q :: 0 <= q < p ==> into[q] != from[0]
    requires k == |from| || forall q :: 0 <= q && q + k + 1 <= |into| ==> into[q] != from[0]
    ensures HeadOverlap(from, into) == seq(k, i => p + i)
  {
    forall q | 0 <= q < p
      ensures !OccursAt(into, from[..k], q)
    {
      if q + k <= |into| {
        assert into[q..q + k][0] == into[q];
      }
    }
    if k < |from| {
      var longer := from[..k + 1];
      assert !Contains(into, longer) by {
        IndexOfSpec(into, longer);
        forall q | 0 <= q && q + |longer| <= |into|
          ensures !OccursAt(into, longer, q)
        {
          assert into[q..q + |longer|][0] == into[q];
        }
      }
    }
    HeadOverlapIs(from, into, p, k);
  }

  /** The overlap is the single position p when p is the first occurrence
      of the head's first character and that character is never followed by
      the head's second one. */
  lemma OverlapByTwoChars(from: string, into: string, p: nat)
    requires 2 <= |from| && p < |into| && into[p] == from[0]
    requires forall q :: 0 <= q < p ==> into[q] != from[0]
    requires forall q :: 0 <= q && q + 1 < |into| && into[q] == from[0] ==> into[q + 1] != from[1]
    ensures HeadOverlap(from, into) == seq(1, i => p + i)
  {
    assert into[p..p + 1] == from[..1];
    forall q | 0 <= q < p
      ensures !OccursAt(into, from[..1], q)
    {
      assert into[q..q + 1][0] == into[q];
    }
    var longer := from[..2];
    assert !Contains(into, longer) by {
      IndexOfSpec(into, longer);
      forall q | 0 <= q && q + |longer| <= |into|
        ensures !OccursAt(into, longer, q)
      {
        assert into[q..q + |longer|][0] == into[q];
        assert into[q..q + |longer|][1] == into[q + 1];
      }
    }
    HeadOverlapIs(from, into, p, 1);
  }

  // CharsArrayComparatorTest and the examples of the comparator's comment

  lemma DocCommentExample()
    ensures HeadOverlap("DEFG", "ABCDEF") == [3, 4, 5]
  {
    OverlapByFirstChar("DEFG", "ABCDEF", 3, 3);
  }

  lemma HeadAtEnd()
    ensures HeadOverlap("DEFABC", "123DEF") == [3, 4, 5]
  {
    OverlapByFirstChar("DEFABC", "123DEF", 3, 3);
  }

  lemma WholeHeadAtStart()
    ensures HeadOverlap("abcabc", "abcab") == [0, 1, 2, 3, 4]
  {
    OverlapByFirstChar("abcabc", "abcab", 0, 5);
  }

  lemma InteriorMatch()
    ensures |HeadOverlap("BCDE", "ABCDEF")| == 4
  {
    OverlapByFirstChar("BCDE", "ABCDEF", 1, 4);
  }

  lemma AbsentHead()
    ensures HeadOverlap("XYZABC", "DEFABC") == []
  {
    HeadOverlapSpec("XYZABC", "DEFABC");
  }

  // MergeOverlapPairTest

  lemma MergeAppendsTailOverlap()
    ensures HeadOverlap("ABC123", "431ABC") == [3, 4, 5]
  {
    OverlapByFirstChar("ABC123", "431ABC", 3, 3);
  }

  lemma MergeAppendsTail()
    ensures MergeOverlapPair(Some("ABC123"), Some("431ABC")) == Some("431ABC123")
  {
    MergeAppendsTailOverlap();
    assert "431ABC"[..3] + "ABC123" + "431ABC"[6..] == "431ABC123";
  }

  lemma MergeSeparatorsOverlap()
    ensures HeadOverlap(";;;341", "DEF;;;") == [3, 4, 5]
  {
    OverlapByFirstChar(";;;341", "DEF;;;", 3, 3);
  }

  lemma MergeSeparators()
    ensures MergeOverlapPair(Some(";;;341"), Some("DEF;;;")) == Some("DEF;;;341")
  {
    MergeSeparatorsOverlap();
    assert "DEF;;;"[..3] + ";;;341" + "DEF;;;"[6..] == "DEF;;;341";
  }

  lemma MergeRotationOverlap()
    ensures HeadOverlap("DEFABC", "ABCDEF") == [3, 4, 5]
  {
    OverlapByFirstChar("DEFABC", "ABCDEF", 3, 3);
  }

  lemma MergeRotation()
    ensures MergeOverlapPair(Some("DEFABC"), Some("ABCDEF")) == Some("ABCDEFABC")
  {
    MergeRotationOverlap();
    assert "ABCDEF"[..3] + "DEFABC" + "ABCDEF"[6..] == "ABCDEFABC";
  }

  lemma MergeRotationBackOverlap()
    ensures HeadOverlap("ABCDEF", "DEFABC") == [3, 4, 5]
  {
    OverlapByFirstChar("ABCDEF", "DEFABC", 3, 3);
  }

  lemma MergeRotationBack()
    ensures MergeOverlapPair(Some("ABCDEF"), Some("DEFABC")) == Some("DEFABCDEF")
  {
    MergeRotationBackOverlap();
    assert "DEFABC"[..3] + "ABCDEF" + "DEFABC"[6..] == "DEFABCDEF";
  }

  lemma MergeNullsAndEmpty()
    ensures MergeOverlapPair(Some("C"), None) == Some("C")
    ensures MergeOverlapPair(None, Some("C")) == None
    ensures MergeOverlapPair(Some(""), Some("C")) == Some("")
  {
    NoOverlapKeepsFrom("", "C");
  }

  // NextMaximallyOverlappingPairTest

  lemma SearchTwoFragments()
    ensures SelectPair([Some("ABCE"), Some("BCE")]) == (1, 0)
  {
    var s := [Some("ABCE"), Some("BCE")];
    OverlapByFirstChar("BCE", "ABCE", 1, 3);
    HeadOverlapSpec("ABCE", "BCE");
    assert Score(s, 0, 1) == 3 && Score(s, 1, 0) == 3;
    MaxScoreBounds(s);
    var i, j := SelectPairIsFirstMaximal(s);
    assert (i, j) == (0, 1) by {
      assert Candidate(s, 0, 1) && Before(0, 1, 1, 0);
    }
  }

  lemma CaseSensitiveOverlap()
    ensures HeadOverlap("bCe", "Abce") == [1]
  {
    var longer := "bCe"[..2];
    assert !Contains("Abce", longer) by {
      IndexOfSpec("Abce", longer);
      forall q | 0 <= q && q + |longer| <= 4
        ensures !OccursAt("Abce", longer, q)
      {
        assert "Abce"[q..q + |longer|][1] == "Abce"[q + 1];
      }
    }
    assert OccursAt("Abce", "bCe"[..1], 1);
    assert !OccursAt("Abce", "bCe"[..1], 0) by {
      assert "Abce"[0..1] == "A";
    }
    HeadOverlapIs("bCe", "Abce", 1, 1);
  }

  lemma SearchCaseSensitive()
    ensures SelectPair([Some("Abce"), Some("bCe")]) == (1, 0)
  {
    var s := [Some("Abce"), Some("bCe")];
    CaseSensitiveOverlap();
    HeadOverlapSpec("Abce", "bCe");
    assert Score(s, 0, 1) == 1 && Score(s, 1, 0) == 1;
    MaxScoreBounds(s);
    var i, j := SelectPairIsFirstMaximal(s);
    assert (i, j) == (0, 1) by {
      assert Candidate(s, 0, 1) && Before(0, 1, 1, 0);
    }
  }

  lemma SearchSeparators()
    ensures SelectPair([Some("ABC;;;;"), Some(";;;;B")]) == (1, 0)
  {
    var s := [Some("ABC;;;;"), Some(";;;;B")];
    OverlapByFirstChar(";;;;B", "ABC;;;;", 3, 4);
    HeadOverlapSpec("ABC;;;;", ";;;;B");
    assert Score(s, 0, 1) == 4 && Score(s, 1, 0) == 4;
    MaxScoreBounds(s);
    var i, j := SelectPairIsFirstMaximal(s);
    assert (i, j) == (0, 1) by {
      assert Candidate(s, 0, 1) && Before(0, 1, 1, 0);
    }
  }

  /** Empty fragments, no fragments and only nulls all give the sentinel. */
  lemma SearchNothingToOverlap()
    ensures SelectPair([Some(""), Some("")]) == (0, 0)
    ensures SelectPair([Some("")]) == (0, 0)
    ensures SelectPair([]) == (0, 0)
    ensures SelectPair([None, None, None]) == (0, 0)
  {
    var empties := [Some(""), Some("")];
    forall i, j | Candidate(empties, i, j) ensures Score(empties, i, j) == 0 {
      ScoreZero(empties, i, j);
    }
    SentinelWhenNoOverlap(empties);
    SentinelWhenNoOverlap([Some("")]);
    SentinelWhenNoOverlap([]);
    SentinelWhenNoOverlap([None, None, None]);
  }

  const ThreeFragments: seq<Option<string>> := [Some("ABCE"), Some("BCE"), Some("ABCE")]

  lemma ThreeFragmentsPairScores()
    ensures Score(ThreeFragments, 0, 1) == 3 && Score(ThreeFragments, 0, 2) == 4
  {
    OverlapByFirstChar("BCE", "ABCE", 1, 3);
    HeadOverlapSpec("ABCE", "BCE");
    OverlapByFirstChar("ABCE", "ABCE", 0, 4);
  }

  lemma ThreeFragmentsScores()
    ensures MaxScore(ThreeFragments) == 4
  {
    ThreeFragmentsPairScores();
    MaxScoreBounds(ThreeFragments);
  }

  lemma SearchThreeFragments()
    ensures SelectPair(ThreeFragments) == (2, 0)
  {
    var s := ThreeFragments;
    ThreeFragmentsPairScores();
    ThreeFragmentsScores();
    var i, j := SelectPairIsFirstMaximal(s);
    assert (i, j) == (0, 2) by {
      assert Candidate(s, 0, 2);
    }
  }
}
