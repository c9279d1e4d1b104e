/** The text of the "O draconia" fragments and of the merges, with the
    splice identities, on their own so that only sequence facts are in scope. */
module DraconiaText {
  const A: string := "O draconia"
  const B: string := "conian devil! Oh la"
  const C: string := "h lame sa"
  const D: string := "saint! "

  /** The text after the first, second and third merge. */
  const M1: string := "O draconian devil! Oh la"
  const M2: string := "O draconian devil! Oh lame sa"
  const M3: string := "O draconian devil! Oh lame saint! "

  lemma SpliceBAText()
    ensures A[..5] + B + A[10..] == M1
  {
    assert A[10..] == [];
    assert A[..5] + B + A[10..] == A[..5] + B;
    assert A[..5] == "O dra";
  }

  lemma SpliceCM1Text()
    ensures M1[..20] + C + M1[24..] == M2
  {
    assert M1[24..] == [];
    assert M1[..20] + C + M1[24..] == M1[..20] + C;
    assert M1[..20] == "O draconian devil! O";
  }

  lemma SpliceDM2Text()
    ensures M2[..27] + D + M2[29..] == M3
  {
    assert M2[29..] == [];
    assert M2[..27] + D + M2[29..] == M2[..27] + D;
    assert M2[..27] == "O draconian devil! Oh lame ";
  }
}

/** The "O draconia" fragments of the search test and of the end-to-end
    reassembly test, proved about the model. The reassembly takes three rounds
    of search and merge; each round merges fragment 1 into fragment 0. */
module Draconia {
  import opened Wrappers
  import opened Comparator
  import opened Search
  import opened Merge
  import opened Compositor
  import opened TestCases
  import opened DraconiaText

  const Fragments: seq<Option<string>> := [Some(A), Some(B), Some(C), Some(D)]
  const Round1: seq<Option<string>> := [Some(M1), Some(C), Some(D)]
  const Round2: seq<Option<string>> := [Some(M2), Some(D)]

  // the head overlaps that are not empty, as runs of positions

  lemma OverlapBA()
    ensures HeadOverlap(B, A) == seq(5, i => 5 + i)
  {
    OverlapByFirstChar(B, A, 5, 5);
  }

  /** Only the 'O' of "O draconia" occurs in B, and it is not followed by
      a space. */
  lemma OverlapAB()
    ensures HeadOverlap(A, B) == seq(1, i => 14 + i)
  {
    OverlapByTwoChars(A, B, 14);
  }

  lemma OverlapCB()
    ensures HeadOverlap(C, B) == seq(4, i => 15 + i)
  {
    OverlapByFirstChar(C, B, 15, 4);
  }

  lemma OverlapDC()
    ensures HeadOverlap(D, C) == seq(2, i => 7 + i)
  {
    OverlapByFirstChar(D, C, 7, 2);
  }

  lemma OverlapCM1()
    ensures HeadOverlap(C, M1) == seq(4, i => 20 + i)
  {
    OverlapByFirstChar(C, M1, 20, 4);
  }

  lemma OverlapDM2()
    ensures HeadOverlap(D, M2) == seq(2, i => 27 + i)
  {
    OverlapByFirstChar(D, M2, 27, 2);
  }

  // every other pair: the head's first character is absent from the other
  // fragment, so the overlap is empty

  lemma AbsentAC() ensures HeadOverlap(A, C) == [] { HeadOverlapSpec(A, C); }
  lemma AbsentCA() ensures HeadOverlap(C, A) == [] { HeadOverlapSpec(C, A); }
  lemma AbsentAD() ensures HeadOverlap(A, D) == [] { HeadOverlapSpec(A, D); }
  lemma AbsentDA() ensures HeadOverlap(D, A) == [] { HeadOverlapSpec(D, A); }
  lemma AbsentBC() ensures HeadOverlap(B, C) == [] { HeadOverlapSpec(B, C); }
  lemma AbsentBD() ensures HeadOverlap(B, D) == [] { HeadOverlapSpec(B, D); }
  lemma AbsentDB() ensures HeadOverlap(D, B) == [] { HeadOverlapSpec(D, B); }
  lemma AbsentCD() ensures HeadOverlap(C, D) == [] { HeadOverlapSpec(C, D); }
  lemma AbsentM1C() ensures HeadOverlap(M1, C) == [] { HeadOverlapSpec(M1, C); }
  lemma AbsentM1D() ensures HeadOverlap(M1, D) == [] { HeadOverlapSpec(M1, D); }
  lemma AbsentDM1() ensures HeadOverlap(D, M1) == [] { HeadOverlapSpec(D, M1); }
  lemma AbsentM2D() ensures HeadOverlap(M2, D) == [] { HeadOverlapSpec(M2, D); }

  /** With four entries, the pairs (i, j) with i < j are these six. */
  lemma UpperPairsOfFour(s: seq<Option<string>>, m: nat)
    requires |s| == 4
    requires Score(s, 0, 1) <= m && Score(s, 0, 2) <= m && Score(s, 0, 3) <= m
    requires Score(s, 1, 2) <= m && Score(s, 1, 3) <= m && Score(s, 2, 3) <= m
    ensures forall i, j :: 0 <= i < j < |s| ==> Score(s, i, j) <= m
  {
  }

  /** With three entries, the pairs (i, j) with i < j are these three. */
  lemma UpperPairsOfThree(s: seq<Option<string>>, m: nat)
    requires |s| == 3
    requires Score(s, 0, 1) <= m && Score(s, 0, 2) <= m && Score(s, 1, 2) <= m
    ensures forall i, j :: 0 <= i < j < |s| ==> Score(s, i, j) <= m
  {
  }

  /** merge(1, 0) on two non-null fragments: the merged string takes slot
      0 and the rest move up behind it. */
  lemma MergeSecondIntoFirst(d: seq<Option<string>>)
    requires |d| >= 2 && d[0].Some? && d[1].Some?
    ensures MergeAt(d, 1, 0) == (Ok(true), [MergeOverlapPair(d[1], d[0])] + d[2..])
  {
    var written := d[0 := MergeOverlapPair(d[1], d[0])];
    assert written[..1] == [MergeOverlapPair(d[1], d[0])];
    assert written[2..] == d[2..];
  }

  // round 1: four fragments

  lemma FragmentScores()
    ensures Score(Fragments, 0, 1) == 5 && Score(Fragments, 0, 2) == 0 && Score(Fragments, 0, 3) == 0
    ensures Score(Fragments, 1, 2) == 4 && Score(Fragments, 1, 3) == 0 && Score(Fragments, 2, 3) == 2
    ensures Oriented(Fragments, 0, 1) == (1, 0)
  {
    OverlapBA();
    OverlapAB();
    OverlapCB();
    OverlapDC();
    AbsentAC();
    AbsentCA();
    AbsentAD();
    AbsentDA();
    AbsentBC();
    AbsentBD();
    AbsentDB();
    AbsentCD();
  }

  /** NextMaximallyOverlappingPairTest: the head of "conian devil! Oh la"
      overlaps "O draconia" the most, so the search gives [1, 0]. */
  lemma SearchDraconia()
    ensures SelectPair(Fragments) == (1, 0)
  {
    FragmentScores();
    UpperPairsOfFour(Fragments, 5);
    SelectFirstPair(Fragments);
  }

  lemma SpliceBA()
    ensures MergeOverlapPair(Some(B), Some(A)) == Some(M1)
  {
    OverlapBA();
    SpliceAt(B, A, 5, 5);
    SpliceBAText();
  }

  lemma MergeRound1()
    ensures MergeAt(Fragments, 1, 0) == (Ok(true), Round1)
  {
    SpliceBA();
    MergeSecondIntoFirst(Fragments);
    assert [Some(M1)] + Fragments[2..] == Round1;
  }

  // round 2: three fragments

  lemma Round1Scores()
    ensures Score(Round1, 0, 1) == 4 && Score(Round1, 0, 2) == 0 && Score(Round1, 1, 2) == 2
    ensures Oriented(Round1, 0, 1) == (1, 0)
  {
    OverlapCM1();
    OverlapDC();
    AbsentM1C();
    AbsentM1D();
    AbsentDM1();
    AbsentCD();
  }

  lemma SearchRound1()
    ensures SelectPair(Round1) == (1, 0)
  {
    Round1Scores();
    UpperPairsOfThree(Round1, 4);
    SelectFirstPair(Round1);
  }

  lemma SpliceCM1()
    ensures MergeOverlapPair(Some(C), Some(M1)) == Some(M2)
  {
    OverlapCM1();
    SpliceAt(C, M1, 20, 4);
    SpliceCM1Text();
  }

  lemma MergeRound2()
    ensures MergeAt(Round1, 1, 0) == (Ok(true), Round2)
  {
    SpliceCM1();
    MergeSecondIntoFirst(Round1);
    assert [Some(M2)] + Round1[2..] == Round2;
  }

  // round 3: two fragments

  lemma SearchRound2()
    ensures SelectPair(Round2) == (1, 0)
  {
    OverlapDM2();
    AbsentM2D();
    SelectFirstPair(Round2);
  }

  lemma SpliceDM2()
    ensures MergeOverlapPair(Some(D), Some(M2)) == Some(M3)
  {
    OverlapDM2();
    SpliceAt(D, M2, 27, 2);
    SpliceDM2Text();
  }

  lemma MergeRound3()
    ensures MergeAt(Round2, 1, 0) == (Ok(true), [Some(M3)])
  {
    SpliceDM2();
    MergeSecondIntoFirst(Round2);
    assert [Some(M3)] + Round2[2..] == [Some(M3)];
  }

  /** The three rounds in sequence: recursiveMerge leaves the one fragment
      "O draconian devil! Oh lame saint! ". */
  lemma ReassembleDraconia()
    ensures Reassemble(Fragments) == [Some(M3)]
  {
    SearchDraconia();
    MergeRound1();
    assert Reassemble(Fragments) == Reassemble(Round1);
    SearchRound1();
    MergeRound2();
    assert Reassemble(Round1) == Reassemble(Round2);
    SearchRound2();
    MergeRound3();
  }

  /** DocumentCompositorTest: build the compositor from the fragments,
      recursiveMerge, then getToString. */
  method EndToEnd() returns (text: string)
    ensures text == "O draconian devil! Oh lame saint! "
  {
    var compositor := new DocumentCompositor.FromArray(Fragments);
    WithoutNullsNullFree(Fragments);
    compositor.RecursiveMerge();
    ReassembleDraconia();
    text := compositor.GetToString();
    assert Concat([Some(M3)]) == Concat([]) + M3;
  }
}
