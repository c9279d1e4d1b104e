/** NextMaximallyOverlappingPair: the pair selector. It scans every ordered
    pair of distinct non-null fragments, measures the head overlap in both
    directions, and returns [from, into] for the first pair (in i-outer,
    j-inner order) that reaches the largest overlap; [0, 0] when no pair
    overlaps at all. */
module Search {
  import opened Wrappers
  import opened Comparator

  function Max(a: nat, b: nat): nat {
    if a < b then b else a
  }

  /** Positions i and j hold two distinct non-null fragments. */
  predicate Candidate(s: seq<Option<string>>, i: int, j: int) {
    0 <= i < |s| && 0 <= j < |s| && i != j && s[i].Some? && s[j].Some?
  }

  /** The straight case: how much of the head of s[j] occurs inside s[i]. */
  function Straight(s: seq<Option<string>>, i: int, j: int): nat
    requires Candidate(s, i, j)
  {
    |HeadOverlap(s[j].value, s[i].value)|
  }

  /** The reverse case: how much of the head of s[i] occurs inside s[j]. */
  function Reverse(s: seq<Option<string>>, i: int, j: int): nat
    requires Candidate(s, i, j)
  {
    |HeadOverlap(s[i].value, s[j].value)|
  }

  /** The overlap the scan credits to the ordered pair (i, j); 0 for a pair it skips. */
  function Score(s: seq<Option<string>>, i: int, j: int): nat {
    if Candidate(s, i, j) then Max(Straight(s, i, j), Reverse(s, i, j)) else 0
  }

  /** The (from, into) orientation the scan records for (i, j): the reverse
      case only when it is strictly longer. The head of `from` overlaps `into`
      by exactly the pair's score. */
  function Oriented(s: seq<Option<string>>, i: int, j: int): (pair: (int, int))
    requires Candidate(s, i, j)
    ensures Candidate(s, pair.0, pair.1)
    ensures |HeadOverlap(s[pair.0].value, s[pair.1].value)| == Score(s, i, j)
    ensures pair == (i, j) <==> Straight(s, i, j) < Reverse(s, i, j)
  {
    if Straight(s, i, j) < Reverse(s, i, j) then (i, j) else (j, i)
  }

  predicate Square(t: seq<seq<nat>>) {
    forall i :: 0 <= i < |t| ==> |t[i]| == |t|
  }

  /** The first n rows of the score table. */
  function ScoreRows(s: seq<Option<string>>, n: nat): (t: seq<seq<nat>>)
    requires n <= |s|
    ensures |t| == n && forall i :: 0 <= i < n ==> |t[i]| == |s|
  {
    if n == 0 then [] else ScoreRows(s, n - 1) + [seq(|s|, j => Score(s, n - 1, j))]
  }

  /** The score of every ordered pair, as a square table indexed [i][j]. */
  function Scores(s: seq<Option<string>>): (t: seq<seq<nat>>)
    ensures Square(t) && |t| == |s|
  {
    ScoreRows(s, |s|)
  }

  lemma {:induction false} ScoreRowsAt(s: seq<Option<string>>, n: nat, i: nat, j: nat)
    requires n <= |s| && i < n && j < |s|
    ensures ScoreRows(s, n)[i][j] == Score(s, i, j)
  {
    var t := ScoreRows(s, n);
    assert t == ScoreRows(s, n - 1) + [seq(|s|, j => Score(s, n - 1, j))];
    if i < n - 1 {
      assert t[i] == ScoreRows(s, n - 1)[i];
      ScoreRowsAt(s, n - 1, i, j);
    } else {
      assert t[i] == seq(|s|, j => Score(s, n - 1, j));
    }
  }

  /** Entry (i, j) of the table is the score of the pair (i, j). */
  lemma ScoreAt(s: seq<Option<string>>, i: nat, j: nat)
    requires i < |s| && j < |s|
    ensures Scores(s)[i][j] == Score(s, i, j)
  {
    ScoreRowsAt(s, |s|, i, j);
  }

  /** The largest overlap over all ordered pairs of distinct non-null fragments. */
  function MaxScore(s: seq<Option<string>>): nat {
    TableMax(Scores(s), |s|)
  }

  /** The pair (a, b) comes before (i, j) in i-outer, j-inner order. */
  predicate Before(a: int, b: int, i: int, j: int) {
    a < i || (a == i && b < j)
  }

  /** The largest entry t[i][b] with b < j. */
  function RowMax(t: seq<seq<nat>>, i: nat, j: nat): nat
    requires Square(t) && i < |t| && j <= |t|
  {
    if j == 0 then 0 else Max(RowMax(t, i, j - 1), t[i][j - 1])
  }

  /** The largest entry t[a][b] with a < i. */
  function TableMax(t: seq<seq<nat>>, i: nat): nat
    requires Square(t) && i <= |t|
  {
    if i == 0 then 0 else Max(TableMax(t, i - 1), RowMax(t, i - 1, |t|))
  }

  /** RowMax bounds the first j entries of row i and, when positive, is one of them. */
  lemma {:induction false} RowMaxBounds(t: seq<seq<nat>>, i: nat, j: nat)
    requires Square(t) && i < |t| && j <= |t|
    ensures forall b :: 0 <= b < j ==> t[i][b] <= RowMax(t, i, j)
    ensures RowMax(t, i, j) > 0 ==> exists b :: 0 <= b < j && t[i][b] == RowMax(t, i, j)
  {
    if j > 0 {
      RowMaxBounds(t, i, j - 1);
    }
  }

  /** TableMax bounds the first i rows and, when positive, is one of their entries. */
  lemma {:induction false} TableMaxBounds(t: seq<seq<nat>>, i: nat)
    requires Square(t) && i <= |t|
    ensures forall a, b :: 0 <= a < i && 0 <= b < |t| ==> t[a][b] <= TableMax(t, i)
    ensures TableMax(t, i) > 0 ==> exists a, b :: 0 <= a < i && 0 <= b < |t| && t[a][b] == TableMax(t, i)
  {
    if i > 0 {
      TableMaxBounds(t, i - 1);
      RowMaxBounds(t, i - 1, |t|);
    }
  }

  /** The first position at or after (i, j), in i-outer, j-inner order, whose entry is m. */
  function FirstFrom(t: seq<seq<nat>>, m: nat, i: nat, j: nat): (r: Option<(int, int)>)
    requires Square(t) && i <= |t| && j <= |t|
    decreases |t| - i, |t| - j
    ensures r.Some? ==> 0 <= r.value.0 < |t| && 0 <= r.value.1 < |t|
                        && t[r.value.0][r.value.1] == m && !Before(r.value.0, r.value.1, i, j)
  {
    if i == |t| then None
    else if j == |t| then FirstFrom(t, m, i + 1, 0)
    else if t[i][j] == m then Some((i, j))
    else FirstFrom(t, m, i, j + 1)
  }

  /** If (i, j) is the first position holding m, the scan from any earlier (a, b) finds it. */
  lemma {:induction false} FirstFromReaches(t: seq<seq<nat>>, m: nat, a: nat, b: nat, i: nat, j: nat)
    requires Square(t) && i < |t| && j < |t| && a <= i && b <= |t| && (a < i || b <= j)
    requires forall x, y :: 0 <= x < |t| && 0 <= y < |t| && Before(x, y, i, j) ==> t[x][y] < m
    requires t[i][j] == m
    ensures FirstFrom(t, m, a, b) == Some((i, j))
    decreases |t| - a, |t| - b
  {
    if b == |t| {
      FirstFromReaches(t, m, a + 1, 0, i, j);
    } else if a == i && b == j {
    } else {
      assert Before(a, b, i, j);
      FirstFromReaches(t, m, a, b + 1, i, j);
    }
  }

  /** Some position at or before (i, j) holds the maximum, with every earlier entry below it. */
  lemma {:induction false} FirstMaximal(t: seq<seq<nat>>, i: nat, j: nat) returns (i0: nat, j0: nat)
    requires Square(t) && i < |t| && j < |t| && t[i][j] == TableMax(t, |t|)
    ensures i0 < |t| && j0 < |t| && t[i0][j0] == t[i][j]
    ensures forall x, y :: 0 <= x < |t| && 0 <= y < |t| && Before(x, y, i0, j0) ==> t[x][y] < t[i][j]
    decreases i, j
  {
    TableMaxBounds(t, |t|);
    var m := t[i][j];
    if exists x, y :: 0 <= x < |t| && 0 <= y < |t| && Before(x, y, i, j) && t[x][y] == m {
      var x, y :| 0 <= x < |t| && 0 <= y < |t| && Before(x, y, i, j) && t[x][y] == m;
      i0, j0 := FirstMaximal(t, x, y);
    } else {
      i0, j0 := i, j;
    }
  }

  /** The scan for the maximum succeeds whenever the maximum is positive. */
  lemma FirstFromFindsMax(t: seq<seq<nat>>)
    requires Square(t) && TableMax(t, |t|) > 0
    ensures FirstFrom(t, TableMax(t, |t|), 0, 0).Some?
  {
    TableMaxBounds(t, |t|);
    var i, j :| 0 <= i < |t| && 0 <= j < |t| && t[i][j] == TableMax(t, |t|);
    var i0, j0 := FirstMaximal(t, i, j);
    FirstFromReaches(t, TableMax(t, |t|), 0, 0, i0, j0);
  }

  /** Moving the running maximum over entry (i, j): it absorbs the entry, and
      an entry strictly above everything before it is the first place that
      value occurs. */
  lemma TableStep(t: seq<seq<nat>>, i: nat, j: nat, m: nat)
    requires Square(t) && i < |t| && j < |t|
    requires m == Max(TableMax(t, i), RowMax(t, i, j))
    ensures Max(TableMax(t, i), RowMax(t, i, j + 1)) == Max(m, t[i][j])
    ensures m < t[i][j] ==> FirstFrom(t, t[i][j], 0, 0) == Some((i, j))
  {
    if m < t[i][j] {
      TableMaxBounds(t, i);
      RowMaxBounds(t, i, j);
      assert forall x, y :: 0 <= x < |t| && 0 <= y < |t| && Before(x, y, i, j) ==> t[x][y] <= m;
      FirstFromReaches(t, t[i][j], 0, 0, i, j);
    }
  }

  /** Reference definition of the search: the oriented first pair that reaches
      the largest overlap, or the sentinel (0, 0) when nothing beats 0. */
  function SelectPair(s: seq<Option<string>>): (r: (int, int))
    ensures MaxScore(s) == 0 ==> r == (0, 0)
    ensures MaxScore(s) > 0 ==> Candidate(s, r.0, r.1)
                                && |HeadOverlap(s[r.0].value, s[r.1].value)| == MaxScore(s)
    ensures |s| > 0 ==> 0 <= r.0 < |s| && 0 <= r.1 < |s|
  {
    var t := Scores(s);
    var m := TableMax(t, |t|);
    if m == 0 then (0, 0)
    else
      FirstFromFindsMax(t);
      match FirstFrom(t, m, 0, 0)
      case Some(p) => ScoreAt(s, p.0, p.1); Oriented(s, p.0, p.1)
      case None => (0, 0)
  }

  /** No position strictly between (a, b) and the position FirstFrom finds holds m. */
  lemma {:induction false} FirstFromFirst(t: seq<seq<nat>>, m: nat, a: nat, b: nat)
    requires Square(t) && a <= |t| && b <= |t|
    requires FirstFrom(t, m, a, b).Some?
    ensures var p := FirstFrom(t, m, a, b).value;
            forall x, y :: 0 <= x < |t| && 0 <= y < |t| && !Before(x, y, a, b) && Before(x, y, p.0, p.1) ==> t[x][y] != m
    decreases |t| - a, |t| - b
  {
    if a == |t| {
    } else if b == |t| {
      FirstFromFirst(t, m, a + 1, 0);
    } else if t[a][b] != m {
      FirstFromFirst(t, m, a, b + 1);
    }
  }

  /** MaxScore is an upper bound on the score of every candidate pair and,
      when positive, is reached by one. */
  lemma MaxScoreBounds(s: seq<Option<string>>)
    ensures forall i, j :: Candidate(s, i, j) ==> Score(s, i, j) <= MaxScore(s)
    ensures MaxScore(s) > 0 ==> exists i, j :: Candidate(s, i, j) && Score(s, i, j) == MaxScore(s)
  {
    var t := Scores(s);
    TableMaxBounds(t, |t|);
    forall i, j | 0 <= i < |s| && 0 <= j < |s|
      ensures t[i][j] == Score(s, i, j)
    {
      ScoreAt(s, i, j);
    }
  }

  /** A pair's score is 0 exactly when neither fragment's first character
      occurs in the other (an empty fragment has no head to place). */
  lemma ScoreZero(s: seq<Option<string>>, i: int, j: int)
    requires Candidate(s, i, j)
    ensures Score(s, i, j) == 0 <==>
              (|s[j].value| == 0 || s[j].value[0] !in s[i].value)
              && (|s[i].value| == 0 || s[i].value[0] !in s[j].value)
  {
    HeadOverlapSpec(s[j].value, s[i].value);
    HeadOverlapSpec(s[i].value, s[j].value);
  }

  /** The sentinel (0, 0) comes back exactly when no candidate pair overlaps;
      in particular when fewer than two fragments are non-null. */
  lemma SentinelWhenNoOverlap(s: seq<Option<string>>)
    ensures MaxScore(s) == 0 <==> forall i, j :: Candidate(s, i, j) ==> Score(s, i, j) == 0
    ensures (forall i, j :: !Candidate(s, i, j)) ==> SelectPair(s) == (0, 0)
  {
    MaxScoreBounds(s);
  }

  /** The tie-break of the scan: the pair selected is the orientation of the
      first candidate (i, j), in i-outer, j-inner order, reaching the maximum;
      every candidate before it scores strictly less. */
  lemma SelectPairIsFirstMaximal(s: seq<Option<string>>) returns (i: int, j: int)
    requires MaxScore(s) > 0
    ensures Candidate(s, i, j) && Score(s, i, j) == MaxScore(s)
    ensures SelectPair(s) == Oriented(s, i, j)
    ensures forall x, y :: Candidate(s, x, y) && Before(x, y, i, j) ==> Score(s, x, y) < MaxScore(s)
  {
    var t := Scores(s);
    var m := MaxScore(s);
    FirstFromFindsMax(t);
    var p := FirstFrom(t, m, 0, 0).value;
    FirstFromFirst(t, m, 0, 0);
    TableMaxBounds(t, |t|);
    i, j := p.0, p.1;
    ScoreAt(s, i, j);
    forall x, y | Candidate(s, x, y) && Before(x, y, i, j)
      ensures Score(s, x, y) < m
    {
      ScoreAt(s, x, y);
    }
  }

  /** A pair scores the same in either order: the straight case of one
      order is the reverse case of the other. */
  lemma ScoreSymmetric(s: seq<Option<string>>, i: int, j: int)
    ensures Score(s, i, j) == Score(s, j, i)
  {
  }

  /** A bound on the scores of the pairs (i, j) with i < j bounds every
      candidate pair, by symmetry. */
  lemma UpperPairsBoundAll(s: seq<Option<string>>, m: nat)
    requires forall i, j :: 0 <= i < j < |s| ==> Score(s, i, j) <= m
    ensures forall i, j :: Candidate(s, i, j) ==> Score(s, i, j) <= m
  {
    forall i, j | Candidate(s, i, j)
      ensures Score(s, i, j) <= m
    {
      ScoreSymmetric(s, i, j);
    }
  }

  /** When the very first candidate position (0, 1) reaches an overlap that
      no pair (i, j) with i < j beats, the scan records that pair, oriented:
      by symmetry no pair in the other order beats it either. */
  lemma SelectFirstPair(s: seq<Option<string>>)
    requires Candidate(s, 0, 1) && Score(s, 0, 1) > 0
    requires forall i, j :: 0 <= i < j < |s| ==> Score(s, i, j) <= Score(s, 0, 1)
    ensures SelectPair(s) == Oriented(s, 0, 1)
  {
    UpperPairsBoundAll(s, Score(s, 0, 1));
    MaxScoreBounds(s);
    var i, j := SelectPairIsFirstMaximal(s);
    assert !Before(0, 1, i, j);
    assert i == 0 && j == 1;
  }

  /** The running state of the scan: m is the best overlap so far, (g0, g1)
      the recorded [from, into], and (fi, fj) the first position holding m. */
  predicate Tracks(s: seq<Option<string>>, t: seq<seq<nat>>, m: nat, g0: int, g1: int, fi: int, fj: int) {
    Square(t) && |t| == |s|
    && (m == 0 ==> g0 == 0 && g1 == 0)
    && (m > 0 ==> Candidate(s, fi, fj) && FirstFrom(t, m, 0, 0) == Some((fi, fj)) && (g0, g1) == Oriented(s, fi, fj))
  }

  /** The state of the outer loop after rows 0 .. i-1: m is the maximum
      over those rows. */
  predicate Visited(s: seq<Option<string>>, i: nat, m: nat, g: (int, int), fi: int, fj: int) {
    i <= |s| && m == TableMax(Scores(s), i) && Tracks(s, Scores(s), m, g.0, g.1, fi, fj)
  }

  /** The state of the inner loop after partners 0 .. j-1 of row i:
      m is the maximum over all earlier rows and those partners. */
  predicate Scanned(s: seq<Option<string>>, i: nat, j: nat, m: nat, g: (int, int), fi: int, fj: int) {
    i < |s| && j <= |s|
    && m == Max(TableMax(Scores(s), i), RowMax(Scores(s), i, j))
    && Tracks(s, Scores(s), m, g.0, g.1, fi, fj)
  }

  /** The state change the two guarded updates of the inner loop make at a
      candidate pair, given the straight and the reverse overlap lengths:
      the new maximum and the new [from, into]. */
  function Update(m: nat, g0: int, g1: int, i: int, j: int, straight: nat, reverse: nat): (nat, int, int) {
    var reverseCase := straight < reverse;
    if m < straight && !reverseCase then (straight, j, i)
    else if m < reverse && reverseCase then (reverse, i, j)
    else (m, g0, g1)
  }

  /** One step of the inner loop at a candidate pair (i, j): a strictly larger
      score takes over with its oriented pair and position, anything else
      leaves the state as it is. */
  lemma Step(s: seq<Option<string>>, t: seq<seq<nat>>, i: nat, j: nat,
             m: nat, g0: int, g1: int, fi: int, fj: int, m': nat, g0': int, g1': int, fi': int, fj': int)
    requires Tracks(s, t, m, g0, g1, fi, fj) && Candidate(s, i, j) && t[i][j] == Score(s, i, j)
    requires m == Max(TableMax(t, i), RowMax(t, i, j))
    requires (m', g0', g1') == Update(m, g0, g1, i, j, Straight(s, i, j), Reverse(s, i, j))
    requires (fi', fj') == if m < m' then (i, j) else (fi, fj)
    ensures m' == Max(TableMax(t, i), RowMax(t, i, j + 1))
    ensures Tracks(s, t, m', g0', g1', fi', fj')
  {
    TableStep(t, i, j, m);
  }

  /** A skipped pair (a null fragment or i == j) leaves the running maximum as it is. */
  lemma Skip(s: seq<Option<string>>, t: seq<seq<nat>>, i: nat, j: nat, m: nat)
    requires Square(t) && |t| == |s| && i < |s| && j < |s| && !Candidate(s, i, j) && t[i][j] == Score(s, i, j)
    requires m == Max(TableMax(t, i), RowMax(t, i, j))
    ensures m == Max(TableMax(t, i), RowMax(t, i, j + 1))
  {
    TableStep(t, i, j, m);
  }

  /** A row whose fragment is null contributes nothing. */
  lemma NullRow(s: seq<Option<string>>, i: nat)
    requires i < |s| && s[i].None?
    ensures RowMax(Scores(s), i, |s|) == 0
  {
    forall b | 0 <= b < |s|
      ensures Scores(s)[i][b] == 0
    {
      ScoreAt(s, i, b);
    }
    RowMaxBounds(Scores(s), i, |s|);
  }

  /** The body of the inner loop of NextMaximallyOverlappingPair.search at a
      candidate pair: both head overlaps, then the two guarded updates of the
      running maximum and of greatestOverlapIndexes, which holds [from, into]. */
  method ComparePair(currFragment: string, nextFragment: string, i: int, j: int,
                     currMaximalOverlap: nat, greatestOverlapIndexes: array<int>) returns (newMaximalOverlap: nat)
    requires greatestOverlapIndexes.Length == 2
    modifies greatestOverlapIndexes
    ensures (newMaximalOverlap, greatestOverlapIndexes[0], greatestOverlapIndexes[1])
         == Update(currMaximalOverlap, old(greatestOverlapIndexes[0]), old(greatestOverlapIndexes[1]), i, j,
                   |HeadOverlap(nextFragment, currFragment)|, |HeadOverlap(currFragment, nextFragment)|)
  {
    newMaximalOverlap := currMaximalOverlap;
    // the straight case: the head of the j-th fragment inside the i-th
    var headPositions := HeadIndexesGreedy(nextFragment, currFragment);
    // the reverse case: the head of the i-th fragment inside the j-th
    var reverseHeadPositions := HeadIndexesGreedy(currFragment, nextFragment);
    var reverseCase := |headPositions| < |reverseHeadPositions|;
    if newMaximalOverlap < |headPositions| && !reverseCase {
      greatestOverlapIndexes[1] := i;
      greatestOverlapIndexes[0] := j;
      newMaximalOverlap := |headPositions|;
    }
    if newMaximalOverlap < |reverseHeadPositions| && reverseCase {
      greatestOverlapIndexes[0] := i;
      greatestOverlapIndexes[1] := j;
      newMaximalOverlap := |reverseHeadPositions|;
    }
  }

  /** One pass of the inner loop body of NextMaximallyOverlappingPair.search:
      partner j is skipped when it is null or i itself, and compared otherwise. */
  method VisitPartner(strings: seq<Option<string>>, i: nat, j: nat,
                      currMaximalOverlap: nat, greatestOverlapIndexes: array<int>, ghost fi: nat, ghost fj: nat)
    returns (newMaximalOverlap: nat, ghost fi': nat, ghost fj': nat)
    requires greatestOverlapIndexes.Length == 2
    requires Scanned(strings, i, j, currMaximalOverlap, (greatestOverlapIndexes[0], greatestOverlapIndexes[1]), fi, fj)
    requires j < |strings| && strings[i].Some?
    modifies greatestOverlapIndexes
    ensures Scanned(strings, i, j + 1, newMaximalOverlap, (greatestOverlapIndexes[0], greatestOverlapIndexes[1]), fi', fj')
  {
    ghost var t := Scores(strings);
    ScoreAt(strings, i, j);
    if strings[j].None? || i == j {
      Skip(strings, t, i, j, currMaximalOverlap);
      return currMaximalOverlap, fi, fj;
    }
    ghost var g0, g1 := greatestOverlapIndexes[0], greatestOverlapIndexes[1];
    newMaximalOverlap := ComparePair(strings[i].value, strings[j].value, i, j, currMaximalOverlap, greatestOverlapIndexes);
    fi', fj' := fi, fj;
    if currMaximalOverlap < newMaximalOverlap {
      fi', fj' := i, j;
    }
    Step(strings, t, i, j, currMaximalOverlap, g0, g1, fi, fj,
         newMaximalOverlap, greatestOverlapIndexes[0], greatestOverlapIndexes[1], fi', fj');
  }

  /** The inner loop of NextMaximallyOverlappingPair.search for the non-null
      fragment at i: every partner j in turn. */
  method ScanPartners(strings: seq<Option<string>>, i: nat,
                      currMaximalOverlap: nat, greatestOverlapIndexes: array<int>, ghost fi: nat, ghost fj: nat)
    returns (newMaximalOverlap: nat, ghost fi': nat, ghost fj': nat)
    requires greatestOverlapIndexes.Length == 2
    requires Visited(strings, i, currMaximalOverlap, (greatestOverlapIndexes[0], greatestOverlapIndexes[1]), fi, fj)
    requires i < |strings| && strings[i].Some?
    modifies greatestOverlapIndexes
    ensures Visited(strings, i + 1, newMaximalOverlap, (greatestOverlapIndexes[0], greatestOverlapIndexes[1]), fi', fj')
  {
    newMaximalOverlap, fi', fj' := currMaximalOverlap, fi, fj;
    for j := 0 to |strings|
      invariant Scanned(strings, i, j, newMaximalOverlap, (greatestOverlapIndexes[0], greatestOverlapIndexes[1]), fi', fj')
    {
      newMaximalOverlap, fi', fj' := VisitPartner(strings, i, j, newMaximalOverlap, greatestOverlapIndexes, fi', fj');
    }
  }

  /** NextMaximallyOverlappingPair.search: the nested scan with a running
      maximum that is replaced only by a strictly greater overlap. The input
      is a sequence, so it is never written. */
  method NextMaximallyOverlappingPair(strings: seq<Option<string>>) returns (greatest: seq<int>)
    ensures |greatest| == 2 && (greatest[0], greatest[1]) == SelectPair(strings)
  {
    var currMaximalOverlap := 0;
    // Java zero-initialises the new int[2]
    var greatestOverlapIndexes := new int[2](_ => 0);
    ghost var fi: nat, fj: nat := 0, 0;
    for i := 0 to |strings|
      invariant Visited(strings, i, currMaximalOverlap, (greatestOverlapIndexes[0], greatestOverlapIndexes[1]), fi, fj)
    {
      if strings[i].None? {
        NullRow(strings, i);
        continue;
      }
      currMaximalOverlap, fi, fj := ScanPartners(strings, i, currMaximalOverlap, greatestOverlapIndexes, fi, fj);
    }
    greatest := greatestOverlapIndexes[..];
  }
}
