# Greedy fragment reassembly, modelled in Dafny

The system rebuilds a text from overlapping fragments (the "bad nieces"
shortest-superstring exercise). Four pieces make up its core:

- **CharsArrayComparator.getHeadIndexesGreedy** is the overlap detector. It
  grows a prefix of one string for as long as the other string still contains
  it somewhere. It then returns the positions of the first occurrence of that
  prefix.
- **NextMaximallyOverlappingPair.search** is the pair selector. It checks every
  ordered pair of distinct non-null fragments in both directions. It returns
  `[from, into]` for the first pair that reaches the largest overlap, and the
  sentinel `[0, 0]` when no pair overlaps.
- **MergeOverlapPair.merge** is the splice. The matched span inside `into` is
  replaced by the whole of `from`. A null `into` gives back `from`, a null
  `from` gives null, and with no overlap `from` comes back and `into` is
  dropped.
- **DocumentCompositor** is the driver. It holds the fragments as a mutable
  list and a backup reference. `merge(i1, i2)` writes the splice into slot `i2`
  and removes slot `i1`. `recursiveMerge` repeats search-then-merge until one
  fragment is left or a merge fails. `getToString` concatenates the fragments.

Modules, one file each:

- `Wrappers` (`wrappers.dfy`) holds `Option`, which stands for Java's null, and
  `Result`, which stands for a thrown exception.
- `Comparator` (`comparator.dfy`) holds `HeadOverlap`, the reference
  definition of the overlap detector. The method `HeadIndexesGreedy` is the
  source's two loops, proved equal to `HeadOverlap`.
- `Search` (`search.dfy`) holds `SelectPair`, a two-pass reference
  definition: the largest score first, then the first pair holding it,
  oriented. The method `NextMaximallyOverlappingPair` is the source's nested
  scan over an `int[2]` array, proved equal to `SelectPair`.
- `Merge` (`merge.dfy`) holds `MergeOverlapPair`, a function, because the
  source method is pure. Its shape lemmas sit beside it.
- `Compositor` (`compositor.dfy`) holds:
  - `MergeAt` and `Reassemble`, which specify merge and recursiveMerge on
    values;
  - the class `StringList`, which stands for `java.util.ArrayList`;
  - the class `DocumentCompositor`, whose `document` and `documentBackup`
    fields refer to `StringList` objects, so the source's aliasing is kept.
- `TestCases` (`cases.dfy`) holds the short examples of the repository's unit
  tests, proved about the model.
- `DraconiaText` and `Draconia` (`draconia.dfy`) hold the "O draconia" search
  test and the end-to-end reassembly test. `DraconiaText` holds the strings
  and the splice identities on them. `Draconia` walks through the three
  rounds of search and merge, and ends with a method that runs the
  compositor object on the four fragments.

Choices of representation:

- Strings are `seq<char>` and Java `int[]` results are `seq<int>`. Java
  strings are sequences of UTF-16 code units, while a Dafny `char` is a
  Unicode scalar value. The two agree on text in the Basic Multilingual Plane,
  which is the only text the model's positions and lengths describe.
- Java integers are unbounded `int`/`nat`. Every index and length here is
  bounded by a string or list length, so 32-bit wrap-around cannot occur.
- The containment test `superString.matches(".*" + head + ".*")` is modelled as
  literal substring containment. That is its meaning for text in the Basic
  Multilingual Plane when the head has no regular-expression metacharacters
  and the haystack has no line terminators.

Behaviours of the code kept even where its comments suggest otherwise:

- **Backups do not copy.** `documentBackup` and `document` end up as the same
  list object, in the constructors and in writeBackup/restoreBackup. So
  restoring after a failed recursive merge does not roll anything back:
  `RestoreAfterRecursiveMerge` proves the restored document is the reassembled
  one.
- **The List constructor filters the caller's list.** It copies the list, then
  removes the nulls from the caller's list instead of from the copy. The
  compositor's own document can therefore still hold nulls.
- **The sentinel drops a fragment.** When no pair overlaps, the search returns
  `[0, 0]` and `merge(0, 0)` writes slot 0 and then removes it. The first
  fragment is silently lost and the loop carries on (`StallDropsFirst`). The
  doc comment says merging goes on until no more merges are possible.
- **Out-of-range indices throw.** `merge` calls `get` before its bounds check,
  so the check at line 91 is never reached with a bad index. An out-of-range
  index raises `IndexOutOfBoundsException`, modelled as `Err(IndexOutOfBounds)`.
- **No overlap returns `from`.** The class comment of MergeOverlapPair says the
  second string comes back. The code and the method comment return `from`; the
  model follows the code.

## Model

| member | source | states |
|---|---|---|
| Comparator.IndexOfFromSpec | utils/comparator/CharsArrayComparator.java:44 | String.indexOf from a start position: -1 exactly when the substring occurs nowhere from there on; otherwise an occurrence with none earlier |
| Comparator.IndexOfSpec | utils/comparator/CharsArrayComparator.java:44 | indexOf gives -1 iff the substring occurs nowhere, otherwise its leftmost occurrence |
| Comparator.ContainsEmpty | utils/comparator/CharsArrayComparator.java:30-35 | the empty head builder is contained in any haystack |
| Comparator.ContainsSingleton | utils/comparator/CharsArrayComparator.java:35 | a one-character head is contained iff that character occurs in the haystack |
| Comparator.ContainsChar | utils/comparator/CharsArrayComparator.java:35 | every character of a contained head occurs in the haystack |
| Comparator.ContainsPrefixClosed | utils/comparator/CharsArrayComparator.java:32-40 | containment is closed under prefixes, which is why greedy growth is sound |
| Comparator.LongestFromSpec | utils/comparator/CharsArrayComparator.java:32-41 | the descending search yields a contained prefix and no longer prefix up to the bound is contained |
| Comparator.HeadOverlap | utils/comparator/CharsArrayComparator.java:23-54 | reference definition of the result; never longer than charSet |
| Comparator.HeadOverlapSpec | utils/comparator/CharsArrayComparator.java:25-52 | the result is a contiguous ascending run p, p+1, ...; the prefix of its length occurs at p and nowhere earlier; no longer prefix occurs at all; it is empty iff charSet is empty or its first character is absent |
| Comparator.HeadOverlapIs | utils/comparator/CharsArrayComparator.java:32-52 | converse: a prefix of length k first occurring at p whose one-longer prefix occurs nowhere gives exactly [p, ..., p+k-1] |
| Comparator.GreedyStopIsLongest | utils/comparator/CharsArrayComparator.java:32-41 | the prefix where greedy growth stops is the globally longest contained prefix |
| Comparator.HeadIndexesGreedy | utils/comparator/CharsArrayComparator.java:23-54 | the greedy loop, the indexOf and the position-filling loop return exactly HeadOverlap |
| Search.Oriented | badnieces/entities/strategies/search/NextMaximallyOverlappingPair.java:65-77 | the recorded [from, into] of a pair is a candidate pair whose overlap equals the pair's score; it is the reverse orientation iff the reverse overlap is strictly longer |
| Search.MaxScoreBounds | badnieces/entities/strategies/search/NextMaximallyOverlappingPair.java:62-77 | the largest score bounds every candidate pair's score and, when positive, some candidate reaches it |
| Search.ScoreZero | badnieces/entities/strategies/search/NextMaximallyOverlappingPair.java:62-64 | a pair scores 0 iff neither fragment's first character occurs in the other |
| Search.SentinelWhenNoOverlap | badnieces/entities/strategies/search/NextMaximallyOverlappingPair.java:45-47 | the largest score is 0 iff every candidate pair scores 0; with no candidate pair the result is [0, 0] |
| Search.SelectPair | badnieces/entities/strategies/search/NextMaximallyOverlappingPair.java:35-81 | reference definition: [0, 0] when nothing beats 0, otherwise two distinct non-null in-range indexes whose head overlap is the largest over all ordered pairs |
| Search.SelectPairIsFirstMaximal | badnieces/entities/strategies/search/NextMaximallyOverlappingPair.java:65-77 | tie-break: the result is the orientation of the first maximal pair in i-outer, j-inner order; every earlier pair scores strictly less |
| Search.ScoreSymmetric | badnieces/entities/strategies/search/NextMaximallyOverlappingPair.java:62-64 | a pair scores the same in either order, since one order's straight overlap is the other's reverse overlap |
| Search.UpperPairsBoundAll | badnieces/entities/strategies/search/NextMaximallyOverlappingPair.java:55-77 | a bound on the scores of the pairs (i, j) with i < j bounds every candidate pair |
| Search.SelectFirstPair | badnieces/entities/strategies/search/NextMaximallyOverlappingPair.java:65-77 | when pair (0, 1) overlaps and no pair with i < j beats it, the search records (0, 1) in its winning orientation |
| Search.Step | badnieces/entities/strategies/search/NextMaximallyOverlappingPair.java:65-77 | one comparison keeps the running maximum, the recorded pair and the first maximal position in step with the reference |
| Search.Skip | badnieces/entities/strategies/search/NextMaximallyOverlappingPair.java:57-59 | skipping a null partner or i == j leaves the running maximum right |
| Search.NullRow | badnieces/entities/strategies/search/NextMaximallyOverlappingPair.java:51-53 | a null fragment's row contributes nothing |
| Search.ComparePair | badnieces/entities/strategies/search/NextMaximallyOverlappingPair.java:60-77 | both overlaps are computed and the two guarded updates give the new maximum and [from, into] |
| Search.VisitPartner | badnieces/entities/strategies/search/NextMaximallyOverlappingPair.java:55-78 | one pass of the inner loop extends the scanned prefix of row i by one partner |
| Search.ScanPartners | badnieces/entities/strategies/search/NextMaximallyOverlappingPair.java:55-78 | the inner loop over all partners completes row i |
| Search.NextMaximallyOverlappingPair | badnieces/entities/strategies/search/NextMaximallyOverlappingPair.java:35-81 | the nested scan always returns two indexes, and they are exactly SelectPair of the input |
| Merge.MergeOverlapPair | badnieces/entities/strategies/merge/MergeOverlapPair.java:25-42 | the result is null iff from is null; a null into gives back from |
| Merge.NoOverlapKeepsFrom | badnieces/entities/strategies/merge/MergeOverlapPair.java:34-37 | with an empty from or its first character absent from into, the result is from and into is dropped |
| Merge.SpliceShape | badnieces/entities/strategies/merge/MergeOverlapPair.java:34-41 | with an overlap of k characters at p: into[p..p+k] is the head, the result is into[..p] + from + into[p+k..], and its length is the length of into plus that of from, minus k |
| Merge.SpliceAt | badnieces/entities/strategies/merge/MergeOverlapPair.java:34-41 | when the overlap is the run of k positions from p, the merge is into[..p] + from + into[p+k..] |
| Merge.MergeContainsFrom | badnieces/entities/strategies/merge/MergeOverlapPair.java:27-41 | a non-null from always occurs whole in the result |
| Merge.MergeSelf | badnieces/entities/strategies/merge/MergeOverlapPair.java:34-41 | a non-empty fragment merged into itself is itself |
| Compositor.WithoutNulls | badnieces/entities/compositor/document/DocumentCompositor.java:47 | removeAll(singleton(null)) yields no nulls and no more entries |
| Compositor.WithoutNullsAppend | badnieces/entities/compositor/document/DocumentCompositor.java:47 | filtering distributes over concatenation, so order is kept |
| Compositor.WithoutNullsKeeps | badnieces/entities/compositor/document/DocumentCompositor.java:47 | each non-null entry is kept as many times as it occurs |
| Compositor.WithoutNullsNullFree | badnieces/entities/compositor/document/DocumentCompositor.java:47 | a list without nulls is left unchanged |
| Compositor.ConcatAppend | badnieces/entities/compositor/document/DocumentCompositor.java:158-167 | the concatenated text of a + b is the text of a followed by that of b |
| Compositor.ConcatSkipsNulls | badnieces/entities/compositor/document/DocumentCompositor.java:160-165 | null entries contribute nothing to the text |
| Compositor.MergeAt | badnieces/entities/compositor/document/DocumentCompositor.java:87-100 | an out-of-range index at get throws; a null occupant gives false; otherwise true. The list changes only on true, and then it shrinks by exactly one |
| Draconia.MergeSecondIntoFirst | badnieces/entities/compositor/document/DocumentCompositor.java:93-97 | merge(1, 0) on two non-null leading fragments puts the splice in slot 0 and moves the rest up behind it |
| Compositor.RemoveAt | badnieces/entities/compositor/document/DocumentCompositor.java:97 | remove(i) shifts the later entries down by one |
| Compositor.MergeAtShape | badnieces/entities/compositor/document/DocumentCompositor.java:93-97 | for i1 != i2 the merged string lands in i2's slot, shifted down when after i1, and every other entry keeps its relative order |
| Compositor.MergeAtSame | badnieces/entities/compositor/document/DocumentCompositor.java:95-97 | merge(i, i) succeeds and simply drops slot i |
| Compositor.MergeAtNullFree | badnieces/entities/compositor/document/DocumentCompositor.java:93-97 | a successful merge keeps a null-free list null-free |
| Compositor.StepNeverThrows | badnieces/entities/compositor/document/DocumentCompositor.java:128-135 | the shipped search's tokens never make merge throw on a non-empty list |
| Compositor.Reassemble | badnieces/entities/compositor/document/DocumentCompositor.java:122-141 | recursiveMerge on values; it never makes the list longer and terminates because every successful step shrinks it |
| Compositor.ReassembleNullFree | badnieces/entities/compositor/document/DocumentCompositor.java:116-117 | on a null-free list recursiveMerge ends with at most one fragment, and that fragment is not null |
| Compositor.StallDropsFirst | badnieces/entities/compositor/document/DocumentCompositor.java:128-140 | with no overlapping pair the sentinel [0, 0] makes the step drop the first fragment and go on |
| Compositor.StallAtNullStops | badnieces/entities/compositor/document/DocumentCompositor.java:135-139 | with no overlapping pair and a null first entry the merge returns false and the list is kept |
| Compositor.StringList.constructor | badnieces/entities/compositor/document/DocumentCompositor.java:56 | a new list holds the given entries |
| Compositor.StringList.Get | badnieces/entities/compositor/document/DocumentCompositor.java:89 | List.get returns the element in range and throws IndexOutOfBoundsException outside |
| Compositor.StringList.Set | badnieces/entities/compositor/document/DocumentCompositor.java:95 | List.set replaces one slot and nothing else |
| Compositor.StringList.Remove | badnieces/entities/compositor/document/DocumentCompositor.java:97 | List.remove(int) deletes one slot |
| Compositor.StringList.RemoveAllNulls | badnieces/entities/compositor/document/DocumentCompositor.java:47 | the list becomes WithoutNulls of itself, in place |
| Compositor.DocumentCompositor.FromArray | badnieces/entities/compositor/document/DocumentCompositor.java:42-52 | the document is a fresh list of the array's non-null entries in order, and the backup is that same list |
| Compositor.DocumentCompositor.FromList | badnieces/entities/compositor/document/DocumentCompositor.java:54-64 | the document is a fresh copy of the caller's list, nulls included; the caller's list loses its nulls; the backup is the document list |
| Compositor.DocumentCompositor.WriteBackup | badnieces/entities/compositor/document/DocumentCompositor.java:69-71 | the backup becomes the very object the document is |
| Compositor.DocumentCompositor.RestoreBackup | badnieces/entities/compositor/document/DocumentCompositor.java:76-78 | the document becomes the object the backup refers to |
| Compositor.DocumentCompositor.Merge | badnieces/entities/compositor/document/DocumentCompositor.java:87-100 | the outcome and the new list are those of MergeAt on the old list |
| Compositor.DocumentCompositor.Search | badnieces/entities/compositor/document/DocumentCompositor.java:110-113 | two tokens, equal to SelectPair of the document |
| Compositor.DocumentCompositor.RecursiveMerge | badnieces/entities/compositor/document/DocumentCompositor.java:122-141 | the document ends as Reassemble of the old document; the IllegalStateException and the merge exceptions cannot occur |
| Compositor.DocumentCompositor.Get | badnieces/entities/compositor/document/DocumentCompositor.java:148-151 | a fresh list with the document's entries |
| Compositor.DocumentCompositor.GetToString | badnieces/entities/compositor/document/DocumentCompositor.java:158-167 | the text is the non-null entries concatenated in order with no separator |
| Compositor.MergeAfterWriteBackup | badnieces/entities/compositor/document/DocumentCompositor.java:69-100 | after writeBackup a merge is visible through the backup, since both fields name one list |
| Compositor.RestoreAfterRecursiveMerge | badnieces/entities/compositor/document/DocumentCompositor.java:69-141 | writeBackup, recursiveMerge, restoreBackup leaves the reassembled document in place: no rollback |
| TestCases.DocCommentExample | utils/comparator/CharsArrayComparator.java:14 | ("DEFG", "ABCDEF") gives [3, 4, 5] |
| TestCases.HeadAtEnd | utils/comparator/CharsArrayComparatorTest.java:13-17 | ("DEFABC", "123DEF") gives [3, 4, 5] |
| TestCases.WholeHeadAtStart | utils/comparator/CharsArrayComparatorTest.java:20-24 | ("abcabc", "abcab") gives [0, 1, 2, 3, 4] |
| TestCases.InteriorMatch | utils/comparator/CharsArrayComparator.java:16 | ("BCDE", "ABCDEF") overlaps by 4 characters in the middle |
| TestCases.AbsentHead | utils/comparator/CharsArrayComparator.java:15 | ("XYZABC", "DEFABC") gives the empty result |
| TestCases.MergeAppendsTailOverlap | badnieces/entities/strategies/merge/MergeOverlapPairTest.java:16-18 | the head of "ABC123" overlaps "431ABC" at [3, 4, 5] |
| TestCases.MergeAppendsTail | badnieces/entities/strategies/merge/MergeOverlapPairTest.java:16-20 | ("ABC123", "431ABC") merges to "431ABC123" |
| TestCases.MergeSeparatorsOverlap | badnieces/entities/strategies/merge/MergeOverlapPairTest.java:22-24 | the head of ";;;341" overlaps "DEF;;;" at [3, 4, 5] |
| TestCases.MergeSeparators | badnieces/entities/strategies/merge/MergeOverlapPairTest.java:22-26 | (";;;341", "DEF;;;") merges to "DEF;;;341" |
| TestCases.MergeRotationOverlap | badnieces/entities/strategies/merge/MergeOverlapPairTest.java:33-35 | the head of "DEFABC" overlaps "ABCDEF" at [3, 4, 5] |
| TestCases.MergeRotation | badnieces/entities/strategies/merge/MergeOverlapPairTest.java:33-37 | ("DEFABC", "ABCDEF") merges to "ABCDEFABC" |
| TestCases.MergeRotationBackOverlap | badnieces/entities/strategies/merge/MergeOverlapPairTest.java:39-41 | the head of "ABCDEF" overlaps "DEFABC" at [3, 4, 5] |
| TestCases.MergeRotationBack | badnieces/entities/strategies/merge/MergeOverlapPairTest.java:39-43 | ("ABCDEF", "DEFABC") merges to "DEFABCDEF" |
| TestCases.MergeNullsAndEmpty | badnieces/entities/strategies/merge/MergeOverlapPairTest.java:48-65 | ("C", null) gives "C", (null, "C") gives null, ("", "C") gives "" |
| TestCases.SearchTwoFragments | badnieces/entities/strategies/search/NextMaximallyOverlappingPairTest.java:68-74 | ["ABCE", "BCE"] gives [1, 0] |
| TestCases.CaseSensitiveOverlap | badnieces/entities/strategies/search/NextMaximallyOverlappingPairTest.java:78-81 | the head of "bCe" overlaps "Abce" only at [1]; case matters |
| TestCases.SearchCaseSensitive | badnieces/entities/strategies/search/NextMaximallyOverlappingPairTest.java:78-84 | ["Abce", "bCe"] gives [1, 0] |
| TestCases.SearchSeparators | badnieces/entities/strategies/search/NextMaximallyOverlappingPairTest.java:88-94 | ["ABC;;;;", ";;;;B"] gives [1, 0] |
| TestCases.SearchNothingToOverlap | badnieces/entities/strategies/search/NextMaximallyOverlappingPairTest.java:119-140 | ["", ""], [""], [] and [null, null, null] all give the sentinel [0, 0] |
| TestCases.ThreeFragmentsPairScores | badnieces/entities/strategies/search/NextMaximallyOverlappingPairTest.java:56-60 | in ["ABCE", "BCE", "ABCE"] the pair (0, 1) scores 3 and the pair (0, 2) scores 4 |
| TestCases.ThreeFragmentsScores | badnieces/entities/strategies/search/NextMaximallyOverlappingPairTest.java:56-60 | the largest score in ["ABCE", "BCE", "ABCE"] is 4 |
| TestCases.SearchThreeFragments | badnieces/entities/strategies/search/NextMaximallyOverlappingPairTest.java:56-63 | ["ABCE", "BCE", "ABCE"] gives [2, 0] |
| Draconia.OverlapBA | badnieces/entities/strategies/search/NextMaximallyOverlappingPairTest.java:100-107 | the head of "conian devil! Oh la" overlaps "O draconia" at [5, ..., 9] |
| Draconia.OverlapAB | badnieces/entities/strategies/search/NextMaximallyOverlappingPairTest.java:100-107 | the head of "O draconia" overlaps "conian devil! Oh la" only at [14], since the 'O' there is not followed by a space |
| Draconia.OverlapCB | badnieces/entities/strategies/search/NextMaximallyOverlappingPairTest.java:100-107 | the head of "h lame sa" overlaps "conian devil! Oh la" at [15, ..., 18] |
| Draconia.OverlapDC | badnieces/entities/strategies/search/NextMaximallyOverlappingPairTest.java:100-107 | the head of "saint! " overlaps "h lame sa" at [7, 8] |
| Draconia.AbsentAC | badnieces/entities/strategies/search/NextMaximallyOverlappingPairTest.java:100-107 | "O draconia" does not overlap "h lame sa" |
| Draconia.AbsentCA | badnieces/entities/strategies/search/NextMaximallyOverlappingPairTest.java:100-107 | "h lame sa" does not overlap "O draconia" |
| Draconia.AbsentAD | badnieces/entities/strategies/search/NextMaximallyOverlappingPairTest.java:100-107 | "O draconia" does not overlap "saint! " |
| Draconia.AbsentDA | badnieces/entities/strategies/search/NextMaximallyOverlappingPairTest.java:100-107 | "saint! " does not overlap "O draconia" |
| Draconia.AbsentBC | badnieces/entities/strategies/search/NextMaximallyOverlappingPairTest.java:100-107 | "conian devil! Oh la" does not overlap "h lame sa" |
| Draconia.AbsentBD | badnieces/entities/strategies/search/NextMaximallyOverlappingPairTest.java:100-107 | "conian devil! Oh la" does not overlap "saint! " |
| Draconia.AbsentDB | badnieces/entities/strategies/search/NextMaximallyOverlappingPairTest.java:100-107 | "saint! " does not overlap "conian devil! Oh la" |
| Draconia.AbsentCD | badnieces/entities/strategies/search/NextMaximallyOverlappingPairTest.java:100-107 | "h lame sa" does not overlap "saint! " |
| Draconia.FragmentScores | badnieces/entities/strategies/search/NextMaximallyOverlappingPairTest.java:100-107 | on the four fragments the pair (0, 1) scores 5, (1, 2) scores 4, (2, 3) scores 2 and the rest 0; (0, 1) is recorded as [1, 0] |
| Draconia.SearchDraconia | badnieces/entities/strategies/search/NextMaximallyOverlappingPairTest.java:100-107 | the four "O draconia" fragments give [1, 0] |
| Draconia.SpliceBA | badnieces/entities/compositor/document/DocumentCompositorTest.java:17-22 | the first merge gives "O draconian devil! Oh la" |
| Draconia.MergeRound1 | badnieces/entities/compositor/document/DocumentCompositorTest.java:17-22 | merge(1, 0) succeeds and leaves three fragments, the first merged |
| Draconia.OverlapCM1 | badnieces/entities/compositor/document/DocumentCompositorTest.java:17-22 | the head of "h lame sa" overlaps "O draconian devil! Oh la" at [20, ..., 23] |
| Draconia.AbsentM1C | badnieces/entities/compositor/document/DocumentCompositorTest.java:17-22 | "O draconian devil! Oh la" does not overlap "h lame sa" |
| Draconia.AbsentM1D | badnieces/entities/compositor/document/DocumentCompositorTest.java:17-22 | "O draconian devil! Oh la" does not overlap "saint! " |
| Draconia.AbsentDM1 | badnieces/entities/compositor/document/DocumentCompositorTest.java:17-22 | "saint! " does not overlap "O draconian devil! Oh la" |
| Draconia.Round1Scores | badnieces/entities/compositor/document/DocumentCompositorTest.java:17-22 | after the first merge the pair (0, 1) scores 4, (1, 2) scores 2 and (0, 2) scores 0; (0, 1) is recorded as [1, 0] |
| Draconia.SearchRound1 | badnieces/entities/compositor/document/DocumentCompositorTest.java:17-22 | the second search gives [1, 0] |
| Draconia.SpliceCM1 | badnieces/entities/compositor/document/DocumentCompositorTest.java:17-22 | the second merge gives "O draconian devil! Oh lame sa" |
| Draconia.MergeRound2 | badnieces/entities/compositor/document/DocumentCompositorTest.java:17-22 | merge(1, 0) succeeds and leaves two fragments |
| Draconia.OverlapDM2 | badnieces/entities/compositor/document/DocumentCompositorTest.java:17-22 | the head of "saint! " overlaps "O draconian devil! Oh lame sa" at [27, 28] |
| Draconia.AbsentM2D | badnieces/entities/compositor/document/DocumentCompositorTest.java:17-22 | "O draconian devil! Oh lame sa" does not overlap "saint! " |
| Draconia.SearchRound2 | badnieces/entities/compositor/document/DocumentCompositorTest.java:17-22 | the third search gives [1, 0] |
| Draconia.SpliceDM2 | badnieces/entities/compositor/document/DocumentCompositorTest.java:17-22 | the third merge gives "O draconian devil! Oh lame saint! " |
| Draconia.MergeRound3 | badnieces/entities/compositor/document/DocumentCompositorTest.java:17-22 | merge(1, 0) succeeds and leaves the one fragment "O draconian devil! Oh lame saint! " |
| Draconia.ReassembleDraconia | badnieces/entities/compositor/document/DocumentCompositorTest.java:17-21 | recursiveMerge on the four fragments ends with the single fragment "O draconian devil! Oh lame saint! " |
| Draconia.EndToEnd | badnieces/entities/compositor/document/DocumentCompositorTest.java:17-22 | constructing the compositor from the fragments, recursiveMerge and getToString give "O draconian devil! Oh lame saint! " |

## Left out

- Regular-expression semantics of the containment test (CharsArrayComparator.java:35) are left out. The head is pasted into the pattern unescaped, so a head holding `.`, `?`, `(` and the like matches more than literally, or throws `PatternSyntaxException`; `indexOf` can then return -1. The model is literal containment. It agrees with the source for text in the Basic Multilingual Plane, heads without metacharacters and haystacks without line terminators.
- The long Latin tests (NextMaximallyOverlappingPairTest.java:109-114 and DocumentCompositorTest.java:25-29) are left out. They have 25 fragments, too many overlaps to work through by hand in the verifier, and they contain `.`, a regular-expression metacharacter. The "O draconia" tests are modelled in `Draconia`, starting from the four fragments that `split(";")` produces.
- Supplementary characters are left out. Outside the Basic Multilingual Plane a Java `char` is half of a surrogate pair, so the source's positions, lengths and the point where the greedy loop stops count code units. A Dafny `char` is a whole scalar value, so on such text the model's positions differ from the source's.
- Stack depth is left out. Java does not eliminate tail calls, so recursiveMerge (DocumentCompositor.java:140) nests one frame per successful merge and can throw `StackOverflowError` on a long document. The model, `Compositor.DocumentCompositor.RecursiveMerge`, is a loop and always finishes.
- BadNiecesIO, the readers and encoding detection are not part of this model. They are I/O: argument and file checks, logging, exit codes, console output, `String.split(";")`. The model takes their outcome, a list of fragments, as its input.
- The strategy interfaces StringsListSearchStrategy and StringMergeStrategy are not modelled. The compositor is hard-wired to the two shipped strategies, NextMaximallyOverlappingPair and MergeOverlapPair.
- `getStrategyName`, `strategyToName` and `toString` return constant names and are not modelled. The exception message of recursiveMerge is also not modelled.
- Search.NextMaximallyOverlappingPair: the `String[]` argument is a sequence, so the model cannot express another reference writing the array during the search. The source never writes it.
- Compositor.StringList.Set and Compositor.StringList.Remove: these require an index in range rather than modelling the library's exceptions. The compositor calls them only after `get` has succeeded at both indexes, so those exceptions cannot arise.
- Compositor.DocumentCompositor.Search: `document.toArray` is modelled as a snapshot of the list's entries. Its allocation is not modelled.
- The IllegalStateException of recursiveMerge (DocumentCompositor.java:129-133) is not modelled as a result. It is proved unreachable with the shipped search, which always returns two tokens, and marked as a dead branch.
- The bounds check at DocumentCompositor.java:91 has no separate branch, because `get` on line 89 has already thrown for any index it would reject.
- Java's 32-bit `int` is not modelled. Every quantity is an index or a length bounded by a string or list length.
