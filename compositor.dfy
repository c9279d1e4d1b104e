/** DocumentCompositor: the reassembly driver. It holds the fragments as a
    mutable list, merges the pair the search picks until one fragment is
    left, and concatenates what remains. The list is an object shared by
    reference: the backup field aliases it rather than copying it. */
module Compositor {
  import opened Wrappers
  import opened Search
  import opened Merge

  /** The list without its null entries, in their original order. */
  function WithoutNulls(d: seq<Option<string>>): (r: seq<Option<string>>)
    ensures |r| <= |d|
    ensures forall k :: 0 <= k < |r| ==> r[k].Some?
  {
    if |d| == 0 then [] else (if d[0].Some? then [d[0]] else []) + WithoutNulls(d[1..])
  }

  /** Filtering distributes over concatenation, so it keeps the relative
      order of the non-null entries. */
  lemma {:induction false} WithoutNullsAppend(a: seq<Option<string>>, b: seq<Option<string>>)
    ensures WithoutNulls(a + b) == WithoutNulls(a) + WithoutNulls(b)
  {
    if |a| > 0 {
      assert (a + b)[1..] == a[1..] + b;
      WithoutNullsAppend(a[1..], b);
    } else {
      assert a + b == b;
    }
  }

  /** Every non-null entry is kept as often as it occurs. */
  lemma {:induction false} WithoutNullsKeeps(d: seq<Option<string>>)
    ensures forall x: Option<string> :: x.Some? ==> multiset(WithoutNulls(d))[x] == multiset(d)[x]
  {
    if |d| > 0 {
      WithoutNullsKeeps(d[1..]);
      var head := if d[0].Some? then [d[0]] else [];
      assert d == [d[0]] + d[1..];
      assert WithoutNulls(d) == head + WithoutNulls(d[1..]);
      assert multiset(d) == multiset{d[0]} + multiset(d[1..]);
      assert multiset(WithoutNulls(d)) == multiset(head) + multiset(WithoutNulls(d[1..]));
    }
  }

  /** A list with no nulls is left as it is. */
  lemma {:induction false} WithoutNullsNullFree(d: seq<Option<string>>)
    requires forall k :: 0 <= k < |d| ==> d[k].Some?
    ensures WithoutNulls(d) == d
  {
    if |d| > 0 {
      WithoutNullsNullFree(d[1..]);
      assert d == [d[0]] + d[1..];
    }
  }

  /** The non-null entries concatenated in order, with no separator. */
  function Concat(d: seq<Option<string>>): string {
    if |d| == 0 then []
    else Concat(d[..|d| - 1]) + (if d[|d| - 1].Some? then d[|d| - 1].value else [])
  }

  lemma {:induction false} ConcatAppend(a: seq<Option<string>>, b: seq<Option<string>>)
    ensures Concat(a + b) == Concat(a) + Concat(b)
  {
    if |b| == 0 {
      assert a + b == a;
    } else {
      assert (a + b)[..|a + b| - 1] == a + b[..|b| - 1];
      ConcatAppend(a, b[..|b| - 1]);
    }
  }

  /** Null entries contribute nothing to the text. */
  lemma {:induction false} ConcatSkipsNulls(d: seq<Option<string>>)
    ensures Concat(WithoutNulls(d)) == Concat(d)
  {
    if |d| > 0 {
      var head := if d[0].Some? then [d[0]] else [];
      assert d == [d[0]] + d[1..];
      ConcatAppend([d[0]], d[1..]);
      ConcatAppend(head, WithoutNulls(d[1..]));
      ConcatSkipsNulls(d[1..]);
      assert Concat(head) == Concat([d[0]]) by {
        assert head == [] || head == [d[0]];
        assert Concat([]) == [];
      }
    }
  }

  /** DocumentCompositor.merge(i1, i2) on the list d: the thrown exception or
      the boolean result, and the list afterwards. `get(i1)` is evaluated
      first and a null there returns false before `get(i2)` is evaluated. On
      success slot i2 receives the merged string and slot i1 is removed. */
  function MergeAt(d: seq<Option<string>>, i1: int, i2: int): (r: (Result<bool>, seq<Option<string>>))
    ensures r.0 == Err(IndexOutOfBounds) <==> !(0 <= i1 < |d|) || (d[i1].Some? && !(0 <= i2 < |d|))
    ensures r.0 == Ok(false) <==> 0 <= i1 < |d| && (d[i1].None? || (0 <= i2 < |d| && d[i2].None?))
    ensures r.0 == Ok(true) <==> 0 <= i1 < |d| && 0 <= i2 < |d| && d[i1].Some? && d[i2].Some?
    ensures r.0 != Ok(true) ==> r.1 == d
    ensures r.0 == Ok(true) ==> |r.1| == |d| - 1
  {
    if !(0 <= i1 < |d|) then (Err(IndexOutOfBounds), d)
    else if d[i1].None? then (Ok(false), d)
    else if !(0 <= i2 < |d|) then (Err(IndexOutOfBounds), d)
    else if d[i2].None? then (Ok(false), d)
    else
      var written := d[i2 := MergeOverlapPair(d[i1], d[i2])];
      (Ok(true), written[..i1] + written[i1 + 1..])
  }

  /** Removing slot i shifts the later entries down by one. */
  lemma RemoveAt(s: seq<Option<string>>, i: nat)
    requires i < |s|
    ensures |s[..i] + s[i + 1..]| == |s| - 1
    ensures forall k :: 0 <= k < |s| - 1 ==> (s[..i] + s[i + 1..])[k] == if k < i then s[k] else s[k + 1]
  {
  }

  /** A successful merge of two distinct slots: the merged string takes the
      place of slot i2, slot i1 disappears, and every other entry keeps its
      relative order, one place lower when it came after i1. */
  lemma MergeAtShape(d: seq<Option<string>>, i1: nat, i2: nat)
    requires i1 < |d| && i2 < |d| && i1 != i2 && d[i1].Some? && d[i2].Some?
    ensures var d' := MergeAt(d, i1, i2).1;
            && |d'| == |d| - 1
            && d'[if i2 < i1 then i2 else i2 - 1] == MergeOverlapPair(d[i1], d[i2])
            && forall k :: 0 <= k < |d| && k != i1 && k != i2 ==> d'[if k < i1 then k else k - 1] == d[k]
  {
    RemoveAt(d[i2 := MergeOverlapPair(d[i1], d[i2])], i1);
  }

  /** merge(i, i) writes slot i and then removes it: the fragment at i is
      dropped. */
  lemma MergeAtSame(d: seq<Option<string>>, i: nat)
    requires i < |d| && d[i].Some?
    ensures MergeAt(d, i, i) == (Ok(true), d[..i] + d[i + 1..])
  {
    var written := d[i := MergeOverlapPair(d[i], d[i])];
    assert written[..i] == d[..i];
    assert written[i + 1..] == d[i + 1..];
  }

  /** A successful merge keeps a null-free list null-free. */
  lemma MergeAtNullFree(d: seq<Option<string>>, i1: int, i2: int)
    requires forall k :: 0 <= k < |d| ==> d[k].Some?
    requires MergeAt(d, i1, i2).0 == Ok(true)
    ensures forall k :: 0 <= k < |MergeAt(d, i1, i2).1| ==> MergeAt(d, i1, i2).1[k].Some?
  {
    var written := d[i2 := MergeOverlapPair(d[i1], d[i2])];
    assert forall k :: 0 <= k < |written| ==> written[k].Some?;
  }

  /** The tokens of the shipped search never make merge throw: they are
      always two indexes into a non-empty list. */
  lemma StepNeverThrows(d: seq<Option<string>>)
    requires |d| > 0
    ensures !MergeAt(d, SelectPair(d).0, SelectPair(d).1).0.Err?
  {
  }

  /** recursiveMerge on the list d with the shipped strategies: search, merge
      the pair found, and go on until the list has at most one entry or a
      merge returns false. */
  function Reassemble(d: seq<Option<string>>): (r: seq<Option<string>>)
    ensures |r| <= |d|
    decreases |d|
  {
    if |d| <= 1 then d
    else
      var tokens := SelectPair(d);
      var step := MergeAt(d, tokens.0, tokens.1);
      if step.0 == Ok(true) then Reassemble(step.1) else d
  }

  /** On a list without nulls the reassembly runs to the end: at most one
      fragment is left, and it is not null. */
  lemma {:induction false} ReassembleNullFree(d: seq<Option<string>>)
    requires forall k :: 0 <= k < |d| ==> d[k].Some?
    ensures |Reassemble(d)| <= 1
    ensures forall k :: 0 <= k < |Reassemble(d)| ==> Reassemble(d)[k].Some?
    decreases |d|
  {
    if |d| > 1 {
      var tokens := SelectPair(d);
      var step := MergeAt(d, tokens.0, tokens.1);
      assert step.0 == Ok(true);
      MergeAtNullFree(d, tokens.0, tokens.1);
      ReassembleNullFree(step.1);
    }
  }

  /** When no two fragments overlap, the sentinel (0, 0) makes the step drop
      the first fragment and carry on with the rest. */
  lemma StallDropsFirst(d: seq<Option<string>>)
    requires |d| > 1 && d[0].Some? && MaxScore(d) == 0
    ensures SelectPair(d) == (0, 0)
    ensures Reassemble(d) == Reassemble(d[1..])
  {
    MergeAtSame(d, 0);
    assert d[..0] + d[1..] == d[1..];
  }

  /** When no two fragments overlap and the first entry is null, the
      reassembly stops with the list unchanged. */
  lemma StallAtNullStops(d: seq<Option<string>>)
    requires |d| > 1 && d[0].None? && MaxScore(d) == 0
    ensures Reassemble(d) == d
  {
  }

  /** java.util.ArrayList<String> as the compositor uses it. */
  class StringList {
    var items: seq<Option<string>>

    constructor (items: seq<Option<string>>)
      ensures this.items == items
    {
      this.items := items;
    }

    /** List.get: the element, or IndexOutOfBoundsException. */
    method Get(index: int) returns (element: Result<Option<string>>)
      ensures 0 <= index < |items| ==> element == Ok(items[index])
      ensures !(0 <= index < |items|) ==> element == Err(IndexOutOfBounds)
    {
      if 0 <= index < |items| {
        element := Ok(items[index]);
      } else {
        element := Err(IndexOutOfBounds);
      }
    }

    /** List.set at an index inside the list. */
    method Set(index: int, element: Option<string>)
      requires 0 <= index < |items|
      modifies this
      ensures items == old(items)[index := element]
    {
      items := items[index := element];
    }

    /** List.remove(int) at an index inside the list. */
    method Remove(index: int)
      requires 0 <= index < |items|
      modifies this
      ensures items == old(items)[..index] + old(items)[index + 1..]
    {
      items := items[..index] + items[index + 1..];
    }

    /** List.removeAll(Collections.singleton(null)). */
    method RemoveAllNulls()
      modifies this
      ensures items == WithoutNulls(old(items))
    {
      items := WithoutNulls(items);
    }
  }

  class DocumentCompositor {
    var document: StringList
    var documentBackup: StringList

    /** The String[] constructor: the array's entries without the nulls;
        the backup is the same list object. */
    constructor FromArray(document: seq<Option<string>>)
      ensures fresh(this.document) && this.documentBackup == this.document
      ensures this.document.items == WithoutNulls(document)
    {
      var documentToList := new StringList(document);
      documentToList.RemoveAllNulls();
      this.document := documentToList;
      this.documentBackup := documentToList;
    }

    /** The List constructor: it copies the caller's list and then removes
        the nulls from the caller's list, not from the copy it keeps. */
    constructor FromList(document: StringList)
      modifies document
      ensures document.items == WithoutNulls(old(document.items))
      ensures fresh(this.document) && this.documentBackup == this.document
      ensures this.document.items == old(document.items)
    {
      var documentCopy := new StringList(document.items);
      document.RemoveAllNulls();
      this.document := documentCopy;
      this.documentBackup := documentCopy;
    }

    /** writeBackup: the backup becomes the very list the document is. */
    method WriteBackup()
      modifies this
      ensures documentBackup == document && document == old(document)
    {
      documentBackup := document;
    }

    /** restoreBackup: the document becomes the list the backup refers to. */
    method RestoreBackup()
      modifies this
      ensures document == old(documentBackup) && documentBackup == old(documentBackup)
    {
      document := documentBackup;
    }

    /** merge(indexOfString1, indexOfString2), with the exception it can throw. */
    method Merge(indexOfString1: int, indexOfString2: int) returns (r: Result<bool>)
      modifies document
      ensures (r, document.items) == MergeAt(old(document.items), indexOfString1, indexOfString2)
    {
      var string1 := document.Get(indexOfString1);
      if string1.Err? {
        return Err(string1.error);
      }
      if string1.value.None? {
        return Ok(false);
      }
      var string2 := document.Get(indexOfString2);
      if string2.Err? {
        return Err(string2.error);
      }
      if string2.value.None? {
        return Ok(false);
      }
      var mergedString := MergeOverlapPair(string1.value, string2.value);
      document.Set(indexOfString2, mergedString);
      document.Remove(indexOfString1);
      return Ok(true);
    }

    /** search: the shipped strategy over a snapshot of the document. */
    method Search() returns (tokens: seq<int>)
      ensures |tokens| == 2 && (tokens[0], tokens[1]) == SelectPair(document.items)
    {
      tokens := NextMaximallyOverlappingPair(document.items);
    }

    /** recursiveMerge, its self-call written as a loop over the shrinking
        document. */
    method RecursiveMerge()
      modifies document
      ensures document.items == Reassemble(old(document.items))
    {
      while 1 < |document.items|
        invariant Reassemble(document.items) == Reassemble(old(document.items))
        decreases |document.items|
      {
        var searchTokens := Search();
        if |searchTokens| < 2 {
          // the IllegalStateException: the shipped search always returns two tokens
          assert false;
        }
        StepNeverThrows(document.items);
        var mergeSuccess := Merge(searchTokens[0], searchTokens[1]);
        if mergeSuccess.Err? {
          assert false;
        }
        if !mergeSuccess.value {
          return;
        }
      }
    }

    /** get: a fresh copy of the document. */
    method Get() returns (copy: StringList)
      ensures fresh(copy) && copy.items == document.items
    {
      copy := new StringList(document.items);
    }

    /** getToString: the non-null fragments appended in order. */
    method GetToString() returns (text: string)
      ensures text == Concat(document.items)
    {
      var stringBuilder: string := [];
      for k := 0 to |document.items|
        invariant stringBuilder == Concat(document.items[..k])
      {
        assert document.items[..k + 1][..k] == document.items[..k];
        var s := document.items[k];
        if s.Some? {
          stringBuilder := stringBuilder + s.value;
        }
      }
      assert document.items[..|document.items|] == document.items;
      text := stringBuilder;
    }
  }

  /** After writeBackup a merge is seen through the backup as well: the two
      fields name one list. */
  method MergeAfterWriteBackup(c: DocumentCompositor, i1: int, i2: int) returns (r: Result<bool>)
    modifies c, c.document
    ensures c.documentBackup == c.document
    ensures (r, c.documentBackup.items) == MergeAt(old(c.document.items), i1, i2)
  {
    c.WriteBackup();
    r := c.Merge(i1, i2);
  }

  /** writeBackup, recursiveMerge, restoreBackup does not roll back: the
      restored document is the reassembled one. */
  method RestoreAfterRecursiveMerge(c: DocumentCompositor)
    modifies c, c.document
    ensures c.document == old(c.document)
    ensures c.document.items == Reassemble(old(c.document.items))
  {
    c.WriteBackup();
    c.RecursiveMerge();
    c.RestoreBackup();
  }
}
