/** The whole comparison of two arrays, and what its script is worth. */
module ArrayDiff {
  import opened EditGraph
  import opened DiffInput
  import opened MiddleSnake
  import opened Comparison
  import opened EditScript

  // ----- Longest common subsequences -----

  /** Pairs of positions before `(x, y)` that match and increase on both sides. */
  ghost predicate IsCommonSubsequence(b: Box, pairs: seq<(int, int)>, x: int, y: int) {
    && (forall i :: 0 <= i < |pairs| ==> pairs[i].0 < x && pairs[i].1 < y && b.Match(pairs[i].0, pairs[i].1))
    && (forall i, j :: 0 <= i < j < |pairs| ==> pairs[i].0 < pairs[j].0 && pairs[i].1 < pairs[j].1)
  }

  /** No common subsequence is longer than the length that the recursion computes. */
  lemma {:induction false} NoLongerSubsequence(b: Box, pairs: seq<(int, int)>, x: nat, y: nat)
    requires IsCommonSubsequence(b, pairs, x, y)
    ensures |pairs| <= LcsLength(b, x, y)
    decreases x + y
  {
    if pairs != [] {
      var last := pairs[|pairs| - 1];
      assert b.Match(last.0, last.1);
      if b.Match(x - 1, y - 1) {
        ShorterSubsequence(b, pairs, x, y);
        NoLongerSubsequence(b, pairs[..|pairs| - 1], x - 1, y - 1);
      } else if last.0 < x - 1 {
        assert IsCommonSubsequence(b, pairs, x - 1, y);
        NoLongerSubsequence(b, pairs, x - 1, y);
      } else {
        assert IsCommonSubsequence(b, pairs, x, y - 1);
        NoLongerSubsequence(b, pairs, x, y - 1);
      }
    }
  }

  lemma ShorterSubsequence(b: Box, pairs: seq<(int, int)>, x: int, y: int)
    requires IsCommonSubsequence(b, pairs, x, y) && pairs != []
    ensures IsCommonSubsequence(b, pairs[..|pairs| - 1], x - 1, y - 1)
  {
    var last := |pairs| - 1;
    assert forall i :: 0 <= i < last ==> pairs[i].0 < pairs[last].0 && pairs[i].1 < pairs[last].1;
  }

  lemma LcsUnfolds(b: Box, x: nat, y: nat)
    ensures x == 0 || y == 0 ==> LcsLength(b, x, y) == 0
    ensures 0 < x && 0 < y ==>
              LcsLength(b, x, y) == if b.Match(x - 1, y - 1) then 1 + LcsLength(b, x - 1, y - 1)
                                    else Max(LcsLength(b, x - 1, y), LcsLength(b, x, y - 1))
  {
  }

  /** And one is as long. */
  lemma {:induction false} LongestSubsequence(b: Box, x: nat, y: nat) returns (pairs: seq<(int, int)>)
    ensures IsCommonSubsequence(b, pairs, x, y)
    ensures |pairs| == LcsLength(b, x, y)
    decreases x + y
  {
    hide LcsLength;
    LcsUnfolds(b, x, y);
    if x == 0 || y == 0 {
      pairs := [];
    } else if b.Match(x - 1, y - 1) {
      pairs := LongestSubsequence(b, x - 1, y - 1);
      pairs := pairs + [(x - 1, y - 1)];
    } else if LcsLength(b, x, y - 1) <= LcsLength(b, x - 1, y) {
      pairs := LongestSubsequence(b, x - 1, y);
    } else {
      pairs := LongestSubsequence(b, x, y - 1);
    }
  }

  // ----- The comparison -----

  function WholeBox(data: Arrays): Box {
    Box(data, 0, 0, data.sizeA, data.sizeB, false)
  }

  /** The script of two arrays: it accounts for all of both, copies a longest common subsequence
      and changes no more than the edit distance. */
  ghost predicate IsDiff(data: Arrays, items: seq<DifferenceItem>) {
    && IsScript(data, items)
    && Alternates(items)
    && EndA(items) == data.sizeA
    && EndB(items) == data.sizeB
    && Copied(items) == LcsLength(WholeBox(data), data.sizeA, data.sizeB)
    && Changed(items) == Distance(WholeBox(data))
  }

  // ----- What the arrays have in common at the start is copied -----

  lemma {:induction false} ItemContinues(data: Arrays, items: seq<DifferenceItem>, k: nat)
    requires IsScript(data, items) && k < |items|
    ensures Continues(data, items[k], EndA(items[..k]), EndB(items[..k]))
    decreases |items|
  {
    hide Continues;
    var before := items[..|items| - 1];
    if k < |before| {
      ItemContinues(data, before, k);
      assert before[..k] == items[..k];
    }
  }

  lemma {:induction false} ChangeIsListed(items: seq<DifferenceItem>, k: nat)
    requires k < |items|
    ensures items[k].kind in {DELETION, MODIFICATION} ==> items[k].rangeInA in ChangedInA(items)
    ensures items[k].kind in {INSERTION, MODIFICATION} ==> items[k].rangeInB in ChangedInB(items)
    decreases |items|
  {
    var before := items[..|items| - 1];
    if k < |before| {
      ChangeIsListed(before, k);
    }
  }

  /** Where a script changes something, one of the two inputs is flagged. */
  lemma ChangeIsFlagged(data: Arrays, items: seq<DifferenceItem>, k: nat)
    requires IsScript(data, items) && k < |items| && items[k].kind != COPY
    ensures Flagged(ChangedInA(items), EndA(items[..k])) || Flagged(ChangedInB(items), EndB(items[..k]))
  {
    ItemContinues(data, items, k);
    ChangeIsListed(items, k);
    hide Run;
    hide ChangedInA;
    hide ChangedInB;
    hide IsScript;
    var item := items[k];
    if item.kind == INSERTION {
      FlaggedByMember(ChangedInB(items), item.rangeInB, EndB(items[..k]));
    } else {
      FlaggedByMember(ChangedInA(items), item.rangeInA, EndA(items[..k]));
    }
  }

  lemma FlaggedByMember(ranges: seq<Range>, r: Range, p: int)
    requires r in ranges && r.Covers(p)
    ensures Flagged(ranges, p)
  {
    var i :| 0 <= i < |ranges| && ranges[i] == r;
    assert ranges[i].Covers(p);
  }

  /** A script that flags nothing in the first `n` elements of either array begins with a copy of
      at least these. */
  lemma StartIsCopied(data: Arrays, items: seq<DifferenceItem>, n: nat)
    requires IsScript(data, items) && Alternates(items)
    requires 0 < n && n <= EndA(items)
    requires forall p :: 0 <= p < n ==> !Flagged(ChangedInA(items), p) && !Flagged(ChangedInB(items), p)
    ensures items != [] && items[0].kind == COPY && n <= items[0].rangeInA.length
  {
    hide Flagged;
    assert items != [];
    ItemContinues(data, items, 0);
    assert items[..0] == [];
    if items[0].kind != COPY {
      ChangeIsFlagged(data, items, 0);
      assert false;
    }
    FirstEnds(data, items);
    if |items| > 1 {
      assert (items[0].kind == COPY) != (items[1].kind == COPY);
      if items[0].rangeInA.length < n {
        ChangeIsFlagged(data, items, 1);
        assert false;
      }
    }
  }

  lemma FirstEnds(data: Arrays, items: seq<DifferenceItem>)
    requires IsScript(data, items) && items != [] && items[0].kind == COPY
    ensures EndA(items[..1]) == EndB(items[..1]) == items[0].rangeInA.length
    ensures |items| == 1 ==> EndA(items) == items[0].rangeInA.length
  {
    ItemContinues(data, items, 0);
    assert items[..1][..0] == [] && items[..1][0] == items[0];
    assert EndA(items[..1]) == EndA(items[..1][..0]) + items[0].rangeInA.length;
    assert EndB(items[..1]) == EndB(items[..1][..0]) + items[0].rangeInB.length;
    if |items| == 1 {
      assert items[..1] == items;
    }
    hide Run;
  }

  /** The script begins with a copy of all that the arrays have in common at the start. */
  ghost predicate CopiesStart(data: Arrays, items: seq<DifferenceItem>) {
    forall n: nat :: 0 < n <= data.sizeA && n <= data.sizeB && Run(data, 0, n, 0, n) ==>
      items != [] && items[0].kind == COPY && n <= items[0].rangeInA.length
  }

  lemma CommonStartIsCopied(data: Arrays, items: seq<DifferenceItem>, loA: nat, hiA: nat, loB: nat, hiB: nat)
    requires IsScript(data, items) && Alternates(items) && EndA(items) == data.sizeA
    requires KeepsEnds(data, 0, loA, hiA, data.sizeA, 0, loB, hiB, data.sizeB, ChangedInA(items), ChangedInB(items))
    ensures CopiesStart(data, items)
  {
    hide IsScript;
    hide Alternates;
    hide Flagged;
    forall n: nat | 0 < n <= data.sizeA && n <= data.sizeB && Run(data, 0, n, 0, n)
      ensures items != [] && items[0].kind == COPY && n <= items[0].rangeInA.length
    {
      assert n <= loA;
      StartIsCopied(data, items, n);
    }
  }

  /** Compares two arrays. With `d` the edit distance, the callback is called at most `12 * d + 3`
      times for each element of A, and at most `4 * d * d` cells are written while searching. */
  method Diff(data: Arrays) returns (items: seq<DifferenceItem>, ghost calls: nat, ghost cells: nat)
    ensures IsDiff(data, items) && CopiesStart(data, items)
    ensures calls <= data.sizeA * (12 * Distance(WholeBox(data)) + 3)
    ensures cells <= 4 * Distance(WholeBox(data)) * Distance(WholeBox(data))
  {
    var dataA := new DiffData(data, data.sizeA);
    var dataB := new DiffData(data, data.sizeB);
    hide Solved;
    hide IsDiff;
    hide WorkFits;
    hide Distance;
    hide Unflagged;
    var MAX := dataA.Length + dataB.Length + 1;
    // One vector for each direction of the search, shared by all boxes.
    var downVector := new int[2 * MAX + 2](_ => 0);
    var upVector := new int[2 * MAX + 2](_ => 0);
    calls, cells := LCS(dataA, 0, dataA.Length, dataB, 0, dataB.Length, downVector, upVector);
    SolvedIsAligned(data, dataA.modified, dataB.modified);
    ghost var loA, hiA, loB, hiB :|
      KeepsEnds(data, 0, loA, hiA, data.sizeA, 0, loB, hiB, data.sizeB, dataA.modified, dataB.modified);
    hide KeepsEnds;
    items := CreateDiffs(dataA, dataB);
    CommonStartIsCopied(data, items, loA, hiA, loB, hiB);
    hide CopiesStart;
    WorkOfWhole(data, calls, cells);
    ScriptIsDiff(data, items, dataA.modified, dataB.modified);
  }

  lemma SolvedIsAligned(data: Arrays, modA: seq<Range>, modB: seq<Range>)
    requires Solved(data, 0, data.sizeA, 0, data.sizeB, modA, modB)
    ensures Aligned(data, Unflagged(modA, 0, data.sizeA), Unflagged(modB, 0, data.sizeB))
  {
    hide Distance;
  }

  lemma WorkOfWhole(data: Arrays, calls: nat, cells: nat)
    requires WorkFits(data, 0, data.sizeA, 0, data.sizeB, calls, cells)
    ensures calls <= data.sizeA * (12 * Distance(WholeBox(data)) + 3)
    ensures cells <= 4 * Distance(WholeBox(data)) * Distance(WholeBox(data))
  {
    hide Distance;
  }

  lemma ScriptIsDiff(data: Arrays, items: seq<DifferenceItem>, modA: seq<Range>, modB: seq<Range>)
    requires IsScript(data, items) && Alternates(items) && EndA(items) == data.sizeA && EndB(items) == data.sizeB
    requires Solved(data, 0, data.sizeA, 0, data.sizeB, modA, modB)
    requires Copied(items) == |Unflagged(modA, 0, data.sizeA)|
    ensures IsDiff(data, items)
  {
    ChangedIsWhatIsNotCopied(data, items);
    CostIsWhatLcsLeaves(WholeBox(data), data.sizeA, data.sizeB);
    assert WholeBox(data) == BoxOf(data, 0, data.sizeA, 0, data.sizeB);
    hide Changed;
    hide Copied;
    hide Cost;
    hide LcsLength;
    hide Unflagged;
    hide Aligned;
    hide IsScript;
  }

  /** Carried out, the script turns A into B, if the callback only equates equal elements. */
  lemma DiffRebuilds<T>(data: Arrays, items: seq<DifferenceItem>, a: seq<T>, b: seq<T>)
    requires IsDiff(data, items) && data.sizeA == |a| && data.sizeB == |b|
    requires forall i, j :: 0 <= i < |a| && 0 <= j < |b| && data.equal(i, j) ==> a[i] == b[j]
    ensures Replay(items, a, b) == b
  {
    ReplayRebuilds(data, items, a, b);
  }

  /** No other script for the same arrays changes fewer elements or copies more of them. */
  lemma DiffIsCheapest(data: Arrays, items: seq<DifferenceItem>, others: seq<DifferenceItem>)
    requires IsDiff(data, items)
    requires IsScript(data, others) && EndA(others) == data.sizeA && EndB(others) == data.sizeB
    ensures Changed(items) <= Changed(others) && Copied(others) <= Copied(items)
  {
    NoCheaperScript(WholeBox(data), others);
    ChangedIsWhatIsNotCopied(data, items);
    ChangedIsWhatIsNotCopied(data, others);
  }

  /** Nor does any common subsequence have more elements than the script copies. */
  lemma DiffCopiesLongest(data: Arrays, items: seq<DifferenceItem>, pairs: seq<(int, int)>)
    requires IsDiff(data, items)
    requires IsCommonSubsequence(WholeBox(data), pairs, data.sizeA, data.sizeB)
    ensures |pairs| <= Copied(items)
  {
    NoLongerSubsequence(WholeBox(data), pairs, data.sizeA, data.sizeB);
  }
}
