/** Turning the flagged ranges of the two inputs into an edit script in forward order. */
module EditScript {
  import opened EditGraph
  import opened DiffInput
  import opened Comparison
  import opened Wrappers

  datatype DifferenceType = INSERTION | DELETION | MODIFICATION | COPY

  datatype DifferenceItem = DifferenceItem(kind: DifferenceType, rangeInA: Range, rangeInB: Range)

  // ----- What a script is -----

  /** How many elements of A (of B) the items of a script account for. */
  function EndA(items: seq<DifferenceItem>): nat {
    if items == [] then 0 else EndA(items[..|items| - 1]) + items[|items| - 1].rangeInA.length
  }

  function EndB(items: seq<DifferenceItem>): nat {
    if items == [] then 0 else EndB(items[..|items| - 1]) + items[|items| - 1].rangeInB.length
  }

  /** How many elements a script copies. */
  function Copied(items: seq<DifferenceItem>): nat {
    if items == [] then 0
    else
      var last := items[|items| - 1];
      Copied(items[..|items| - 1]) + if last.kind == COPY then last.rangeInA.length else 0
  }

  /** How many elements an item drops from A or takes from B. */
  function ChangedBy(item: DifferenceItem): nat {
    match item.kind
    case INSERTION => item.rangeInB.length
    case DELETION => item.rangeInA.length
    case MODIFICATION => item.rangeInA.length + item.rangeInB.length
    case COPY => 0
  }

  function Changed(items: seq<DifferenceItem>): nat {
    if items == [] then 0 else Changed(items[..|items| - 1]) + ChangedBy(items[|items| - 1])
  }

  /** An item that continues a script at `posA` and `posB`. A copy is of matching elements; a
      deletion says nothing about B; no item is empty. */
  ghost predicate Continues(data: Arrays, item: DifferenceItem, posA: nat, posB: nat) {
    && item.rangeInA.location == posA
    && (if item.kind == DELETION then item.rangeInB == Range(0, 0) else item.rangeInB.location == posB)
    && (item.kind == INSERTION <==> item.rangeInA.length == 0)
    && (item.kind == DELETION <==> item.rangeInB.length == 0)
    && (item.kind == COPY ==>
          item.rangeInA.length == item.rangeInB.length &&
          Run(data, posA, posA + item.rangeInA.length, posB, posB + item.rangeInB.length))
  }

  /** The ranges of the items lie end to end, from the start of both inputs. */
  ghost predicate IsScript(data: Arrays, items: seq<DifferenceItem>) {
    items == [] ||
    var before := items[..|items| - 1];
    IsScript(data, before) && Continues(data, items[|items| - 1], EndA(before), EndB(before))
  }

  /** Copies and changes take turns. */
  predicate Alternates(items: seq<DifferenceItem>) {
    forall i :: 0 < i < |items| ==> (items[i - 1].kind == COPY) != (items[i].kind == COPY)
  }

  /** The ranges of A (of B) that a script changes, in order. */
  function ChangedInA(items: seq<DifferenceItem>): seq<Range> {
    if items == [] then []
    else
      var item := items[|items| - 1];
      ChangedInA(items[..|items| - 1]) + if item.kind in {DELETION, MODIFICATION} then [item.rangeInA] else []
  }

  function ChangedInB(items: seq<DifferenceItem>): seq<Range> {
    if items == [] then []
    else
      var item := items[|items| - 1];
      ChangedInB(items[..|items| - 1]) + if item.kind in {INSERTION, MODIFICATION} then [item.rangeInB] else []
  }

  /** The elements of a range. */
  function Slice<T>(s: seq<T>, r: Range): seq<T> {
    if r.End() <= |s| then s[r.location..r.End()] else []
  }

  /** What an item contributes: copied elements come from A, inserted and modified ones from B. */
  function Contribution<T>(item: DifferenceItem, a: seq<T>, b: seq<T>): seq<T> {
    match item.kind
    case COPY => Slice(a, item.rangeInA)
    case DELETION => []
    case _ => Slice(b, item.rangeInB)
  }

  /** Carrying a script out. */
  function Replay<T>(items: seq<DifferenceItem>, a: seq<T>, b: seq<T>): seq<T> {
    if items == [] then []
    else Replay(items[..|items| - 1], a, b) + Contribution(items[|items| - 1], a, b)
  }

  // ----- What scripts are worth -----

  lemma RunCopies<T>(data: Arrays, a: seq<T>, b: seq<T>, x: nat, y: nat, length: nat)
    requires x + length <= |a| && y + length <= |b|
    requires forall i, j :: 0 <= i < |a| && 0 <= j < |b| && data.equal(i, j) ==> a[i] == b[j]
    requires Run(data, x, x + length, y, y + length)
    ensures a[x..x + length] == b[y..y + length]
  {
    forall i | x <= i < x + length ensures a[i] == b[y + (i - x)] {
      assert data.equal(i, y + (i - x));
    }
    var s := a[x..x + length];
    assert forall t :: 0 <= t < |s| ==> s[t] == b[y..y + length][t];
  }

  /** Taking a script apart at its last item. */
  lemma LastItem<T>(data: Arrays, items: seq<DifferenceItem>, a: seq<T>, b: seq<T>)
    requires IsScript(data, items) && items != []
    ensures var before, item := items[..|items| - 1], items[|items| - 1];
            && IsScript(data, before) && Continues(data, item, EndA(before), EndB(before))
            && EndA(items) == EndA(before) + item.rangeInA.length
            && EndB(items) == EndB(before) + item.rangeInB.length
            && item.rangeInB.End() <= EndB(items)
            && Replay(items, a, b) == Replay(before, a, b) + Contribution(item, a, b)
  {
    hide Run;
    hide Contribution;
  }

  lemma PrefixGrows<T>(s: seq<T>, k: nat, n: nat)
    requires k + n <= |s|
    ensures s[..k + n] == s[..k] + s[k..k + n]
  {
  }

  /** What an item contributes is the part of B that it accounts for. */
  lemma ContributionIsB<T>(data: Arrays, item: DifferenceItem, a: seq<T>, b: seq<T>, posA: nat, posB: nat)
    requires Continues(data, item, posA, posB)
    requires posA + item.rangeInA.length <= |a| && posB + item.rangeInB.length <= |b|
    requires forall i, j :: 0 <= i < |a| && 0 <= j < |b| && data.equal(i, j) ==> a[i] == b[j]
    ensures Contribution(item, a, b) == b[posB..posB + item.rangeInB.length]
  {
    hide Run;
    if item.kind == COPY {
      RunCopies(data, a, b, posA, posB, item.rangeInA.length);
    }
  }

  /** Replaying a script rebuilds B, as far as the script goes. */
  lemma {:induction false} ReplayRebuilds<T>(data: Arrays, items: seq<DifferenceItem>, a: seq<T>, b: seq<T>)
    requires IsScript(data, items) && EndA(items) <= |a| && EndB(items) <= |b|
    requires forall i, j :: 0 <= i < |a| && 0 <= j < |b| && data.equal(i, j) ==> a[i] == b[j]
    ensures Replay(items, a, b) == b[..EndB(items)]
  {
    if items != [] {
      hide *;
      var before, item := items[..|items| - 1], items[|items| - 1];
      LastItem(data, items, a, b);
      ReplayRebuilds(data, before, a, b);
      ContributionIsB(data, item, a, b, EndA(before), EndB(before));
      PrefixGrows(b, EndB(before), item.rangeInB.length);
    }
  }

  lemma {:induction false} ChangedIsWhatIsNotCopied(data: Arrays, items: seq<DifferenceItem>)
    requires IsScript(data, items)
    ensures Changed(items) + 2 * Copied(items) == EndA(items) + EndB(items)
  {
    if items != [] {
      ChangedIsWhatIsNotCopied(data, items[..|items| - 1]);
    }
  }

  lemma ItemCost(b: Box, item: DifferenceItem, x: nat, y: nat)
    requires !b.reversed && b.lowerA == b.lowerB == 0
    requires x + item.rangeInA.length <= b.width && y + item.rangeInB.length <= b.height
    requires Continues(b.data, item, x, y)
    ensures Cost(b, x + item.rangeInA.length, y + item.rangeInB.length) <= Cost(b, x, y) + ChangedBy(item)
  {
    hide Cost;
    hide Run;
    if item.kind == COPY {
      CostAlongRun(b, x, y, item.rangeInA.length);
    } else {
      CostOfDetour(b, x, y, item.rangeInA.length, item.rangeInB.length);
    }
  }

  /** No script that leads from A to B is cheaper than the distance of the whole box. */
  lemma {:induction false} NoCheaperScript(b: Box, items: seq<DifferenceItem>)
    requires !b.reversed && b.lowerA == b.lowerB == 0
    requires IsScript(b.data, items) && EndA(items) <= b.width && EndB(items) <= b.height
    ensures Cost(b, EndA(items), EndB(items)) <= Changed(items)
  {
    if items != [] {
      var before := items[..|items| - 1];
      NoCheaperScript(b, before);
      hide Cost;
      hide Continues;
      ItemCost(b, items[|items| - 1], EndA(before), EndB(before));
    }
  }

  lemma {:induction false} CostAlongRun(b: Box, x: nat, y: nat, length: nat)
    requires !b.reversed && b.lowerA == b.lowerB == 0
    requires x + length <= b.width && y + length <= b.height
    requires Run(b.data, x, x + length, y, y + length)
    ensures Cost(b, x + length, y + length) == Cost(b, x, y)
  {
    if length > 0 {
      assert b.data.equal(x + length - 1, y + length - 1);
      CostAlongRun(b, x, y, length - 1);
    }
  }

  lemma {:induction false} CostOfDetour(b: Box, x: nat, y: nat, right: nat, down: nat)
    ensures Cost(b, x + right, y + down) <= Cost(b, x, y) + right + down
    decreases right + down
  {
    hide Cost;
    if right > 0 {
      CostOfDetour(b, x, y, right - 1, down);
      Neighbours(b, x + right - 1, y + down);
    } else if down > 0 {
      CostOfDetour(b, x, y, right, down - 1);
      Neighbours(b, x + right, y + down - 1);
    }
  }

  // ----- Decisions of the script builder -----

  /** Ranges are passed as pointers that are null once a list is used up. */
  function RangeAt(ranges: seq<Range>, i: nat): Option<Range> {
    if i < |ranges| then Some(ranges[i]) else None
  }

  function CanEmitCopy(posA: nat, posB: nat, rangeA: Option<Range>, rangeB: Option<Range>): nat
    requires rangeA.Some? || rangeB.Some?
  {
    if rangeA.Some? && rangeB.None? then
      if rangeA.value.location > posA then rangeA.value.location - posA else 0
    else if rangeA.None? && rangeB.Some? then
      if rangeB.value.location > posB then rangeB.value.location - posB else 0
    else if rangeB.value.location > posB && rangeA.value.location > posA then
      Min(rangeB.value.location - posB, rangeA.value.location - posA)
    else 0
  }

  predicate CanEmitModification(posA: nat, posB: nat, rangeA: Option<Range>, rangeB: Option<Range>)
    requires rangeA.Some? || rangeB.Some?
  {
    rangeA.Some? && rangeB.Some? && rangeA.value.location == posA && rangeB.value.location == posB
  }

  predicate CanEmitDeletion(posA: nat, posB: nat, rangeA: Option<Range>, rangeB: Option<Range>)
    requires rangeA.Some? || rangeB.Some?
  {
    if rangeB.None? then true
    else if rangeA.None? then false
    else rangeA.value.location == posA && rangeB.value.location > posB
  }

  predicate CanEmitInsertion(posA: nat, posB: nat, rangeA: Option<Range>, rangeB: Option<Range>)
    requires rangeA.Some? || rangeB.Some?
  {
    if rangeA.None? then true
    else if rangeB.None? then false
    else rangeB.value.location == posB
  }

  // ----- Where the script builder stands in one input -----

  /** Everything before `pos` is written out: the first `i` ranges, and nothing of the others. */
  predicate Stands(ranges: seq<Range>, size: nat, i: nat, pos: nat) {
    && i <= |ranges|
    && pos <= size
    && (0 < i ==> ranges[i - 1].End() <= pos)
    && pos <= Limit(ranges, size, i)
  }

  /** Where the next range starts, or the input ends. */
  function Limit(ranges: seq<Range>, size: nat, i: nat): nat {
    if i < |ranges| then ranges[i].location else size
  }

  /** Up to the next range all positions are kept. */
  lemma UnflaggedInGap(ranges: seq<Range>, size: nat, i: nat, pos: nat, pos': nat)
    requires Normal(ranges, size) && Stands(ranges, size, i, pos)
    requires pos <= pos' <= Limit(ranges, size, i)
    ensures pos' <= size
    ensures Unflagged(ranges, pos, pos') == seq(pos' - pos, t requires 0 <= t => pos + t)
    ensures Unflagged(ranges, 0, pos') == Unflagged(ranges, 0, pos) + Unflagged(ranges, pos, pos')
    ensures Unflagged(ranges, 0, size) == Unflagged(ranges, 0, pos') + Unflagged(ranges, pos', size)
  {
    forall p | pos <= p < pos' ensures !Flagged(ranges, p) {
    }
    UnflaggedAll(ranges, pos, pos');
    UnflaggedSplits(ranges, 0, pos, pos');
    UnflaggedSplits(ranges, 0, pos', size);
  }

  /** Writing out the next range keeps nothing of it. */
  lemma UnflaggedOverRange(ranges: seq<Range>, size: nat, i: nat)
    requires Normal(ranges, size) && i < |ranges|
    ensures Stands(ranges, size, i + 1, ranges[i].End())
    ensures i + 1 < |ranges| ==> ranges[i].End() < ranges[i + 1].location
    ensures Unflagged(ranges, 0, ranges[i].End()) == Unflagged(ranges, 0, ranges[i].location)
  {
    forall p | ranges[i].location <= p < ranges[i].End() ensures Flagged(ranges, p) {
      assert ranges[i].Covers(p);
    }
    UnflaggedNone(ranges, ranges[i].location, ranges[i].End());
    UnflaggedSplits(ranges, 0, ranges[i].location, ranges[i].End());
  }

  /** The same number of elements is kept before both positions. */
  ghost predicate SameRank(modA: seq<Range>, modB: seq<Range>, posA: nat, posB: nat) {
    |Unflagged(modA, 0, posA)| == |Unflagged(modB, 0, posB)|
  }

  /** Unflagged elements of equal rank match, so a copy up to the next ranges is sound. */
  lemma CopyIsRun(data: Arrays, modA: seq<Range>, modB: seq<Range>, i: nat, j: nat, posA: nat, posB: nat, length: nat)
    requires Normal(modA, data.sizeA) && Normal(modB, data.sizeB)
    requires Aligned(data, Unflagged(modA, 0, data.sizeA), Unflagged(modB, 0, data.sizeB))
    requires Stands(modA, data.sizeA, i, posA) && Stands(modB, data.sizeB, j, posB)
    requires SameRank(modA, modB, posA, posB)
    requires posA + length <= Limit(modA, data.sizeA, i) && posB + length <= Limit(modB, data.sizeB, j)
    ensures Run(data, posA, posA + length, posB, posB + length)
    ensures |Unflagged(modA, 0, posA + length)| == |Unflagged(modA, 0, posA)| + length
    ensures SameRank(modA, modB, posA + length, posB + length)
  {
    hide Normal;
    hide Unflagged;
    UnflaggedInGap(modA, data.sizeA, i, posA, posA + length);
    UnflaggedInGap(modB, data.sizeB, j, posB, posB + length);
    var rank := |Unflagged(modA, 0, posA)|;
    var keptA, keptB := Unflagged(modA, 0, data.sizeA), Unflagged(modB, 0, data.sizeB);
    hide Stands;
    hide Limit;
    forall p, q | posA <= p < posA + length && q == posB + (p - posA) ensures data.equal(p, q) {
      assert keptA[rank + (p - posA)] == p;
      assert keptB[rank + (p - posA)] == q;
    }
  }

  /** When one list is used up, the other input has no more kept elements left than this one. */
  lemma CopyFits(data: Arrays, modA: seq<Range>, modB: seq<Range>, i: nat, j: nat, posA: nat, posB: nat)
    requires Normal(modA, data.sizeA) && Normal(modB, data.sizeB)
    requires Aligned(data, Unflagged(modA, 0, data.sizeA), Unflagged(modB, 0, data.sizeB))
    requires Stands(modA, data.sizeA, i, posA) && Stands(modB, data.sizeB, j, posB)
    requires SameRank(modA, modB, posA, posB)
    ensures j == |modB| ==> posB + (Limit(modA, data.sizeA, i) - posA) <= data.sizeB
    ensures i == |modA| ==> posA + (Limit(modB, data.sizeB, j) - posB) <= data.sizeA
  {
    UnflaggedInGap(modA, data.sizeA, i, posA, Limit(modA, data.sizeA, i));
    UnflaggedInGap(modB, data.sizeB, j, posB, Limit(modB, data.sizeB, j));
  }

  /** The part of the invariant that speaks about the items written so far. */
  ghost predicate Written(data: Arrays, items: seq<DifferenceItem>, modA: seq<Range>, modB: seq<Range>,
                          i: nat, j: nat, posA: nat, posB: nat)
  {
    && i <= |modA| && j <= |modB|
    && IsScript(data, items) && Alternates(items)
    && EndA(items) == posA && EndB(items) == posB
    && Copied(items) == |Unflagged(modA, 0, posA)|
    && ChangedInA(items) == modA[..i] && ChangedInB(items) == modB[..j]
  }

  lemma ItemAppended(data: Arrays, items: seq<DifferenceItem>, item: DifferenceItem)
    requires IsScript(data, items) && Alternates(items)
    requires Continues(data, item, EndA(items), EndB(items))
    requires items != [] ==> (items[|items| - 1].kind == COPY) != (item.kind == COPY)
    ensures var after := items + [item];
            && IsScript(data, after) && Alternates(after)
            && EndA(after) == EndA(items) + item.rangeInA.length
            && EndB(after) == EndB(items) + item.rangeInB.length
            && Copied(after) == Copied(items) + (if item.kind == COPY then item.rangeInA.length else 0)
            && ChangedInA(after) == ChangedInA(items)
               + (if item.kind in {DELETION, MODIFICATION} then [item.rangeInA] else [])
            && ChangedInB(after) == ChangedInB(items)
               + (if item.kind in {INSERTION, MODIFICATION} then [item.rangeInB] else [])
  {
    var after := items + [item];
    assert after[..|after| - 1] == items && after[|after| - 1] == item;
  }

  /** The builder between two iterations: the last item is a change, and a copy comes next. */
  ghost predicate BetweenEdits(data: Arrays, items: seq<DifferenceItem>, modA: seq<Range>, modB: seq<Range>,
                               i: nat, j: nat, posA: nat, posB: nat)
  {
    && Stands(modA, data.sizeA, i, posA) && Stands(modB, data.sizeB, j, posB)
    && SameRank(modA, modB, posA, posB)
    && Written(data, items, modA, modB, i, j, posA, posB)
    && (items != [] ==>
          && items[|items| - 1].kind != COPY
          && (i < |modA| ==> posA < modA[i].location)
          && (j < |modB| ==> posB < modB[j].location))
  }

  /** The builder after the copy of an iteration: it has reached a range that is next. */
  ghost predicate BeforeEdit(data: Arrays, items: seq<DifferenceItem>, modA: seq<Range>, modB: seq<Range>,
                             i: nat, j: nat, posA: nat, posB: nat)
  {
    && Stands(modA, data.sizeA, i, posA) && Stands(modB, data.sizeB, j, posB)
    && SameRank(modA, modB, posA, posB)
    && Written(data, items, modA, modB, i, j, posA, posB)
    && (items != [] ==> items[|items| - 1].kind == COPY)
  }

  function CopyItem(posA: nat, posB: nat, length: nat): DifferenceItem {
    DifferenceItem(COPY, Range(posA, length), Range(posB, length))
  }

  lemma CopyWritten(data: Arrays, items: seq<DifferenceItem>, modA: seq<Range>, modB: seq<Range>,
                    i: nat, j: nat, posA: nat, posB: nat, length: nat)
    requires Normal(modA, data.sizeA) && Normal(modB, data.sizeB)
    requires Aligned(data, Unflagged(modA, 0, data.sizeA), Unflagged(modB, 0, data.sizeB))
    requires BetweenEdits(data, items, modA, modB, i, j, posA, posB)
    requires posA + length <= Limit(modA, data.sizeA, i) && posB + length <= Limit(modB, data.sizeB, j)
    requires 0 < length
    ensures BeforeEdit(data, items + [CopyItem(posA, posB, length)], modA, modB, i, j, posA + length, posB + length)
  {
    hide Normal;
    hide Aligned;
    hide Unflagged;
    hide Run;
    hide IsScript;
    hide Alternates;
    hide EndA;
    hide EndB;
    hide Copied;
    hide ChangedInA;
    hide ChangedInB;
    CopyIsRun(data, modA, modB, i, j, posA, posB, length);
    ItemAppended(data, items, CopyItem(posA, posB, length));
    LimitInBounds(modA, data.sizeA, i);
    LimitInBounds(modB, data.sizeB, j);
  }

  lemma LimitInBounds(ranges: seq<Range>, size: nat, i: nat)
    requires Normal(ranges, size)
    ensures Limit(ranges, size, i) <= size
  {
  }

  /** The copy of an iteration is as long as it can be, and is missing only at the very start. */
  lemma CopyDone(data: Arrays, items: seq<DifferenceItem>, modA: seq<Range>, modB: seq<Range>,
                 i: nat, j: nat, posA: nat, posB: nat)
    requires Normal(modA, data.sizeA) && Normal(modB, data.sizeB)
    requires Aligned(data, Unflagged(modA, 0, data.sizeA), Unflagged(modB, 0, data.sizeB))
    requires BetweenEdits(data, items, modA, modB, i, j, posA, posB)
    requires i < |modA| || j < |modB|
    ensures var length := CanEmitCopy(posA, posB, RangeAt(modA, i), RangeAt(modB, j));
            && (if length > 0 then
                  BeforeEdit(data, items + [CopyItem(posA, posB, length)], modA, modB, i, j, posA + length,
                             posB + length)
                else BeforeEdit(data, items, modA, modB, i, j, posA, posB))
            && (j < |modB| || posA + length == modA[i].location)
            && (i < |modA| || posB + length == modB[j].location)
            && (i < |modA| && j < |modB| ==> posA + length == modA[i].location || posB + length == modB[j].location)
            && (i < |modA| ==> posA + length <= modA[i].location)
            && (j < |modB| ==> posB + length <= modB[j].location)
  {
    hide Normal;
    hide Aligned;
    hide SameRank;
    hide Written;
    var length := CanEmitCopy(posA, posB, RangeAt(modA, i), RangeAt(modB, j));
    CopyFits(data, modA, modB, i, j, posA, posB);
    if length > 0 {
      CopyWritten(data, items, modA, modB, i, j, posA, posB, length);
    }
  }

  /** A change writes the next range of A, of B, or of both; what it does not write lies ahead. */
  predicate IsNextChange(modA: seq<Range>, modB: seq<Range>, i: nat, j: nat, posA: nat, posB: nat,
                         item: DifferenceItem) {
    && item.kind != COPY
    && (if item.kind == INSERTION then item.rangeInA == Range(posA, 0) && (i < |modA| ==> posA < modA[i].location)
        else i < |modA| && item.rangeInA == modA[i] && modA[i].location == posA)
    && (if item.kind == DELETION then item.rangeInB == Range(0, 0) && (j < |modB| ==> posB < modB[j].location)
        else j < |modB| && item.rangeInB == modB[j] && modB[j].location == posB)
  }

  lemma ChangeDone(data: Arrays, items: seq<DifferenceItem>, modA: seq<Range>, modB: seq<Range>,
                   i: nat, j: nat, posA: nat, posB: nat, item: DifferenceItem)
    requires Normal(modA, data.sizeA) && Normal(modB, data.sizeB)
    requires BeforeEdit(data, items, modA, modB, i, j, posA, posB)
    requires IsNextChange(modA, modB, i, j, posA, posB, item)
    ensures BetweenEdits(data, items + [item], modA, modB,
                         if item.kind == INSERTION then i else i + 1, if item.kind == DELETION then j else j + 1,
                         posA + item.rangeInA.length, posB + item.rangeInB.length)
  {
    hide Unflagged;
    if item.kind != INSERTION {
      UnflaggedOverRange(modA, data.sizeA, i);
    }
    if item.kind != DELETION {
      UnflaggedOverRange(modB, data.sizeB, j);
    }
    ChangeContinues(data, modA, modB, i, j, posA, posB, item);
    hide Normal;
    hide Continues;
    hide IsScript;
    ItemAppended(data, items, item);
  }

  lemma ChangeContinues(data: Arrays, modA: seq<Range>, modB: seq<Range>,
                        i: nat, j: nat, posA: nat, posB: nat, item: DifferenceItem)
    requires Normal(modA, data.sizeA) && Normal(modB, data.sizeB)
    requires IsNextChange(modA, modB, i, j, posA, posB, item)
    ensures Continues(data, item, posA, posB)
  {
  }

  lemma EmptyScript(data: Arrays, modA: seq<Range>, modB: seq<Range>)
    requires Normal(modA, data.sizeA) && Normal(modB, data.sizeB)
    ensures BetweenEdits(data, [], modA, modB, 0, 0, 0, 0)
  {
  }

  lemma ScriptComplete(data: Arrays, items: seq<DifferenceItem>, modA: seq<Range>, modB: seq<Range>, posA: nat,
                       posB: nat)
    requires BetweenEdits(data, items, modA, modB, |modA|, |modB|, posA, posB)
          || BeforeEdit(data, items, modA, modB, |modA|, |modB|, posA, posB)
    ensures IsScript(data, items) && Alternates(items) && EndA(items) == posA && EndB(items) == posB
    ensures Copied(items) == |Unflagged(modA, 0, posA)| && ChangedInA(items) == modA && ChangedInB(items) == modB
  {
  }

  lemma SameLengthLeft(data: Arrays, items: seq<DifferenceItem>, modA: seq<Range>, modB: seq<Range>, posA: nat,
                       posB: nat)
    requires Normal(modA, data.sizeA) && Normal(modB, data.sizeB)
    requires Aligned(data, Unflagged(modA, 0, data.sizeA), Unflagged(modB, 0, data.sizeB))
    requires BetweenEdits(data, items, modA, modB, |modA|, |modB|, posA, posB)
    ensures posA <= data.sizeA && posB <= data.sizeB && data.sizeA - posA == data.sizeB - posB
  {
    CopyFits(data, modA, modB, |modA|, |modB|, posA, posB);
  }

  /** Scans both lists of flagged ranges and writes the script. */
  method CreateDiffs(dataA: DiffData, dataB: DiffData) returns (result: seq<DifferenceItem>)
    requires dataA.data.sizeA == dataA.Length && dataA.data.sizeB == dataB.Length
    requires Normal(dataA.modified, dataA.Length) && Normal(dataB.modified, dataB.Length)
    requires Aligned(dataA.data, Unflagged(dataA.modified, 0, dataA.Length), Unflagged(dataB.modified, 0, dataB.Length))
    ensures IsScript(dataA.data, result) && Alternates(result)
    ensures EndA(result) == dataA.Length && EndB(result) == dataB.Length
    ensures Copied(result) == |Unflagged(dataA.modified, 0, dataA.Length)|
    ensures ChangedInA(result) == dataA.modified && ChangedInB(result) == dataB.modified
  {
    hide Normal;
    hide Aligned;
    hide BetweenEdits;
    hide BeforeEdit;
    ghost var data := dataA.data;
    var modA, modB := dataA.modified, dataB.modified;
    result := [];
    var i: nat, j: nat := 0, 0;
    var posA: nat, posB: nat := 0, 0;
    EmptyScript(data, modA, modB);
    while i < |modA| || j < |modB|
      invariant i <= |modA| && j <= |modB|
      invariant BetweenEdits(data, result, modA, modB, i, j, posA, posB)
      decreases |modA| - i + |modB| - j
    {
      var rangeA, rangeB := RangeAt(modA, i), RangeAt(modB, j);
      CopyDone(data, result, modA, modB, i, j, posA, posB);
      var charsToCopy := CanEmitCopy(posA, posB, rangeA, rangeB);
      if charsToCopy > 0 {
        result := result + [CopyItem(posA, posB, charsToCopy)];
        posA := posA + charsToCopy;
        posB := posB + charsToCopy;
      }
      if CanEmitModification(posA, posB, rangeA, rangeB) {
        var item := DifferenceItem(MODIFICATION, rangeA.value, rangeB.value);
        ChangeDone(data, result, modA, modB, i, j, posA, posB, item);
        result := result + [item];
        posA := posA + rangeA.value.length;
        posB := posB + rangeB.value.length;
        i := i + 1;
        j := j + 1;
      } else if CanEmitDeletion(posA, posB, rangeA, rangeB) {
        var item := DifferenceItem(DELETION, rangeA.value, Range(0, 0));
        ChangeDone(data, result, modA, modB, i, j, posA, posB, item);
        result := result + [item];
        posA := posA + rangeA.value.length;
        i := i + 1;
      } else if CanEmitInsertion(posA, posB, rangeA, rangeB) {
        var item := DifferenceItem(INSERTION, Range(posA, 0), rangeB.value);
        ChangeDone(data, result, modA, modB, i, j, posA, posB, item);
        result := result + [item];
        posB := posB + rangeB.value.length;
        j := j + 1;
      } else {
        assert false;
      }
    }

    // What is left after the last ranges matches.
    SameLengthLeft(data, result, modA, modB, posA, posB);
    if posA < dataA.Length {
      assert posB < dataB.Length;
      assert dataA.Length - posA == dataB.Length - posB;
      CopyWritten(data, result, modA, modB, i, j, posA, posB, dataA.Length - posA);
      result := result + [CopyItem(posA, posB, dataA.Length - posA)];
    }
    ScriptComplete(data, result, modA, modB, dataA.Length, dataB.Length);
  }
}
