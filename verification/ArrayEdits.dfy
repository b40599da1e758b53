/** Recording the differences of two arrays as edits, and what applying them achieves. */
module ArrayEdits {
  import opened Wrappers
  import opened EditGraph
  import opened DiffInput
  import opened Comparison
  import opened EditScript
  import opened ArrayDiff
  import opened SequenceEdits

  /** The edits that a script stands for; copies need none. */
  function ScriptEdits<T>(items: seq<DifferenceItem>, b: seq<T>, source: int): seq<SequenceEdit<T>> {
    if items == [] then []
    else ScriptEdits(items[..|items| - 1], b, source) + ItemEdits(items[|items| - 1], b, source)
  }

  function ItemEdits<T>(item: DifferenceItem, b: seq<T>, source: int): seq<SequenceEdit<T>> {
    match item.kind
    case INSERTION => if item.rangeInB.length > 0 then [ItemEdit(item, b, source)] else []
    case COPY => []
    case _ => [ItemEdit(item, b, source)]
  }

  function ItemEdit<T>(item: DifferenceItem, b: seq<T>, source: int): SequenceEdit<T> {
    match item.kind
    case INSERTION => SequenceEdit(SequenceInsertion, Range(item.rangeInA.location, 0), Slice(b, item.rangeInB), source)
    case DELETION => SequenceEdit(SequenceDeletion, item.rangeInA, [], source)
    case _ => SequenceEdit(SequenceModification, item.rangeInA, Slice(b, item.rangeInB), source)
  }

  /** How many elements a list of edits drops or brings. */
  function EditSize<T>(edits: seq<SequenceEdit<T>>): nat {
    if edits == [] then 0
    else EditSize(edits[..|edits| - 1]) + edits[|edits| - 1].range.length + |edits[|edits| - 1].objects|
  }

  // ----- The edits of a script can be applied together -----

  lemma {:induction false} ScriptEditsInOrder<T>(data: Arrays, items: seq<DifferenceItem>, b: seq<T>, source: int,
                                                 e: SequenceEdit<T>)
    requires IsScript(data, items) && Alternates(items) && e in ScriptEdits(items, b, source)
    ensures e.WellFormed() && e.range.End() <= EndA(items)
    ensures items[|items| - 1].kind == COPY ==> e.range.location < EndA(items)
  {
    var before, item := items[..|items| - 1], items[|items| - 1];
    if e in ScriptEdits(before, b, source) {
      ScriptEditsInOrder(data, before, b, source, e);
    }
  }

  lemma CompatibleAppend<T>(edits: seq<SequenceEdit<T>>, last: SequenceEdit<T>, size: nat, size': nat)
    requires Compatible(edits, size) && size <= size'
    requires last.WellFormed() && last.range.End() <= size'
    requires forall e :: e in edits ==> e.range.End() <= last.range.location && e.range.location < last.range.location
    ensures Compatible(edits + [last], size')
  {
    IsSameAsItself(last);
    hide Same;
  }

  lemma IsSameAsItself<T>(e: SequenceEdit<T>)
    ensures Same(e, e)
  {
  }

  lemma {:induction false} ScriptEditsCompatible<T>(data: Arrays, items: seq<DifferenceItem>, b: seq<T>, source: int)
    requires IsScript(data, items) && Alternates(items)
    ensures Compatible(ScriptEdits(items, b, source), EndA(items))
  {
    if items != [] {
      var before, item := items[..|items| - 1], items[|items| - 1];
      var edits := ScriptEdits(before, b, source);
      ScriptEditsCompatible(data, before, b, source);
      hide Compatible;
      if item.kind == COPY {
        assert ScriptEdits(items, b, source) == edits;
        CompatibleGrows(edits, EndA(before), EndA(items));
      } else {
        var last := ItemEdit(item, b, source);
        assert ScriptEdits(items, b, source) == edits + [last];
        forall e | e in edits ensures e.range.End() <= last.range.location && e.range.location < last.range.location {
          ScriptEditsInOrder(data, before, b, source, e);
        }
        CompatibleAppend(edits, last, EndA(before), EndA(items));
      }
    }
  }

  lemma CompatibleGrows<T>(edits: seq<SequenceEdit<T>>, size: nat, size': nat)
    requires Compatible(edits, size) && size <= size'
    ensures Compatible(edits, size')
  {
  }

  // ----- Each edit is of the kind of its change -----

  /** Deletions bring nothing, insertions drop nothing, and modifications do both; and between two
      edits there is an element that stays. */
  ghost predicate AreMinimalEdits<T>(edits: seq<SequenceEdit<T>>) {
    && (forall e :: e in edits ==>
          && (e.kind == SequenceDeletion <==> e.objects == [])
          && (e.kind == SequenceInsertion <==> e.range.length == 0))
    && forall i, j :: 0 <= i < j < |edits| ==> edits[i].range.End() < edits[j].range.location
  }

  lemma MinimalAppend<T>(edits: seq<SequenceEdit<T>>, last: SequenceEdit<T>)
    requires AreMinimalEdits(edits)
    requires last.kind == SequenceDeletion <==> |last.objects| == 0
    requires last.kind == SequenceInsertion <==> last.range.length == 0
    requires AllEndBefore(edits, last.range.location)
    ensures AreMinimalEdits(edits + [last])
  {
  }

  ghost predicate AllEndBefore<T>(edits: seq<SequenceEdit<T>>, p: nat) {
    forall e :: e in edits ==> e.range.End() < p
  }

  lemma CopyStaysMinimal<T>(data: Arrays, before: seq<DifferenceItem>, item: DifferenceItem, b: seq<T>, source: int)
    requires IsScript(data, before) && Alternates(before) && Continues(data, item, EndA(before), EndB(before))
    requires item.kind == COPY && (before != [] ==> before[|before| - 1].kind != COPY)
    ensures ItemEdits(item, b, source) == []
    ensures AllEndBefore(ScriptEdits(before, b, source), EndA(before) + item.rangeInA.length)
  {
    hide Continues;
    hide IsScript;
    hide Alternates;
    hide ScriptEdits;
    hide ItemEdits;
    ChangeBringsAndDrops(data, item, EndA(before), EndB(before));
    EditsBefore(data, before, item, b, source);
    CopyHasNoEdit(item, b, source);
  }

  lemma ChangeStaysMinimal<T>(data: Arrays, item: DifferenceItem, edits: seq<SequenceEdit<T>>, b: seq<T>, source: int,
                              posA: nat, posB: nat)
    requires Continues(data, item, posA, posB) && item.kind != COPY && item.rangeInB.End() <= |b|
    requires AreMinimalEdits(edits) && AllEndBefore(edits, posA)
    ensures AreMinimalEdits(edits + ItemEdits(item, b, source))
  {
    hide *;
    ItemEditIs(data, item, b, source, posA, posB);
    KindOfEdit(data, item, b, source, posA, posB);
    MinimalAppend(edits, ItemEdit(item, b, source));
  }

  lemma {:induction false} ScriptEditsAreMinimal<T>(data: Arrays, items: seq<DifferenceItem>, b: seq<T>, source: int)
    requires IsScript(data, items) && Alternates(items) && EndB(items) <= |b|
    ensures AreMinimalEdits(ScriptEdits(items, b, source))
    ensures items != [] && items[|items| - 1].kind == COPY ==>
              AllEndBefore(ScriptEdits(items, b, source), EndA(items))
  {
    if items != [] {
      hide *;
      var before, item := items[..|items| - 1], items[|items| - 1];
      LastInScript(data, items);
      LastItemEdits(items, b, source);
      ScriptEditsAreMinimal(data, before, b, source);
      if item.kind == COPY {
        CopyStaysMinimal(data, before, item, b, source);
        Nothing(ScriptEdits(before, b, source));
      } else {
        NoEditsOfNothing(b, source);
        ChangeStaysMinimal(data, item, ScriptEdits(before, b, source), b, source, EndA(before), EndB(before));
      }
    }
  }

  lemma NoEditsOfNothing<T>(b: seq<T>, source: int)
    ensures AllEndBefore(ScriptEdits([], b, source), 0)
  {
  }

  lemma LastInScript(data: Arrays, items: seq<DifferenceItem>)
    requires IsScript(data, items) && items != []
    ensures var before, item := items[..|items| - 1], items[|items| - 1];
            && IsScript(data, before)
            && Continues(data, item, EndA(before), EndB(before))
            && EndA(items) == EndA(before) + item.rangeInA.length
            && EndB(before) <= EndB(items) && item.rangeInB.End() <= EndB(items)
            && EndA([]) == 0
  {
    hide Run;
  }

  /** The kind of the edit of a change. */
  lemma KindOfEdit<T>(data: Arrays, item: DifferenceItem, b: seq<T>, source: int, posA: nat, posB: nat)
    requires Continues(data, item, posA, posB) && item.kind != COPY && item.rangeInB.End() <= |b|
    ensures var e := ItemEdit(item, b, source);
            && (e.kind == SequenceDeletion <==> |e.objects| == 0)
            && (e.kind == SequenceInsertion <==> e.range.length == 0)
  {
    hide *;
    ChangeBringsAndDrops(data, item, posA, posB);
    KindOfItem(item, b, source);
    ItemEditIs(data, item, b, source, posA, posB);
    ItemEditObjects(item, [], b, source);
  }

  lemma ChangeBringsAndDrops(data: Arrays, item: DifferenceItem, posA: nat, posB: nat)
    requires Continues(data, item, posA, posB)
    ensures item.kind == INSERTION <==> item.rangeInA.length == 0
    ensures item.kind == DELETION <==> item.rangeInB.length == 0
  {
    hide Run;
  }

  lemma KindOfItem<T>(item: DifferenceItem, b: seq<T>, source: int)
    requires item.kind != COPY
    ensures ItemEdit(item, b, source).kind == SequenceInsertion <==> item.kind == INSERTION
    ensures ItemEdit(item, b, source).kind == SequenceDeletion <==> item.kind == DELETION
  {
    hide Slice;
  }

  // ----- Applied, they carry the script out -----

  lemma {:induction false} ReplacementAppended<T>(edits: seq<SequenceEdit<T>>, e: SequenceEdit<T>, p: int)
    ensures ReplacementAt(edits + [e], p) ==
            if ReplacementAt(edits, p).Some? then ReplacementAt(edits, p) else if e.ReplacesAt(p) then Some(e) else None
  {
    if edits != [] {
      assert (edits + [e])[1..] == edits[1..] + [e];
      ReplacementAppended(edits[1..], e, p);
    }
  }

  lemma {:induction false} InsertedBefore<T>(edits: seq<SequenceEdit<T>>, last: SequenceEdit<T>, p: int)
    requires !last.InsertsAt(p)
    ensures InsertedAt(edits + [last], p) == InsertedAt(edits, p)
  {
    if edits == [] {
      NothingInserted([last], p);
    } else {
      var rest := edits[1..];
      assert (edits + [last])[1..] == rest + [last];
      InsertedBefore(rest, last, p);
      if edits[0].InsertsAt(p) {
        RepeatsBefore(rest, last, edits[0]);
      }
    }
  }

  lemma RepeatsBefore<T>(edits: seq<SequenceEdit<T>>, last: SequenceEdit<T>, e: SequenceEdit<T>)
    requires !Same(last, e)
    ensures Repeats(edits + [last], e) <==> Repeats(edits, e)
  {
    if Repeats(edits, e) {
      var f :| f in edits && Same(f, e);
      assert f in edits + [last];
    }
  }

  ghost predicate AllStartBefore<T>(edits: seq<SequenceEdit<T>>, p: nat) {
    forall e :: e in edits ==> e.range.location < p
  }

  lemma NothingStartsAt<T>(edits: seq<SequenceEdit<T>>, p: nat)
    requires AllStartBefore(edits, p)
    ensures ReplacementAt(edits, p).None? && InsertedAt(edits, p) == [] && AllStartBefore(edits, p + 1)
  {
    NothingInserted(edits, p);
  }

  lemma {:induction false} EditedBehindAll<T>(a: seq<T>, edits: seq<SequenceEdit<T>>, p: nat)
    requires AllStartBefore(edits, p)
    ensures Edited(a, edits, p) == if p <= |a| then a[p..] else []
    decreases |a| - p
  {
    hide *;
    NothingStartsAt(edits, p);
    EditedParts(a, edits, p);
    if p < |a| {
      EditedCopying(a, edits, p);
      EditedBehindAll(a, edits, p + 1);
    } else {
      EditedPastEnd(a, edits, p);
    }
  }

  lemma EditedAfterAll<T>(a: seq<T>, edits: seq<SequenceEdit<T>>, p: nat)
    requires forall e :: e in edits ==> e.range.location < p
    ensures Edited(a, edits, p) == if p <= |a| then a[p..] else []
  {
    assert AllStartBefore(edits, p);
    hide *;
    EditedBehindAll(a, edits, p);
  }

  /** Elements after all edits are copied. */
  lemma {:induction false} EditedExtends<T>(a: seq<T>, more: seq<T>, edits: seq<SequenceEdit<T>>, p: nat)
    requires p <= |a| && forall e :: e in edits ==> e.WellFormed() && e.range.End() <= |a|
    ensures Edited(a + more, edits, p) == Edited(a, edits, p) + more
    decreases |a| - p
  {
    hide *;
    EditedParts(a, edits, p);
    EditedParts(a + more, edits, p);
    if p < |a| {
      match ReplacementAt(edits, p)
      case Some(edit) =>
        ReplacementFits(edits, |a|, p);
        EditedReplacing(a, edits, p);
        EditedReplacing(a + more, edits, p);
        EditedExtends(a, more, edits, p + edit.range.length);
      case None =>
        EditedCopying(a, edits, p);
        EditedCopying(a + more, edits, p);
        EditedExtends(a, more, edits, p + 1);
    } else {
      EditedPastEnd(a, edits, p);
      if more == [] {
        EditedPastEnd(a + more, edits, p);
      } else {
        NothingReplacedAtEnd(edits, p);
        EditedCopying(a + more, edits, p);
        AllBeforeEnd(edits, p);
        EditedAfterAll(a + more, edits, p + 1);
      }
    }
  }

  lemma NothingReplacedAtEnd<T>(edits: seq<SequenceEdit<T>>, size: nat)
    requires forall e :: e in edits ==> e.WellFormed() && e.range.End() <= size
    ensures ReplacementAt(edits, size).None?
  {
    assert forall e :: e in edits ==> !e.ReplacesAt(size);
  }

  lemma AllBeforeEnd<T>(edits: seq<SequenceEdit<T>>, size: nat)
    requires forall e :: e in edits ==> e.WellFormed() && e.range.End() <= size
    ensures forall e :: e in edits ==> e.range.location < size + 1
  {
  }

  /** An edit that replaces a range before the end leaves the rest inside. */
  lemma ReplacementFits<T>(edits: seq<SequenceEdit<T>>, size: nat, p: nat)
    requires forall e :: e in edits ==> e.range.End() <= size
    requires ReplacementAt(edits, p).Some?
    ensures 0 < ReplacementAt(edits, p).value.range.length
    ensures p + ReplacementAt(edits, p).value.range.length <= size
  {
    assert ReplacementAt(edits, p).value in edits;
    hide ReplacementAt;
  }

  /** What an edit after all others does at its location. */
  lemma LastActs<T>(edits: seq<SequenceEdit<T>>, last: SequenceEdit<T>, p: nat)
    requires forall e :: e in edits ==> e.range.location < p
    requires last.WellFormed() && last.range.location == p
    ensures last.kind == SequenceInsertion ==> InsertedAt(edits + [last], p) == last.objects
    ensures last.kind != SequenceInsertion ==>
              InsertedAt(edits + [last], p) == [] && ReplacementAt(edits + [last], p) == Some(last)
  {
    if last.kind == SequenceInsertion {
      assert forall e :: e in edits ==> !e.InsertsAt(p);
      IsSameAsItself(last);
      hide Same;
      InsertedOnce(edits + [last], p, last);
    } else {
      assert forall e :: e in edits ==> !e.ReplacesAt(p);
      ReplacementAppended(edits, last, p);
      NothingInserted(edits + [last], p);
    }
  }

  lemma LastReplaces<T>(a: seq<T>, edits: seq<SequenceEdit<T>>, last: SequenceEdit<T>, p: nat)
    requires p < |a| && ReplacementAt(edits, p) == Some(last) && InsertedAt(edits, p) == []
    requires last.ReplacesAt(p) && last.range.End() == |a|
    requires forall e :: e in edits ==> e.range.location < |a|
    ensures Edited(a, edits, p) == last.objects
  {
    hide ReplacementAt;
    hide InsertedAt;
    hide Edited;
    hide EditedBehind;
    EditedParts(a, edits, p);
    EditedReplacing(a, edits, p);
    EditedAfterAll(a, edits, |a|);
  }

  /** An edit after all others brings its objects instead of the elements it replaces. */
  lemma LastEdit<T>(a: seq<T>, more: seq<T>, edits: seq<SequenceEdit<T>>, last: SequenceEdit<T>)
    requires forall e :: e in edits ==> e.range.location < |a|
    requires last.WellFormed() && last.range == Range(|a|, |more|)
    ensures Edited(a + more, edits + [last], |a|) == last.objects
  {
    LastActs(edits, last, |a|);
    hide ReplacementAt;
    hide InsertedAt;
    hide Edited;
    hide EditedBehind;
    if more == [] {
      EditedParts(a + more, edits + [last], |a|);
      EditedPastEnd(a + more, edits + [last], |a|);
    } else {
      LastReplaces(a + more, edits + [last], last, |a|);
    }
  }

  lemma SameBeforeEnd<T>(edits: seq<SequenceEdit<T>>, last: SequenceEdit<T>, p: nat)
    requires p < last.range.location
    ensures InsertedAt(edits + [last], p) == InsertedAt(edits, p)
    ensures ReplacementAt(edits + [last], p) == ReplacementAt(edits, p)
  {
    hide ReplacementAt;
    ReplacementAppended(edits, last, p);
    InsertedBefore(edits, last, p);
  }

  lemma {:induction false} EditedExtendsBy<T>(a: seq<T>, more: seq<T>, edits: seq<SequenceEdit<T>>,
                                              last: SequenceEdit<T>, p: nat)
    requires p <= |a|
    requires forall e :: e in edits ==> e.WellFormed() && e.range.End() <= |a| && e.range.location < |a|
    requires last.WellFormed() && last.range == Range(|a|, |more|)
    ensures Edited(a + more, edits + [last], p) == Edited(a, edits, p) + last.objects
    decreases |a| - p
  {
    hide *;
    if p == |a| {
      LastEdit(a, more, edits, last);
      EditedAfterAll(a, edits, p);
    } else {
      SameBeforeEnd(edits, last, p);
      EditedParts(a, edits, p);
      EditedParts(a + more, edits + [last], p);
      match ReplacementAt(edits, p)
      case Some(edit) =>
        ReplacementFits(edits, |a|, p);
        EditedReplacing(a, edits, p);
        EditedReplacing(a + more, edits + [last], p);
        EditedExtendsBy(a, more, edits, last, p + edit.range.length);
      case None =>
        EditedCopying(a, edits, p);
        EditedCopying(a + more, edits + [last], p);
        EditedExtendsBy(a, more, edits, last, p + 1);
    }
  }

  lemma CopyHasNoEdit<T>(item: DifferenceItem, b: seq<T>, source: int)
    requires item.kind == COPY
    ensures ItemEdits(item, b, source) == [] && ChangedBy(item) == 0
  {
  }

  lemma ItemEditObjects<T>(item: DifferenceItem, a: seq<T>, b: seq<T>, source: int)
    requires item.kind != COPY && item.rangeInB.End() <= |b|
    requires item.kind == DELETION ==> item.rangeInB.length == 0
    ensures ItemEdit(item, b, source).objects == Contribution(item, a, b)
    ensures |ItemEdit(item, b, source).objects| == item.rangeInB.length
  {
  }

  /** The edit of a change replaces the item's range of A by what the item contributes. */
  lemma ItemEditIs<T>(data: Arrays, item: DifferenceItem, b: seq<T>, source: int, posA: nat, posB: nat)
    requires Continues(data, item, posA, posB) && item.kind != COPY
    ensures ItemEdits(item, b, source) == [ItemEdit(item, b, source)]
    ensures ItemEdit(item, b, source).WellFormed()
            && ItemEdit(item, b, source).range == Range(posA, item.rangeInA.length)
    ensures item.kind == DELETION ==> item.rangeInB.length == 0
    ensures ChangedBy(item) == item.rangeInA.length + item.rangeInB.length
  {
    hide Run;
    hide Slice;
  }

  lemma CopyApplied<T>(data: Arrays, item: DifferenceItem, edits: seq<SequenceEdit<T>>, a: seq<T>, b: seq<T>,
                       source: int, k: nat, posB: nat)
    requires Continues(data, item, k, posB) && item.kind == COPY && k + item.rangeInA.length <= |a|
    requires forall e :: e in edits ==> e.WellFormed() && e.range.End() <= k
    ensures Edited(a[..k + item.rangeInA.length], edits + ItemEdits(item, b, source), 0)
         == Edited(a[..k], edits, 0) + Contribution(item, a, b)
  {
    hide Edited;
    hide Run;
    var n := item.rangeInA.length;
    PrefixGrows(a, k, n);
    EditedExtends(a[..k], a[k..k + n], edits, 0);
    Nothing(edits);
  }

  lemma Nothing<T>(s: seq<T>)
    ensures s + [] == s
  {
  }

  lemma ChangeApplied<T>(data: Arrays, item: DifferenceItem, edits: seq<SequenceEdit<T>>, a: seq<T>, b: seq<T>,
                         source: int, k: nat, posB: nat)
    requires Continues(data, item, k, posB) && item.kind != COPY
    requires item.rangeInB.End() <= |b| && k + item.rangeInA.length <= |a|
    requires forall e :: e in edits ==> e.WellFormed() && e.range.End() <= k && e.range.location < k
    ensures Edited(a[..k + item.rangeInA.length], edits + ItemEdits(item, b, source), 0)
         == Edited(a[..k], edits, 0) + Contribution(item, a, b)
  {
    hide *;
    ItemEditIs(data, item, b, source, k, posB);
    ItemEditObjects(item, a, b, source);
    var n := item.rangeInA.length;
    PrefixGrows(a, k, n);
    EditedExtendsBy(a[..k], a[k..k + n], edits, ItemEdit(item, b, source), 0);
  }

  lemma EditsBefore<T>(data: Arrays, before: seq<DifferenceItem>, item: DifferenceItem, b: seq<T>, source: int)
    requires IsScript(data, before) && Alternates(before)
    requires before != [] ==> (before[|before| - 1].kind == COPY) != (item.kind == COPY)
    ensures forall e :: e in ScriptEdits(before, b, source) ==>
              e.WellFormed() && e.range.End() <= EndA(before) && (item.kind != COPY ==> e.range.location < EndA(before))
  {
    forall e | e in ScriptEdits(before, b, source)
      ensures e.WellFormed() && e.range.End() <= EndA(before) && (item.kind != COPY ==> e.range.location < EndA(before))
    {
      ScriptEditsInOrder(data, before, b, source, e);
    }
  }

  /** One more item of a script is one more edit, or one more run of copied elements. */
  lemma ItemApplied<T>(data: Arrays, before: seq<DifferenceItem>, item: DifferenceItem, a: seq<T>, b: seq<T>,
                       source: int, posB: nat)
    requires IsScript(data, before) && Alternates(before) && Continues(data, item, EndA(before), posB)
    requires before != [] ==> (before[|before| - 1].kind == COPY) != (item.kind == COPY)
    requires EndA(before) + item.rangeInA.length <= |a| && item.rangeInB.End() <= |b|
    ensures var edits := ScriptEdits(before, b, source);
            Edited(a[..EndA(before) + item.rangeInA.length], edits + ItemEdits(item, b, source), 0)
            == Edited(a[..EndA(before)], edits, 0) + Contribution(item, a, b)
  {
    hide *;
    EditsBefore(data, before, item, b, source);
    if item.kind == COPY {
      CopyApplied(data, item, ScriptEdits(before, b, source), a, b, source, EndA(before), posB);
    } else {
      ChangeApplied(data, item, ScriptEdits(before, b, source), a, b, source, EndA(before), posB);
    }
  }

  lemma LastItemEdits<T>(items: seq<DifferenceItem>, b: seq<T>, source: int)
    requires Alternates(items) && items != []
    ensures var before, item := items[..|items| - 1], items[|items| - 1];
            && Alternates(before)
            && (before != [] ==> (before[|before| - 1].kind == COPY) != (item.kind == COPY))
            && ScriptEdits(items, b, source) == ScriptEdits(before, b, source) + ItemEdits(item, b, source)
  {
    hide ItemEdits;
  }

  /** Applied all at once, the edits of a script carry it out. */
  lemma {:induction false} EditsReplay<T>(data: Arrays, items: seq<DifferenceItem>, a: seq<T>, b: seq<T>, source: int)
    requires IsScript(data, items) && Alternates(items) && EndA(items) <= |a| && EndB(items) <= |b|
    ensures Edited(a[..EndA(items)], ScriptEdits(items, b, source), 0) == Replay(items, a, b)
  {
    if items != [] {
      hide *;
      var before := items[..|items| - 1];
      LastItem(data, items, a, b);
      LastItemEdits(items, b, source);
      EditsReplay(data, before, a, b, source);
      LastItemReplays(data, items, a, b, source);
    }
  }

  lemma LastItemReplays<T>(data: Arrays, items: seq<DifferenceItem>, a: seq<T>, b: seq<T>, source: int)
    requires IsScript(data, items) && Alternates(items) && EndA(items) <= |a| && EndB(items) <= |b| && items != []
    requires var before := items[..|items| - 1];
             && EndA(before) <= |a|
             && Edited(a[..EndA(before)], ScriptEdits(before, b, source), 0) == Replay(before, a, b)
    ensures Edited(a[..EndA(items)], ScriptEdits(items, b, source), 0) == Replay(items, a, b)
  {
    hide *;
    var before, item := items[..|items| - 1], items[|items| - 1];
    LastItem(data, items, a, b);
    LastItemEdits(items, b, source);
    ItemApplied(data, before, item, a, b, source, EndB(before));
  }

  lemma EditSizeAppended<T>(edits: seq<SequenceEdit<T>>, last: SequenceEdit<T>)
    ensures EditSize(edits + [last]) == EditSize(edits) + last.range.length + |last.objects|
  {
    assert (edits + [last])[..|edits|] == edits;
  }

  lemma ItemSize<T>(data: Arrays, item: DifferenceItem, edits: seq<SequenceEdit<T>>, b: seq<T>, source: int,
                    posA: nat, posB: nat)
    requires Continues(data, item, posA, posB) && item.rangeInB.End() <= |b|
    ensures EditSize(edits + ItemEdits(item, b, source)) == EditSize(edits) + ChangedBy(item)
  {
    hide *;
    if item.kind == COPY {
      CopyHasNoEdit(item, b, source);
      Nothing(edits);
    } else {
      ItemEditIs(data, item, b, source, posA, posB);
      ItemEditObjects(item, [], b, source);
      EditSizeAppended(edits, ItemEdit(item, b, source));
    }
  }

  /** The edits are exactly as large as the changes of the script. */
  lemma {:induction false} EditSizeIsChanged<T>(data: Arrays, items: seq<DifferenceItem>, b: seq<T>, source: int)
    requires IsScript(data, items) && EndB(items) <= |b|
    ensures EditSize(ScriptEdits(items, b, source)) == Changed(items)
  {
    if items != [] {
      hide Run;
      hide ItemEdits;
      hide ChangedBy;
      var before, item := items[..|items| - 1], items[|items| - 1];
      EditSizeIsChanged(data, before, b, source);
      hide EditSize;
      ItemSize(data, item, ScriptEdits(before, b, source), b, source, EndA(before), EndB(before));
    }
  }

  // ----- Recording the differences of two arrays -----

  /** Two arrays as the comparison sees them. */
  function ArraysOf<T(==)>(a: seq<T>, b: seq<T>): Arrays {
    Arrays(|a|, |b|, (i: nat, j: nat) => i < |a| && j < |b| && a[i] == b[j])
  }

  /** The least number of elements to drop and to bring to get from the one array to the other. */
  function EditDistance<T(==)>(a: seq<T>, b: seq<T>): nat {
    Distance(WholeBox(ArraysOf(a, b)))
  }

  lemma {:induction false} EditsAfterStart<T>(data: Arrays, items: seq<DifferenceItem>, b: seq<T>, source: int,
                                              e: SequenceEdit<T>)
    requires IsScript(data, items) && items != [] && items[0].kind == COPY && e in ScriptEdits(items, b, source)
    ensures items[0].rangeInA.length <= e.range.location
  {
    var before, item := items[..|items| - 1], items[|items| - 1];
    LastInScript(data, items);
    if |items| > 1 {
      FirstIsBefore(data, before);
      if e in ScriptEdits(before, b, source) {
        EditsAfterStart(data, before, b, source, e);
      }
    }
    hide IsScript;
    hide Run;
  }

  lemma {:induction false} FirstIsBefore(data: Arrays, items: seq<DifferenceItem>)
    requires items != []
    ensures items[0].rangeInA.length <= EndA(items)
  {
    if |items| > 1 {
      FirstIsBefore(data, items[..|items| - 1]);
    }
  }

  lemma StartIsNotEdited<T>(items: seq<DifferenceItem>, a: seq<T>, b: seq<T>, source: int, n: nat)
    requires IsScript(ArraysOf(a, b), items) && CopiesStart(ArraysOf(a, b), items)
    requires n <= |a| && n <= |b| && a[..n] == b[..n]
    ensures forall e :: e in ScriptEdits(items, b, source) ==> n <= e.range.location
  {
    hide IsScript;
    var data := ArraysOf(a, b);
    if 0 < n {
      assert forall i :: 0 <= i < n ==> a[..n][i] == b[..n][i];
      assert Run(data, 0, n, 0, n);
      forall e | e in ScriptEdits(items, b, source) ensures n <= e.range.location {
        EditsAfterStart(data, items, b, source, e);
      }
    }
  }

  lemma ScriptEditsTurn<T>(items: seq<DifferenceItem>, a: seq<T>, b: seq<T>, source: int)
    requires IsDiff(ArraysOf(a, b), items)
    ensures var edits := ScriptEdits(items, b, source);
            && Compatible(edits, |a|)
            && Edited(a, edits, 0) == b
            && EditSize(edits) == EditDistance(a, b)
            && AreMinimalEdits(edits)
  {
    var data := ArraysOf(a, b);
    DiffRebuilds(data, items, a, b);
    DiffParts(data, items);
    assert data.sizeA == |a| && data.sizeB == |b| && EditDistance(a, b) == Distance(WholeBox(data));
    hide *;
    ScriptEditsCompatible(data, items, b, source);
    EditsReplay(data, items, a, b, source);
    EditSizeIsChanged(data, items, b, source);
    ScriptEditsAreMinimal(data, items, b, source);
    assert a[..|a|] == a;
  }

  lemma DiffParts(data: Arrays, items: seq<DifferenceItem>)
    requires IsDiff(data, items)
    ensures IsScript(data, items) && Alternates(items) && EndA(items) == data.sizeA && EndB(items) == data.sizeB
    ensures Changed(items) == Distance(WholeBox(data))
  {
  }

  /** Compares two arrays and records every change as an edit: deletions, insertions and modifications
      with an element between any two of them, and none in what the arrays have in common at the
      start. */
  method DiffArrays<T(==)>(a: seq<T>, b: seq<T>, source: int) returns (edits: seq<SequenceEdit<T>>)
    ensures Compatible(edits, |a|)
    ensures Edited(a, edits, 0) == b
    ensures EditSize(edits) == EditDistance(a, b)
    ensures forall e :: e in edits ==> e.source == source
    ensures forall e :: e in edits ==> (e.kind == SequenceDeletion <==> e.objects == [])
    ensures forall e :: e in edits ==> (e.kind == SequenceInsertion <==> e.range.length == 0)
    ensures forall i, j :: 0 <= i < j < |edits| ==> edits[i].range.End() < edits[j].range.location
    ensures forall n, e :: 0 <= n <= |a| && n <= |b| && a[..n] == b[..n] && e in edits ==> n <= e.range.location
  {
    hide CopiesStart;
    hide IsDiff;
    hide Edited;
    hide Compatible;
    hide EditSize;
    var result;
    ghost var calls, cells;
    result, calls, cells := Diff(ArraysOf(a, b));
    edits := [];
    for i := 0 to |result|
      invariant edits == ScriptEdits(result[..i], b, source)
      invariant forall e :: e in edits ==> e.source == source
    {
      assert result[..i + 1][..i] == result[..i] && result[..i + 1][i] == result[i];
      var edit := result[i];
      match edit.kind {
        case INSERTION =>
          if edit.rangeInB.length > 0 {
            edits := edits + [SequenceEdit(SequenceInsertion, Range(edit.rangeInA.location, 0),
                                           Slice(b, edit.rangeInB), source)];
          }
        case DELETION =>
          edits := edits + [SequenceEdit(SequenceDeletion, edit.rangeInA, [], source)];
        case MODIFICATION =>
          edits := edits + [SequenceEdit(SequenceModification, edit.rangeInA, Slice(b, edit.rangeInB), source)];
        case COPY =>
      }
    }
    assert result[..|result|] == result;
    DiffParts(ArraysOf(a, b), result);
    forall n | 0 <= n <= |a| && n <= |b| && a[..n] == b[..n] ensures forall e :: e in edits ==> n <= e.range.location {
      StartIsNotEdited(result, a, b, source, n);
    }
    ScriptEditsTurn(result, a, b, source);
  }

  /** Whatever order the edits are enumerated in, and even if several sources made the same ones,
      applying them turns the one array into the other. */
  lemma SharedEditsTurn<T>(a: seq<T>, b: seq<T>, edits: seq<SequenceEdit<T>>, others: seq<SequenceEdit<T>>)
    requires Compatible(edits, |a|) && Edited(a, edits, 0) == b
    requires CoveredBy(others, edits) && CoveredBy(edits, others)
    ensures Compatible(others, |a|) && Edited(a, others, 0) == b
  {
    CompatibleIfCovered(others, edits, |a|);
    EditedIgnoresOrder(a, others, edits, 0);
  }
}
