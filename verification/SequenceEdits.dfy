/** Edits of ordered attributes, the test for conflicts between them, and what a list of edits means. */
module SequenceEdits {
  import opened Wrappers
  import opened DiffInput

  datatype EditKind = SequenceInsertion | SequenceDeletion | SequenceModification

  /** An edit of one array: `range` counts in the array before any edit is applied. Edits of the
      same array can come from different sources. */
  datatype SequenceEdit<T> = SequenceEdit(kind: EditKind, range: Range, objects: seq<T>, source: int) {

    /** Insertions replace nothing, deletions bring nothing, and the range edits are not empty. */
    predicate WellFormed() {
      match kind
      case SequenceInsertion => range.length == 0
      case SequenceDeletion => 0 < range.length && objects == []
      case SequenceModification => 0 < range.length
    }

    /** Deletions and modifications sort before insertions at the same location. */
    function SortOrder(): nat {
      if kind == SequenceInsertion then 1 else 0
    }

    predicate NotAfter(other: SequenceEdit<T>) {
      range.location < other.range.location
      || (range.location == other.range.location && SortOrder() <= other.SortOrder())
    }

    predicate InsertsAt(p: int) {
      kind == SequenceInsertion && range.location == p
    }

    predicate ReplacesAt(p: int) {
      kind != SequenceInsertion && 0 < range.length && range.location == p
    }
  }

  /** The class test of the source: an insertion is a kind of modification. */
  predicate IsKindOf(kind: EditKind, other: EditKind) {
    kind == other || (kind == SequenceInsertion && other == SequenceModification)
  }

  /** The source's equality, which is not symmetric; only deletions ignore the objects. */
  predicate EqualIgnoringSource<T(==)>(edit: SequenceEdit<T>, other: SequenceEdit<T>) {
    && IsKindOf(other.kind, edit.kind)
    && edit.range == other.range
    && (edit.kind != SequenceDeletion ==> edit.objects == other.objects)
  }

  /** The same edit, perhaps from another source. */
  predicate Same<T(==)>(edit: SequenceEdit<T>, other: SequenceEdit<T>) {
    edit.kind == other.kind && edit.range == other.range && edit.objects == other.objects
  }

  lemma EqualIsSame<T>(edit: SequenceEdit<T>, other: SequenceEdit<T>)
    requires edit.WellFormed() && other.WellFormed()
    ensures EqualIgnoringSource(edit, other) <==> Same(edit, other)
  {
  }

  /** On others it is not symmetric: an insertion passes for a modification of nothing, but not the
      other way round. */
  lemma EqualityIsNotSymmetric<T>(edit: SequenceEdit<T>)
    requires edit.kind == SequenceModification && edit.range.length == 0
    ensures var insertion := edit.(kind := SequenceInsertion);
            EqualIgnoringSource(edit, insertion) && !EqualIgnoringSource(insertion, edit)
  {
  }

  // ----- Conflicts -----

  /** The conflict test of the source. */
  predicate OverlappingRanges(r1: Range, r2: Range) {
    || (r2.location <= r1.location < r2.End() && r1.length > 0)
    || (r1.location <= r2.location < r1.End() && r2.length > 0)
  }

  /** It reports exactly the ranges that share an element. */
  lemma OverlapIsSharedElement(r1: Range, r2: Range)
    ensures OverlappingRanges(r1, r2) <==> exists p :: r1.Covers(p) && r2.Covers(p)
  {
    if OverlappingRanges(r1, r2) {
      var p := if r2.location <= r1.location then r1.location else r2.location;
      assert r1.Covers(p) && r2.Covers(p);
    }
  }

  /** So of well-formed edits it reports exactly pairs of range edits that replace a common element,
      and never an insertion. */
  lemma WhatIsReported<T>(edit: SequenceEdit<T>, other: SequenceEdit<T>)
    requires edit.WellFormed() && other.WellFormed()
    ensures OverlappingRanges(edit.range, other.range)
       <==> && edit.kind != SequenceInsertion && other.kind != SequenceInsertion
            && exists p :: edit.range.Covers(p) && other.range.Covers(p)
  {
    OverlapIsSharedElement(edit.range, other.range);
  }

  /** `edit` starts where `other` replaces elements; only an insertion may stand at the very start. */
  predicate Clashes<T>(edit: SequenceEdit<T>, other: SequenceEdit<T>) {
    if edit.kind == SequenceInsertion then other.range.location < edit.range.location < other.range.End()
    else other.range.location <= edit.range.location < other.range.End()
  }

  /** No two different edits clash, and all lie inside an array of `size` elements. */
  ghost predicate Separate<T>(edits: seq<SequenceEdit<T>>, size: nat) {
    && (forall e :: e in edits ==> e.range.End() <= size)
    && (forall e, f :: e in edits && f in edits ==> Same(e, f) || !Clashes(e, f))
  }

  /** Different edits that the source does not see as a conflict. */
  ghost predicate NoConflict<T>(edits: seq<SequenceEdit<T>>) {
    forall e, f :: e in edits && f in edits ==> Same(e, f) || !OverlappingRanges(e.range, f.range)
  }

  /** The conflict test misses exactly the insertions inside the range of another edit. */
  lemma WhatTheConflictTestMisses<T>(edits: seq<SequenceEdit<T>>, size: nat)
    requires forall e :: e in edits ==> e.WellFormed() && e.range.End() <= size
    requires NoConflict(edits)
    ensures Separate(edits, size) <==>
            forall e, f :: e in edits && f in edits && e.kind == SequenceInsertion ==>
              !(f.range.location < e.range.location < f.range.End())
  {
    forall e, f | e in edits && f in edits && !Same(e, f) && Clashes(e, f) ensures e.kind == SequenceInsertion {
      assert !OverlappingRanges(e.range, f.range);
    }
    forall e, f | e in edits && f in edits && e.kind == SequenceInsertion && Clashes(e, f) ensures !Same(e, f) {
    }
  }

  /** Edits that can be applied together in any order. */
  ghost predicate Compatible<T>(edits: seq<SequenceEdit<T>>, size: nat) {
    && (forall e :: e in edits ==> e.WellFormed())
    && Separate(edits, size)
    && (forall e, f, p :: e in edits && f in edits && e.InsertsAt(p) && f.InsertsAt(p) ==> Same(e, f))
  }

  // ----- What a list of edits means -----

  ghost predicate Repeats<T>(edits: seq<SequenceEdit<T>>, edit: SequenceEdit<T>) {
    exists e :: e in edits && Same(e, edit)
  }

  /** What is inserted at a location: each different insertion once, later ones in front. */
  ghost function InsertedAt<T>(edits: seq<SequenceEdit<T>>, p: int): seq<T> {
    if edits == [] then []
    else if edits[0].InsertsAt(p) && !Repeats(edits[1..], edits[0]) then InsertedAt(edits[1..], p) + edits[0].objects
    else InsertedAt(edits[1..], p)
  }

  function ReplacementAt<T>(edits: seq<SequenceEdit<T>>, p: int): (r: Option<SequenceEdit<T>>)
    ensures r.Some? ==> r.value in edits && r.value.ReplacesAt(p)
    ensures r.None? ==> forall e :: e in edits ==> !e.ReplacesAt(p)
  {
    if edits == [] then None
    else if edits[0].ReplacesAt(p) then Some(edits[0])
    else ReplacementAt(edits[1..], p)
  }

  /** All edits carried out at once on the elements from `p` on: every location refers to the
      original array. */
  ghost function Edited<T>(a: seq<T>, edits: seq<SequenceEdit<T>>, p: nat): seq<T>
    decreases |a| - p, 1
  {
    InsertedAt(edits, p) + EditedBehind(a, edits, p)
  }

  /** The same without what is inserted at `p`. */
  ghost function EditedBehind<T>(a: seq<T>, edits: seq<SequenceEdit<T>>, p: nat): seq<T>
    decreases |a| - p, 0
  {
    if p >= |a| then []
    else match ReplacementAt(edits, p)
      case Some(edit) => edit.objects + Edited(a, edits, p + edit.range.length)
      case None => [a[p]] + Edited(a, edits, p + 1)
  }

  lemma NothingInserted<T>(edits: seq<SequenceEdit<T>>, p: int)
    requires forall e :: e in edits ==> !e.InsertsAt(p)
    ensures InsertedAt(edits, p) == []
  {
  }

  /** An edit that does nothing at a location can be left out there. */
  lemma NotInserting<T>(edits: seq<SequenceEdit<T>>, p: int)
    requires edits != [] && !edits[0].InsertsAt(p)
    ensures InsertedAt(edits, p) == InsertedAt(edits[1..], p)
  {
  }

  lemma NotReplacing<T>(edits: seq<SequenceEdit<T>>, p: int)
    requires edits != [] && !edits[0].ReplacesAt(p)
    ensures ReplacementAt(edits, p) == ReplacementAt(edits[1..], p)
  {
  }

  lemma EditedReplacing<T>(a: seq<T>, edits: seq<SequenceEdit<T>>, p: nat)
    requires p < |a| && ReplacementAt(edits, p).Some?
    ensures var edit := ReplacementAt(edits, p).value;
            && 0 < edit.range.length
            && EditedBehind(a, edits, p) == edit.objects + Edited(a, edits, p + edit.range.length)
  {
    assert ReplacementAt(edits, p).value.ReplacesAt(p);
    hide ReplacementAt;
    hide InsertedAt;
    hide Edited;
  }

  lemma EditedCopying<T>(a: seq<T>, edits: seq<SequenceEdit<T>>, p: nat)
    requires p < |a| && ReplacementAt(edits, p).None?
    ensures EditedBehind(a, edits, p) == [a[p]] + Edited(a, edits, p + 1)
  {
    hide ReplacementAt;
    hide InsertedAt;
    hide Edited;
  }

  lemma EditedPastEnd<T>(a: seq<T>, edits: seq<SequenceEdit<T>>, p: nat)
    requires |a| <= p
    ensures EditedBehind(a, edits, p) == []
  {
  }

  lemma EditedParts<T>(a: seq<T>, edits: seq<SequenceEdit<T>>, p: nat)
    ensures Edited(a, edits, p) == InsertedAt(edits, p) + EditedBehind(a, edits, p)
  {
  }

  /** Lists that do the same at every location from `p` on mean the same. */
  lemma {:induction false} EditedAlike<T>(a: seq<T>, edits: seq<SequenceEdit<T>>, others: seq<SequenceEdit<T>>, p: nat)
    requires forall q :: p < q ==> InsertedAt(edits, q) == InsertedAt(others, q)
    requires forall q :: p <= q ==> ActAlike(ReplacementAt(edits, q), ReplacementAt(others, q))
    ensures EditedBehind(a, edits, p) == EditedBehind(a, others, p)
    decreases |a| - p
  {
    hide InsertedAt;
    hide ReplacementAt;
    hide Edited;
    if p >= |a| {
      EditedPastEnd(a, edits, p);
      EditedPastEnd(a, others, p);
    } else {
      assert ActAlike(ReplacementAt(edits, p), ReplacementAt(others, p));
      var next := p + match ReplacementAt(edits, p) case Some(edit) => edit.range.length case None => 1;
      EditedParts(a, edits, next);
      EditedParts(a, others, next);
      EditedAlike(a, edits, others, next);
    }
  }

  predicate ActAlike<T(==)>(r: Option<SequenceEdit<T>>, r': Option<SequenceEdit<T>>) {
    && (r.None? <==> r'.None?)
    && (r.Some? ==> r'.Some? && r.value.objects == r'.value.objects && r.value.range == r'.value.range)
  }

  // ----- Only the members of a compatible list of edits matter -----

  /** Every edit of the one list is in the other, perhaps from another source. */
  ghost predicate CoveredBy<T>(edits: seq<SequenceEdit<T>>, others: seq<SequenceEdit<T>>) {
    forall e :: e in edits ==> Repeats(others, e)
  }

  lemma SeparateIfCovered<T>(edits: seq<SequenceEdit<T>>, others: seq<SequenceEdit<T>>, size: nat)
    requires Separate(others, size) && CoveredBy(edits, others)
    ensures Separate(edits, size)
  {
    forall e | e in edits ensures e.range.End() <= size {
      var e' :| e' in others && Same(e', e);
    }
    forall e, f | e in edits && f in edits ensures Same(e, f) || !Clashes(e, f) {
      var e' :| e' in others && Same(e', e);
      var f' :| f' in others && Same(f', f);
    }
  }

  lemma CompatibleIfCovered<T>(edits: seq<SequenceEdit<T>>, others: seq<SequenceEdit<T>>, size: nat)
    requires Compatible(others, size) && CoveredBy(edits, others)
    ensures Compatible(edits, size)
  {
    SeparateIfCovered(edits, others, size);
    hide Separate;
    forall e | e in edits ensures e.WellFormed() {
      var e' :| e' in others && Same(e', e);
    }
    forall e, f, p | e in edits && f in edits && e.InsertsAt(p) && f.InsertsAt(p) ensures Same(e, f) {
      var e' :| e' in others && Same(e', e);
      var f' :| f' in others && Same(f', f);
      assert e'.InsertsAt(p) && f'.InsertsAt(p);
    }
  }

  /** If all insertions at a location are the same, it takes effect once. */
  lemma {:induction false} InsertedOnce<T>(edits: seq<SequenceEdit<T>>, p: int, e: SequenceEdit<T>)
    requires e in edits && e.InsertsAt(p)
    requires forall f :: f in edits && f.InsertsAt(p) ==> Same(f, e)
    ensures InsertedAt(edits, p) == e.objects
  {
    var rest := edits[1..];
    if Repeats(rest, e) {
      var e' :| e' in rest && Same(e', e);
      InsertedOnce(rest, p, e');
      if edits[0].InsertsAt(p) {
        assert Same(e', edits[0]);
      }
    } else {
      assert Same(e, e);
      assert e == edits[0];
      assert forall f :: f in rest && f.InsertsAt(p) ==> Same(f, e);
      NothingInserted(rest, p);
    }
  }

  lemma InsertedOnceOfCompatible<T>(edits: seq<SequenceEdit<T>>, size: nat, p: int, e: SequenceEdit<T>)
    requires Compatible(edits, size) && Repeats(edits, e) && e.InsertsAt(p)
    ensures InsertedAt(edits, p) == e.objects
  {
    var e' :| e' in edits && Same(e', e);
    hide Separate;
    hide InsertedAt;
    InsertedOnce(edits, p, e');
  }

  lemma InsertedAlike<T>(edits: seq<SequenceEdit<T>>, others: seq<SequenceEdit<T>>, size: nat, p: int)
    requires Compatible(others, size) && CoveredBy(edits, others) && CoveredBy(others, edits)
    ensures InsertedAt(edits, p) == InsertedAt(others, p)
  {
    hide Compatible;
    hide InsertedAt;
    CompatibleIfCovered(edits, others, size);
    if e :| e in edits && e.InsertsAt(p) {
      assert Same(e, e);
      InsertedOnceOfCompatible(edits, size, p, e);
      InsertedOnceOfCompatible(others, size, p, e);
    } else {
      NothingInserted(edits, p);
      NothingInsertedEither(others, edits, p);
      NothingInserted(others, p);
    }
  }

  lemma NothingInsertedEither<T>(edits: seq<SequenceEdit<T>>, others: seq<SequenceEdit<T>>, p: int)
    requires CoveredBy(edits, others) && forall e :: e in others ==> !e.InsertsAt(p)
    ensures forall e :: e in edits ==> !e.InsertsAt(p)
  {
    forall e | e in edits ensures !e.InsertsAt(p) {
      var e' :| e' in others && Same(e', e);
    }
  }

  lemma ReplacedToo<T>(edits: seq<SequenceEdit<T>>, others: seq<SequenceEdit<T>>, size: nat, p: int)
    requires Separate(others, size) && CoveredBy(edits, others)
    ensures ReplacementAt(edits, p).Some? ==>
              ReplacementAt(others, p).Some? && ActAlike(ReplacementAt(edits, p), ReplacementAt(others, p))
  {
    var r, r' := ReplacementAt(edits, p), ReplacementAt(others, p);
    if r.Some? {
      var e' :| e' in others && Same(e', r.value);
      assert e'.ReplacesAt(p);
      assert Clashes(e', r'.value);
    }
  }

  lemma ReplacedAlike<T>(edits: seq<SequenceEdit<T>>, others: seq<SequenceEdit<T>>, size: nat, p: int)
    requires Separate(others, size) && CoveredBy(edits, others) && CoveredBy(others, edits)
    ensures ActAlike(ReplacementAt(edits, p), ReplacementAt(others, p))
  {
    SeparateIfCovered(edits, others, size);
    ReplacedToo(edits, others, size, p);
    ReplacedToo(others, edits, size, p);
  }

  /** The order of compatible edits, duplicates among them and their sources make no difference. */
  lemma EditedIgnoresOrder<T>(a: seq<T>, edits: seq<SequenceEdit<T>>, others: seq<SequenceEdit<T>>, p: nat)
    requires Compatible(others, |a|) && CoveredBy(edits, others) && CoveredBy(others, edits)
    ensures Edited(a, edits, p) == Edited(a, others, p)
  {
    hide *;
    forall q | p <= q ensures InsertedAt(edits, q) == InsertedAt(others, q) {
      InsertedAlike(edits, others, |a|, q);
    }
    forall q | p <= q ensures ActAlike(ReplacementAt(edits, q), ReplacementAt(others, q)) {
      CompatibleIsSeparate(others, |a|);
      ReplacedAlike(edits, others, |a|, q);
    }
    EditedAlike(a, edits, others, p);
    EditedParts(a, edits, p);
    EditedParts(a, others, p);
  }

  lemma CompatibleIsSeparate<T>(edits: seq<SequenceEdit<T>>, size: nat)
    requires Compatible(edits, size)
    ensures Separate(edits, size) && forall e :: e in edits ==> e.WellFormed()
  {
  }
}
