/** Applying a list of edits to an array in place, and exactly when each edit lands where it belongs. */
module ApplyingEdits {
  import opened Wrappers
  import opened Sequences
  import opened SequenceEdits

  // ----- Sorting, and skipping false conflicts -----

  ghost predicate InEditOrder<T>(edits: seq<SequenceEdit<T>>) {
    forall i, j :: 0 <= i < j < |edits| ==> edits[i].NotAfter(edits[j])
  }

  /** A result the library's sort may have: edits that compare as equal can be in any order. */
  ghost predicate IsSortingOf<T>(sorted: seq<SequenceEdit<T>>, edits: seq<SequenceEdit<T>>) {
    InEditOrder(sorted) && multiset(sorted) == multiset(edits)
  }

  lemma EditOrderCons<T>(edit: SequenceEdit<T>, edits: seq<SequenceEdit<T>>)
    requires InEditOrder(edits) && forall e :: e in edits ==> edit.NotAfter(e)
    ensures InEditOrder([edit] + edits)
  {
  }

  lemma EditOrderTail<T>(edits: seq<SequenceEdit<T>>)
    requires InEditOrder(edits) && edits != []
    ensures InEditOrder(edits[1..]) && forall e :: e in edits[1..] ==> edits[0].NotAfter(e)
  {
  }

  lemma NotAfterAll<T>(edit: SequenceEdit<T>, edits: seq<SequenceEdit<T>>)
    requires InEditOrder(edits) && edits != [] && edit.NotAfter(edits[0])
    ensures forall e :: e in edits ==> edit.NotAfter(e)
  {
  }

  function InsertSorted<T>(edits: seq<SequenceEdit<T>>, edit: SequenceEdit<T>): (r: seq<SequenceEdit<T>>)
    requires InEditOrder(edits)
    ensures InEditOrder(r) && multiset(r) == multiset([edit] + edits)
  {
    if edits == [] then [edit]
    else if edit.NotAfter(edits[0]) then
      NotAfterAll(edit, edits);
      EditOrderCons(edit, edits);
      [edit] + edits
    else
      EditOrderTail(edits);
      assert edits == [edits[0]] + edits[1..];
      var rest := InsertSorted(edits[1..], edit);
      InsertedAfter(edits, edit, rest);
      EditOrderCons(edits[0], rest);
      [edits[0]] + rest
  }

  lemma InsertedAfter<T>(edits: seq<SequenceEdit<T>>, edit: SequenceEdit<T>, rest: seq<SequenceEdit<T>>)
    requires edits != [] && edits[0].NotAfter(edit) && forall e :: e in edits[1..] ==> edits[0].NotAfter(e)
    requires multiset(rest) == multiset([edit] + edits[1..])
    ensures forall e :: e in rest ==> edits[0].NotAfter(e)
  {
    forall e | e in rest ensures edits[0].NotAfter(e) {
      assert e in multiset(rest);
    }
  }

  function Sorted<T>(edits: seq<SequenceEdit<T>>): (r: seq<SequenceEdit<T>>)
    ensures IsSortingOf(r, edits)
  {
    if edits == [] then []
    else
      assert edits == [edits[0]] + edits[1..];
      InsertSorted(Sorted(edits[1..]), edits[0])
  }

  /** The callers may rely on no particular order of edits that compare as equal. */
  method SortEdits<T>(edits: seq<SequenceEdit<T>>) returns (sorted: seq<SequenceEdit<T>>)
    ensures IsSortingOf(sorted, edits)
  {
    sorted := Sorted(edits);
  }

  /** Of equal neighbours, only the last stays. */
  ghost function Distinct<T>(edits: seq<SequenceEdit<T>>): (r: seq<SequenceEdit<T>>)
    ensures forall e :: e in r ==> e in edits
  {
    if edits == [] then []
    else if |edits| > 1 && EqualIgnoringSource(edits[0], edits[1]) then Distinct(edits[1..])
    else [edits[0]] + Distinct(edits[1..])
  }

  lemma DistinctUnfolds<T>(edits: seq<SequenceEdit<T>>, i: nat)
    requires i < |edits|
    ensures Distinct(edits[i..]) ==
            if i + 1 < |edits| && EqualIgnoringSource(edits[i], edits[i + 1]) then Distinct(edits[i + 1..])
            else [edits[i]] + Distinct(edits[i + 1..])
  {
    assert edits[i..][1..] == edits[i + 1..];
  }

  lemma NothingLeft<T>(edits: seq<SequenceEdit<T>>)
    ensures Distinct(edits[|edits|..]) == []
  {
  }

  // ----- What one edit, and the whole loop, does to an array -----

  function Inserted<T>(now: seq<T>, objects: seq<T>, p: int): Option<seq<T>> {
    if objects == [] then Some(now)
    else if 0 <= p <= |now| then Some(now[..p] + objects + now[p..])
    else None
  }

  function Removed<T>(now: seq<T>, p: int, n: nat): Option<seq<T>> {
    if n == 0 then Some(now)
    else if 0 <= p && p + n <= |now| then Some(now[..p] + now[p + n..])
    else None
  }

  /** The array after an edit at an index, or nothing if that raises. */
  function AfterEdit<T>(now: seq<T>, op: SequenceEdit<T>, p: int): Option<seq<T>> {
    match op.kind
    case SequenceInsertion => Inserted(now, op.objects, p)
    case SequenceDeletion => Removed(now, p, op.range.length)
    case SequenceModification =>
      match Removed(now, p, op.range.length)
      case Some(left) => Inserted(left, op.objects, p)
      case None => None
  }

  function Growth<T>(op: SequenceEdit<T>): int {
    match op.kind
    case SequenceInsertion => |op.objects|
    case SequenceDeletion => 0 - op.range.length
    case SequenceModification => |op.objects| - op.range.length
  }

  /** By how much the location of an edit has moved: the offset only changes with the location. */
  function Offset<T>(op: SequenceEdit<T>, i: int, nextI: int, lastStart: int): int {
    if op.range.location != lastStart then nextI else i
  }

  /** The array after the edits that are left, or nothing if one raises. */
  function AfterEdits<T>(now: seq<T>, edits: seq<SequenceEdit<T>>, i: int, nextI: int, lastStart: int): Option<seq<T>>
    decreases |edits|
  {
    if edits == [] then Some(now)
    else
      var op := edits[0];
      var offset := Offset(op, i, nextI, lastStart);
      match AfterEdit(now, op, op.range.location + offset)
      case Some(after) => AfterEdits(after, edits[1..], offset, nextI + Growth(op), op.range.location)
      case None => None
  }

  // ----- Edits that land where they belong -----

  /** What an element of the array in progress is: one of the original, or brought by an edit at
      a location. */
  datatype Place = Original(at: int) | Brought(at: int)

  ghost predicate AllBefore(places: seq<Place>, p: int) {
    forall i :: 0 <= i < |places| ==> places[i].at < p
  }

  ghost predicate NoneBefore(places: seq<Place>, p: int) {
    forall i :: 0 <= i < |places| ==> p <= places[i].at
  }

  ghost function Originals(from: nat, size: nat): (r: seq<Place>)
    requires from <= size
    ensures |r| == size - from
  {
    seq(size - from, i requires 0 <= i < size - from => Original(from + i))
  }

  ghost function BroughtBy<T>(op: SequenceEdit<T>): (r: seq<Place>)
    ensures |r| == |op.objects|
  {
    seq(|op.objects|, i => Brought(op.range.location))
  }

  /** At index `p` an edit meets exactly the elements that it is about: those of its range, between
      what belongs before its location and what belongs behind. */
  ghost predicate InPlace<T>(places: seq<Place>, op: SequenceEdit<T>, p: int) {
    && 0 <= p && p + op.range.length <= |places|
    && AllBefore(places[..p], op.range.location)
    && places[p..p + op.range.length] == Originals(op.range.location, op.range.End())
    && NoneBefore(places[p + op.range.length..], op.range.location)
  }

  ghost function Moved<T>(places: seq<Place>, op: SequenceEdit<T>, p: int): seq<Place>
    requires 0 <= p && p + op.range.length <= |places|
  {
    places[..p] + BroughtBy(op) + places[p + op.range.length..]
  }

  /** The loop finds every edit's elements where it looks for them. */
  ghost predicate RunsInPlace<T>(places: seq<Place>, edits: seq<SequenceEdit<T>>, i: int, nextI: int, lastStart: int)
    decreases |edits|
  {
    edits == []
    || var op := edits[0];
       var offset := Offset(op, i, nextI, lastStart);
       var p := op.range.location + offset;
       && InPlace(places, op, p)
       && RunsInPlace(Moved(places, op, p), edits[1..], offset, nextI + Growth(op), op.range.location)
  }

  ghost predicate NoRepeat<T>(edits: seq<SequenceEdit<T>>) {
    forall i, j :: 0 <= i < j < |edits| ==> !Same(edits[i], edits[j])
  }

  /** What the function promises for sorted edits of an array of `size` elements: every edit is
      carried out on the elements that it is about, and equal edits only once. */
  ghost predicate KeepsPromise<T>(sorted: seq<SequenceEdit<T>>, size: nat) {
    && RunsInPlace(Originals(0, size), Distinct(sorted), 0, 0, -1)
    && NoRepeat(Distinct(sorted))
  }

  // ----- The same as a condition on neighbouring edits -----

  /** Each edit starts behind what the ones before have replaced; only insertions share the
      location of the edit before. */
  ghost predicate Fits<T>(edits: seq<SequenceEdit<T>>, lastStart: int, from: nat, size: nat)
    decreases |edits|
  {
    edits == []
    || (FitsNext(edits[0], lastStart, from, size)
        && Fits(edits[1..], edits[0].range.location, NextFrom(edits[0], lastStart, from), size))
  }

  ghost predicate FitsNext<T>(op: SequenceEdit<T>, lastStart: int, from: nat, size: nat) {
    if op.range.location == lastStart then op.kind == SequenceInsertion
    else from <= op.range.location && op.range.End() <= size
  }

  ghost function NextFrom<T>(op: SequenceEdit<T>, lastStart: int, from: nat): nat {
    if op.range.location == lastStart then from else op.range.End()
  }

  /** The array in progress: what belongs before the last location, what the edits there brought,
      and the originals from `from` on. */
  ghost predicate Progress(places: seq<Place>, done: seq<Place>, last: seq<Place>, i: int, nextI: int, lastStart: int,
                           from: nat, size: nat)
  {
    && lastStart <= from <= size
    && places == done + last + Originals(from, size)
    && |done| + |last| == from + nextI
    && AllBefore(done, lastStart)
    && (forall q :: 0 <= q < |last| ==> last[q] == Brought(lastStart))
    && (if lastStart < 0 then done == [] && last == [] else |done| == lastStart + i)
  }

  /** After the edit before, `op` may come next in a sorted list. */
  ghost predicate MayFollow<T>(op: SequenceEdit<T>, lastStart: int, from: nat) {
    && op.WellFormed()
    && lastStart <= op.range.location
    && (lastStart == from && op.kind != SequenceInsertion ==> lastStart < op.range.location)
  }

  lemma InPlaceFits<T>(places: seq<Place>, op: SequenceEdit<T>, done: seq<Place>, last: seq<Place>, i: int, nextI: int,
                       lastStart: int, from: nat, size: nat)
    requires Progress(places, done, last, i, nextI, lastStart, from, size) && MayFollow(op, lastStart, from)
    requires InPlace(places, op, op.range.location + Offset(op, i, nextI, lastStart))
    ensures FitsNext(op, lastStart, from, size)
  {
    MeetsItsElements(places, op, op.range.location + Offset(op, i, nextI, lastStart));
    hide InPlace;
  }

  lemma MeetsItsElements<T>(places: seq<Place>, op: SequenceEdit<T>, p: int)
    requires InPlace(places, op, p)
    ensures 0 <= p && p + op.range.length <= |places|
    ensures 0 < op.range.length ==> places[p] == Original(op.range.location)
    ensures forall q :: p <= q < |places| ==> op.range.location <= places[q].at
  {
    var n := op.range.length;
    forall q | p <= q < |places| ensures op.range.location <= places[q].at {
      if q < p + n {
        assert places[q] == places[p..p + n][q - p];
      } else {
        assert places[q] == places[p + n..][q - (p + n)];
      }
    }
    if 0 < n {
      assert places[p] == places[p..p + n][0];
    }
  }

  /** One more insertion at the location of the edit before. */
  lemma MoreInPlace<T>(places: seq<Place>, op: SequenceEdit<T>, done: seq<Place>, last: seq<Place>, i: int, nextI: int,
                       lastStart: int, from: nat, size: nat)
    requires Progress(places, done, last, i, nextI, lastStart, from, size) && MayFollow(op, lastStart, from)
    requires FitsNext(op, lastStart, from, size) && op.range.location == lastStart
    ensures 0 <= lastStart + i <= |places| && op.range.length == 0 && InPlace(places, op, lastStart + i)
    ensures Progress(Moved(places, op, lastStart + i), done, BroughtBy(op) + last, i, nextI + Growth(op), lastStart,
                     from, size)
  {
    var back := last + Originals(from, size);
    assert Originals(lastStart, lastStart) == [];
    assert NoneBefore(back, lastStart);
    assert places == done + [] + back;
    hide AllBefore;
    hide NoneBefore;
    InPlaceBetween(places, done, [], back, op);
    assert done + BroughtBy(op) + back == done + (BroughtBy(op) + last) + Originals(from, size);
  }

  /** The elements in front of, in and behind the range of an edit at a new location. */
  lemma ProgressParts(places: seq<Place>, done: seq<Place>, last: seq<Place>, i: int, nextI: int, lastStart: int,
                      from: nat, size: nat, l: nat, end: nat)
    requires Progress(places, done, last, i, nextI, lastStart, from, size)
    requires lastStart < l && from <= l <= end <= size
    ensures places == done + last + Originals(from, l) + Originals(l, end) + Originals(end, size)
    ensures |done + last + Originals(from, l)| == l + nextI
    ensures AllBefore(done + last + Originals(from, l), l)
    ensures NoneBefore(Originals(end, size), l)
  {
    SplitOriginals(from, l, end, size);
    assert AllBefore(Originals(from, l), l);
    hide Originals;
    assert done + last + (Originals(from, l) + Originals(l, end) + Originals(end, size))
        == done + last + Originals(from, l) + Originals(l, end) + Originals(end, size);
  }

  lemma ProgressMade<T>(front: seq<Place>, op: SequenceEdit<T>, nextI: int, size: nat)
    requires AllBefore(front, op.range.location) && |front| == op.range.location + nextI
    requires op.WellFormed() && op.range.End() <= size
    ensures Progress(front + BroughtBy(op) + Originals(op.range.End(), size), front, BroughtBy(op),
                     nextI, nextI + Growth(op), op.range.location, op.range.End(), size)
  {
    hide AllBefore;
    hide Originals;
  }

  /** An edit at a new location. */
  lemma NextInPlace<T>(places: seq<Place>, op: SequenceEdit<T>, done: seq<Place>, last: seq<Place>, i: int, nextI: int,
                       lastStart: int, from: nat, size: nat)
    requires Progress(places, done, last, i, nextI, lastStart, from, size) && MayFollow(op, lastStart, from)
    requires FitsNext(op, lastStart, from, size) && op.range.location != lastStart
    ensures var l := op.range.location;
            && 0 <= l + nextI && l + nextI + op.range.length <= |places|
            && InPlace(places, op, l + nextI)
            && Progress(Moved(places, op, l + nextI), done + last + Originals(from, l), BroughtBy(op),
                        nextI, nextI + Growth(op), l, op.range.End(), size)
  {
    var l, end := op.range.location, op.range.End();
    NextBounds(op, lastStart, from, size);
    hide *;
    ProgressParts(places, done, last, i, nextI, lastStart, from, size, l, end);
    var front := done + last + Originals(from, l);
    InPlaceBetween(places, front, Originals(l, end), Originals(end, size), op);
    OriginalsLength(l, end);
    ProgressMade(front, op, nextI, size);
  }

  lemma NextBounds<T>(op: SequenceEdit<T>, lastStart: int, from: nat, size: nat)
    requires MayFollow(op, lastStart, from) && FitsNext(op, lastStart, from, size) && op.range.location != lastStart
    ensures op.WellFormed() && lastStart < op.range.location && from <= op.range.location
    ensures op.range.location <= op.range.End() <= size && op.range.End() == op.range.location + op.range.length
  {
  }

  lemma OriginalsLength(from: nat, size: nat)
    requires from <= size
    ensures |Originals(from, size)| == size - from
  {
  }

  lemma SplitOriginals(from: nat, l: nat, end: nat, size: nat)
    requires from <= l <= end <= size
    ensures Originals(from, size) == Originals(from, l) + Originals(l, end) + Originals(end, size)
  {
  }

  lemma InPlaceBetween<T>(places: seq<Place>, front: seq<Place>, middle: seq<Place>, back: seq<Place>,
                          op: SequenceEdit<T>)
    requires places == front + middle + back
    requires AllBefore(front, op.range.location) && NoneBefore(back, op.range.location)
    requires middle == Originals(op.range.location, op.range.End())
    ensures InPlace(places, op, |front|) && Moved(places, op, |front|) == front + BroughtBy(op) + back
  {
    assert places[..|front|] == front;
    assert places[|front|..|front| + |middle|] == middle;
    assert places[|front| + |middle|..] == back;
  }

  /** Sorted edits that may follow the edit before. */
  ghost predicate MayAllFollow<T>(edits: seq<SequenceEdit<T>>, lastStart: int, from: nat) {
    InEditOrder(edits) && forall e :: e in edits ==> MayFollow(e, lastStart, from)
  }

  lemma TailMayFollow<T>(edits: seq<SequenceEdit<T>>, lastStart: int, from: nat)
    requires MayAllFollow(edits, lastStart, from) && edits != []
    ensures MayFollow(edits[0], lastStart, from)
    ensures MayAllFollow(edits[1..], edits[0].range.location, NextFrom(edits[0], lastStart, from))
  {
    EditOrderTail(edits);
    var op := edits[0];
    assert MayFollow(op, lastStart, from);
    forall e | e in edits[1..] ensures MayFollow(e, op.range.location, NextFrom(op, lastStart, from)) {
      assert op.NotAfter(e) && MayFollow(e, lastStart, from);
    }
  }

  /** The loop runs in place exactly if each edit starts behind what the ones before replaced. */
  lemma {:induction false} InPlaceIffFits<T>(places: seq<Place>, edits: seq<SequenceEdit<T>>, done: seq<Place>,
                                             last: seq<Place>, i: int, nextI: int, lastStart: int, from: nat, size: nat)
    requires Progress(places, done, last, i, nextI, lastStart, from, size) && MayAllFollow(edits, lastStart, from)
    ensures RunsInPlace(places, edits, i, nextI, lastStart) <==> Fits(edits, lastStart, from, size)
    decreases |edits|
  {
    hide Progress;
    hide MayAllFollow;
    hide MayFollow;
    hide InPlace;
    if edits != [] {
      var op := edits[0];
      TailMayFollow(edits, lastStart, from);
      if !FitsNext(op, lastStart, from, size) {
        if InPlace(places, op, op.range.location + Offset(op, i, nextI, lastStart)) {
          InPlaceFits(places, op, done, last, i, nextI, lastStart, from, size);
        }
      } else if op.range.location == lastStart {
        MoreInPlace(places, op, done, last, i, nextI, lastStart, from, size);
        InPlaceIffFits(Moved(places, op, lastStart + i), edits[1..], done, BroughtBy(op) + last, i,
                       nextI + Growth(op), lastStart, from, size);
      } else {
        var l := op.range.location;
        NextInPlace(places, op, done, last, i, nextI, lastStart, from, size);
        InPlaceIffFits(Moved(places, op, l + nextI), edits[1..], done + last + Originals(from, l), BroughtBy(op),
                       nextI, nextI + Growth(op), l, op.range.End(), size);
      }
    }
  }

  // ----- The same as a condition on pairs of edits -----

  /** No edit of the list clashes with one before it. */
  ghost predicate NoLaterClash<T>(edits: seq<SequenceEdit<T>>) {
    forall i, j :: 0 <= i < j < |edits| ==> !Clashes(edits[j], edits[i])
  }

  /** Seen from the edit before, all of the list fits. */
  ghost predicate AllFit<T>(edits: seq<SequenceEdit<T>>, lastStart: int, from: nat, size: nat) {
    forall e :: e in edits ==> FitsNext(e, lastStart, from, size)
  }

  lemma NextAllFit<T>(edits: seq<SequenceEdit<T>>, lastStart: int, from: nat, size: nat)
    requires edits != [] && MayAllFollow(edits, lastStart, from) && lastStart <= from <= size
    requires FitsNext(edits[0], lastStart, from, size)
    ensures AllFit(edits[1..], edits[0].range.location, NextFrom(edits[0], lastStart, from), size)
       <==> AllFit(edits[1..], lastStart, from, size) && forall e :: e in edits[1..] ==> !Clashes(e, edits[0])
  {
    EditOrderTail(edits);
    var op := edits[0];
    assert MayFollow(op, lastStart, from);
    forall e | e in edits[1..]
      ensures FitsNext(e, op.range.location, NextFrom(op, lastStart, from), size)
         <==> FitsNext(e, lastStart, from, size) && !Clashes(e, op)
    {
      assert op.NotAfter(e) && MayFollow(e, lastStart, from);
    }
  }

  lemma {:induction false} FitsIffNoClash<T>(edits: seq<SequenceEdit<T>>, lastStart: int, from: nat, size: nat)
    requires MayAllFollow(edits, lastStart, from) && lastStart <= from <= size
    ensures Fits(edits, lastStart, from, size) <==> AllFit(edits, lastStart, from, size) && NoLaterClash(edits)
    decreases |edits|
  {
    if edits != [] {
      var op, rest := edits[0], edits[1..];
      TailMayFollow(edits, lastStart, from);
      assert AllFit(edits, lastStart, from, size)
             <==> FitsNext(op, lastStart, from, size) && AllFit(rest, lastStart, from, size) by {
        assert edits == [op] + rest;
      }
      NoLaterClashUnfolds(edits);
      if FitsNext(op, lastStart, from, size) {
        NextAllFit(edits, lastStart, from, size);
        hide MayAllFollow;
        hide AllFit;
        hide NoLaterClash;
        FitsIffNoClash(rest, op.range.location, NextFrom(op, lastStart, from), size);
      }
    }
  }

  lemma NoLaterClashUnfolds<T>(edits: seq<SequenceEdit<T>>)
    requires edits != []
    ensures NoLaterClash(edits) <==> NoLaterClash(edits[1..]) && forall e :: e in edits[1..] ==> !Clashes(e, edits[0])
  {
    if NoLaterClash(edits[1..]) && forall e :: e in edits[1..] ==> !Clashes(e, edits[0]) {
      forall i, j | 0 <= i < j < |edits| ensures !Clashes(edits[j], edits[i]) {
        if i == 0 {
          assert edits[j] in edits[1..];
        } else {
          assert !Clashes(edits[1..][j - 1], edits[1..][i - 1]);
        }
      }
    }
    if NoLaterClash(edits) {
      forall i, j | 0 <= i < j < |edits| - 1 ensures !Clashes(edits[1..][j], edits[1..][i]) {
        assert !Clashes(edits[j + 1], edits[i + 1]);
      }
    }
  }

  /** Without repetitions, fitting is the same as not clashing. */
  lemma FitsIffSeparate<T>(edits: seq<SequenceEdit<T>>, size: nat)
    requires InEditOrder(edits) && NoRepeat(edits) && forall e :: e in edits ==> e.WellFormed()
    ensures Fits(edits, -1, 0, size) <==> Separate(edits, size)
  {
    FitsIffNoClash(edits, -1, 0, size);
    if Separate(edits, size) {
      forall i, j | 0 <= i < j < |edits| ensures !Clashes(edits[j], edits[i]) {
        assert edits[i] in edits && edits[j] in edits;
      }
    }
    if AllFit(edits, -1, 0, size) && NoLaterClash(edits) {
      forall e, f | e in edits && f in edits ensures Same(e, f) || !Clashes(e, f) {
        var j, i :| 0 <= i < |edits| && 0 <= j < |edits| && edits[j] == e && edits[i] == f;
        if j < i {
          assert edits[j].NotAfter(edits[i]) && !Clashes(edits[i], edits[j]);
        }
      }
    }
  }

  // ----- Skipping equal neighbours leaves each edit once exactly if equal edits lie together -----

  /** Equal edits lie together. */
  ghost predicate Grouped<T>(edits: seq<SequenceEdit<T>>) {
    forall i, j, k :: 0 <= i < j < k < |edits| && Same(edits[i], edits[k]) ==> Same(edits[i], edits[j])
  }

  lemma {:induction false} DistinctKeeps<T>(edits: seq<SequenceEdit<T>>, e: SequenceEdit<T>)
    requires e in edits && forall f :: f in edits ==> f.WellFormed()
    ensures Repeats(Distinct(edits), e)
  {
    if |edits| > 1 && EqualIgnoringSource(edits[0], edits[1]) {
      EqualIsSame(edits[0], edits[1]);
      var e' := if e == edits[0] then edits[1] else e;
      DistinctKeeps(edits[1..], e');
      var e'' :| e'' in Distinct(edits[1..]) && Same(e'', e');
      assert Same(e'', e);
    } else if e == edits[0] {
      assert Same(e, e);
    } else {
      DistinctKeeps(edits[1..], e);
    }
  }

  lemma DistinctCovers<T>(edits: seq<SequenceEdit<T>>)
    requires forall e :: e in edits ==> e.WellFormed()
    ensures CoveredBy(edits, Distinct(edits)) && CoveredBy(Distinct(edits), edits)
  {
    forall e | e in edits ensures Repeats(Distinct(edits), e) {
      DistinctKeeps(edits, e);
    }
    forall e | e in Distinct(edits) ensures Repeats(edits, e) {
      assert Same(e, e);
    }
  }

  lemma GroupedAfterEqual<T>(edits: seq<SequenceEdit<T>>)
    requires |edits| > 1 && Same(edits[0], edits[1])
    ensures Grouped(edits) <==> Grouped(edits[1..])
  {
    var rest := edits[1..];
    if Grouped(rest) {
      forall i, j, k | 0 <= i < j < k < |edits| && Same(edits[i], edits[k]) ensures Same(edits[i], edits[j]) {
        if 0 < i {
          assert Same(rest[i - 1], rest[k - 1]);
          assert Same(rest[i - 1], rest[j - 1]);
        } else if 1 < j {
          assert Same(rest[0], rest[k - 1]);
          assert Same(rest[0], rest[j - 1]);
        }
      }
    }
    if Grouped(edits) {
      GroupedTail(edits);
    }
  }

  lemma GroupedTail<T>(edits: seq<SequenceEdit<T>>)
    requires edits != [] && Grouped(edits)
    ensures Grouped(edits[1..])
  {
    var rest := edits[1..];
    forall i, j, k | 0 <= i < j < k < |rest| && Same(rest[i], rest[k]) ensures Same(rest[i], rest[j]) {
      assert Same(edits[i + 1], edits[k + 1]);
      assert Same(edits[i + 1], edits[j + 1]);
    }
  }

  lemma GroupedAfterDifferent<T>(edits: seq<SequenceEdit<T>>)
    requires edits != [] && (|edits| > 1 ==> !Same(edits[0], edits[1]))
    ensures Grouped(edits) <==> Grouped(edits[1..]) && !Repeats(edits[1..], edits[0])
  {
    var rest := edits[1..];
    if Grouped(rest) && !Repeats(rest, edits[0]) {
      forall i, j, k | 0 <= i < j < k < |edits| && Same(edits[i], edits[k]) ensures Same(edits[i], edits[j]) {
        assert rest[j - 1] == edits[j] && rest[k - 1] == edits[k] && rest[k - 1] in rest;
        if 0 < i {
          assert Same(rest[i - 1], rest[k - 1]);
          assert Same(rest[i - 1], rest[j - 1]);
        }
      }
    }
    if Grouped(edits) {
      GroupedTail(edits);
      forall e | e in rest ensures !Same(e, edits[0]) {
        var k :| 1 <= k < |edits| && edits[k] == e;
        assert !Same(edits[0], edits[1]);
        assert !Same(edits[0], edits[k]);
      }
    }
  }

  lemma NoRepeatCons<T>(edit: SequenceEdit<T>, edits: seq<SequenceEdit<T>>)
    ensures NoRepeat([edit] + edits) <==> NoRepeat(edits) && !Repeats(edits, edit)
  {
    var all := [edit] + edits;
    if NoRepeat(all) {
      forall i, j | 0 <= i < j < |edits| ensures !Same(edits[i], edits[j]) {
        assert !Same(all[i + 1], all[j + 1]);
      }
      forall e | e in edits ensures !Same(e, edit) {
        var k :| 0 <= k < |edits| && edits[k] == e;
        assert !Same(all[0], all[k + 1]);
      }
    }
    if NoRepeat(edits) && !Repeats(edits, edit) {
      forall i, j | 0 <= i < j < |all| ensures !Same(all[i], all[j]) {
        assert all[j] == edits[j - 1] && edits[j - 1] in edits && !Same(edits[j - 1], edit);
        if 0 < i {
          assert !Same(edits[i - 1], edits[j - 1]);
        }
      }
    }
  }

  lemma RepeatsIfCovered<T>(edits: seq<SequenceEdit<T>>, others: seq<SequenceEdit<T>>, e: SequenceEdit<T>)
    requires Repeats(edits, e) && CoveredBy(edits, others)
    ensures Repeats(others, e)
  {
    var f :| f in edits && Same(f, e);
    var f' :| f' in others && Same(f', f);
    assert Same(f', e);
  }

  lemma RepeatsAlike<T>(edits: seq<SequenceEdit<T>>, e: SequenceEdit<T>)
    requires forall f :: f in edits ==> f.WellFormed()
    ensures Repeats(Distinct(edits), e) <==> Repeats(edits, e)
  {
    DistinctCovers(edits);
    hide Distinct;
    if Repeats(edits, e) {
      RepeatsIfCovered(edits, Distinct(edits), e);
    }
    if Repeats(Distinct(edits), e) {
      RepeatsIfCovered(Distinct(edits), edits, e);
    }
  }

  lemma {:induction false} NoRepeatIffGrouped<T>(edits: seq<SequenceEdit<T>>)
    requires forall e :: e in edits ==> e.WellFormed()
    ensures NoRepeat(Distinct(edits)) <==> Grouped(edits)
  {
    if edits != [] {
      var rest := edits[1..];
      NoRepeatIffGrouped(rest);
      RepeatsAlike(rest, edits[0]);
      if |edits| > 1 {
        EqualIsSame(edits[0], edits[1]);
      }
      hide Grouped;
      hide NoRepeat;
      hide Repeats;
      hide Same;
      hide EqualIgnoringSource;
      if |edits| > 1 && Same(edits[0], edits[1]) {
        GroupedAfterEqual(edits);
      } else {
        GroupedAfterDifferent(edits);
        NoRepeatCons(edits[0], Distinct(rest));
      }
    }
  }

  // ----- When the promise is kept -----

  lemma SortingCovers<T>(sorted: seq<SequenceEdit<T>>, edits: seq<SequenceEdit<T>>)
    requires IsSortingOf(sorted, edits)
    ensures forall e :: e in sorted <==> e in edits
    ensures CoveredBy(edits, sorted) && CoveredBy(sorted, edits)
  {
    forall e ensures e in sorted <==> e in edits {
      assert e in multiset(sorted) <==> e in multiset(edits);
    }
    forall e | e in sorted ensures Repeats(sorted, e) && Repeats(edits, e) {
      assert Same(e, e);
    }
  }

  lemma {:induction false} DistinctIsSorted<T>(edits: seq<SequenceEdit<T>>)
    requires InEditOrder(edits)
    ensures InEditOrder(Distinct(edits))
  {
    if edits != [] {
      EditOrderTail(edits);
      DistinctIsSorted(edits[1..]);
      if |edits| == 1 || !EqualIgnoringSource(edits[0], edits[1]) {
        EditOrderCons(edits[0], Distinct(edits[1..]));
      }
    }
  }

  lemma StartsInProgress<T>(edits: seq<SequenceEdit<T>>, size: nat)
    requires InEditOrder(edits) && forall e :: e in edits ==> e.WellFormed()
    ensures Progress(Originals(0, size), [], [], 0, 0, -1, 0, size)
    ensures MayAllFollow(edits, -1, 0)
  {
  }

  /** Each different edit is carried out once, on the elements it is about, if and only if no two
      of them clash and the sort left equal edits together. */
  lemma KeepsPromiseIff<T>(edits: seq<SequenceEdit<T>>, sorted: seq<SequenceEdit<T>>, size: nat)
    requires IsSortingOf(sorted, edits) && forall e :: e in edits ==> e.WellFormed()
    ensures KeepsPromise(sorted, size) <==> Separate(edits, size) && Grouped(sorted)
  {
    hide Same;
    hide Clashes;
    SortingCovers(sorted, edits);
    var distinct := Distinct(sorted);
    NoRepeatIffGrouped(sorted);
    DistinctIsSorted(sorted);
    StartsInProgress(distinct, size);
    InPlaceIffFits(Originals(0, size), distinct, [], [], 0, 0, -1, 0, size);
    hide *;
    if NoRepeat(distinct) {
      FitsIffSeparate(distinct, size);
      SeparateAlike(sorted, edits, size);
    }
  }

  lemma SeparateAlike<T>(sorted: seq<SequenceEdit<T>>, edits: seq<SequenceEdit<T>>, size: nat)
    requires IsSortingOf(sorted, edits) && forall e :: e in sorted ==> e.WellFormed()
    ensures Separate(Distinct(sorted), size) <==> Separate(edits, size)
  {
    SortingCovers(sorted, edits);
    DistinctCovers(sorted);
    hide *;
    if Separate(edits, size) {
      SeparateIfCovered(sorted, edits, size);
      SeparateIfCovered(Distinct(sorted), sorted, size);
    }
    if Separate(Distinct(sorted), size) {
      SeparateIfCovered(sorted, Distinct(sorted), size);
      SeparateIfCovered(edits, sorted, size);
    }
  }

  // ----- Whatever order the sort leaves -----

  /** The same edit occurs more than once, perhaps from another source. */
  ghost predicate Twice<T>(edits: seq<SequenceEdit<T>>, e: SequenceEdit<T>) {
    multiset(edits)[e] >= 2 || exists f :: f in edits && f != e && Same(f, e)
  }

  /** Where an insertion occurs twice, nothing else is inserted. */
  ghost predicate Untangled<T>(edits: seq<SequenceEdit<T>>) {
    forall e, f, p :: e in edits && f in edits && e.InsertsAt(p) && f.InsertsAt(p) && Twice(edits, e) ==> Same(e, f)
  }

  lemma TwoPositions<T>(edits: seq<SequenceEdit<T>>, i: nat, k: nat)
    requires i < k < |edits| && Same(edits[i], edits[k])
    ensures Twice(edits, edits[i])
  {
    if edits[i] == edits[k] {
      assert edits == edits[..k] + edits[k..];
      assert edits[i] == edits[..k][i] && edits[k] == edits[k..][0];
      assert multiset(edits)[edits[i]] == multiset(edits[..k])[edits[i]] + multiset(edits[k..])[edits[i]];
    } else {
      assert Same(edits[k], edits[i]);
    }
  }

  lemma {:induction false} PositionsOf<T>(edits: seq<SequenceEdit<T>>, e: SequenceEdit<T>) returns (i: nat, k: nat)
    requires e in edits && Twice(edits, e)
    ensures i < |edits| && k < |edits| && i != k && Same(edits[i], e) && Same(edits[k], e)
  {
    i :| 0 <= i < |edits| && edits[i] == e;
    if f :| f in edits && f != e && Same(f, e) {
      k :| 0 <= k < |edits| && edits[k] == f;
    } else {
      assert edits == edits[..i] + [e] + edits[i + 1..];
      assert e in multiset(edits[..i]) + multiset(edits[i + 1..]);
      if e in edits[..i] {
        k :| 0 <= k < i && edits[k] == e;
      } else {
        k :| i + 1 <= k < |edits| && edits[k] == e;
      }
    }
  }

  lemma GroupedIfUntangled<T>(edits: seq<SequenceEdit<T>>, size: nat)
    requires InEditOrder(edits) && Separate(edits, size) && Untangled(edits)
    requires forall e :: e in edits ==> e.WellFormed()
    ensures Grouped(edits)
  {
    forall i, j, k | 0 <= i < j < k < |edits| && Same(edits[i], edits[k]) ensures Same(edits[i], edits[j]) {
      var e, f := edits[i], edits[j];
      assert e in edits && f in edits && e.NotAfter(f) && f.NotAfter(edits[k]);
      assert f.range.location == e.range.location;
      if e.kind == SequenceInsertion {
        TwoPositions(edits, i, k);
        assert e.InsertsAt(e.range.location) && f.InsertsAt(e.range.location);
      } else {
        assert Clashes(e, f);
      }
    }
  }

  /** Edits that compare as equal may change places. */
  lemma SwapTies<T>(edits: seq<SequenceEdit<T>>, i: nat, j: nat) returns (swapped: seq<SequenceEdit<T>>)
    requires InEditOrder(edits) && i < j < |edits|
    requires edits[i].range.location == edits[j].range.location && edits[i].SortOrder() == edits[j].SortOrder()
    ensures swapped == edits[i := edits[j]][j := edits[i]] && IsSortingOf(swapped, edits)
  {
    swapped := edits[i := edits[j]][j := edits[i]];
    assert multiset(swapped)
        == multiset(edits) - multiset{edits[i]} + multiset{edits[j]} - multiset{edits[j]} + multiset{edits[i]};
    forall m, n | 0 <= m < n < |swapped| ensures swapped[m].NotAfter(swapped[n]) {
      assert m == i || m == j || swapped[m] == edits[m];
      assert n == i || n == j || swapped[n] == edits[n];
      assert edits[i].NotAfter(edits[j]) && edits[j].NotAfter(edits[i]);
      assert m != i ==> edits[m].NotAfter(edits[n]);
      assert m < j ==> edits[m].NotAfter(edits[j]);
      assert i < n ==> edits[i].NotAfter(edits[n]);
    }
  }

  /** Three tied insertions, two of them the same and one different. */
  ghost predicate AreTangled<T>(edits: seq<SequenceEdit<T>>, i: nat, j: nat, k: nat) {
    && i < k < |edits| && j < |edits|
    && Same(edits[i], edits[k]) && !Same(edits[i], edits[j])
    && edits[i].range.location == edits[j].range.location == edits[k].range.location
    && edits[i].SortOrder() == edits[j].SortOrder() == edits[k].SortOrder()
  }

  lemma TangledInsertionsOf<T>(edits: seq<SequenceEdit<T>>) returns (i: nat, j: nat, k: nat)
    requires !Untangled(edits)
    ensures AreTangled(edits, i, j, k)
  {
    var e, f, p :| e in edits && f in edits && e.InsertsAt(p) && f.InsertsAt(p) && Twice(edits, e) && !Same(e, f);
    i, k := PositionsOf(edits, e);
    if k < i {
      i, k := k, i;
    }
    j :| 0 <= j < |edits| && edits[j] == f;
    hide Twice;
    hide Untangled;
  }

  lemma TangledAt<T>(sorted: seq<SequenceEdit<T>>, i: nat, j: nat, k: nat) returns (tangled: seq<SequenceEdit<T>>)
    requires InEditOrder(sorted) && AreTangled(sorted, i, j, k)
    ensures IsSortingOf(tangled, sorted) && !Grouped(tangled)
  {
    SameBothWays(sorted[i], sorted[k], sorted[j]);
    hide InEditOrder;
    hide Same;
    hide Grouped;
    if j < i {
      tangled := SwapTies(sorted, j, i);
      NotGrouped(tangled, j, i, k);
    } else if k < j {
      tangled := SwapTies(sorted, k, j);
      NotGrouped(tangled, i, k, j);
    } else {
      tangled := sorted;
      NotGrouped(tangled, i, j, k);
    }
  }

  lemma SameBothWays<T>(e: SequenceEdit<T>, e': SequenceEdit<T>, f: SequenceEdit<T>)
    requires Same(e, e') && !Same(e, f)
    ensures Same(e', e) && !Same(e', f) && !Same(f, e) && e != f && e' != f
  {
  }

  lemma TangledSorting<T>(sorted: seq<SequenceEdit<T>>) returns (tangled: seq<SequenceEdit<T>>)
    requires InEditOrder(sorted) && !Untangled(sorted)
    ensures IsSortingOf(tangled, sorted) && !Grouped(tangled)
  {
    hide *;
    var i, j, k := TangledInsertionsOf(sorted);
    tangled := TangledAt(sorted, i, j, k);
  }

  lemma NotGrouped<T>(edits: seq<SequenceEdit<T>>, i: nat, j: nat, k: nat)
    requires i < j < k < |edits| && Same(edits[i], edits[k]) && !Same(edits[i], edits[j])
    ensures !Grouped(edits)
  {
  }

  lemma UntangledAlike<T>(sorted: seq<SequenceEdit<T>>, edits: seq<SequenceEdit<T>>)
    requires IsSortingOf(sorted, edits)
    ensures Untangled(sorted) <==> Untangled(edits)
  {
    SortingCovers(sorted, edits);
    hide InEditOrder;
    hide CoveredBy;
    assert forall e :: Twice(sorted, e) <==> Twice(edits, e);
  }

  /** However the sort orders what it may, the promise is kept: exactly if no two different edits
      clash, and no insertion occurs twice where something else is inserted. */
  lemma AlwaysKeepsPromiseIff<T>(edits: seq<SequenceEdit<T>>, size: nat)
    requires forall e :: e in edits ==> e.WellFormed()
    ensures (forall sorted :: IsSortingOf(sorted, edits) ==> KeepsPromise(sorted, size))
       <==> Separate(edits, size) && Untangled(edits)
  {
    hide *;
    var one := Sorted(edits);
    KeepsPromiseIff(edits, one, size);
    if Separate(edits, size) && Untangled(edits) {
      forall sorted | IsSortingOf(sorted, edits) ensures KeepsPromise(sorted, size) {
        SortingSeparate(edits, sorted, size);
        UntangledAlike(sorted, edits);
        GroupedIfUntangled(sorted, size);
        KeepsPromiseIff(edits, sorted, size);
      }
    } else if Separate(edits, size) {
      UntangledAlike(one, edits);
      SortingSeparate(edits, one, size);
      var tangled := TangledSorting(one);
      SortingAgain(edits, one, tangled);
      KeepsPromiseIff(edits, tangled, size);
    }
  }

  lemma SortingSeparate<T>(edits: seq<SequenceEdit<T>>, sorted: seq<SequenceEdit<T>>, size: nat)
    requires IsSortingOf(sorted, edits) && Separate(edits, size) && forall e :: e in edits ==> e.WellFormed()
    ensures InEditOrder(sorted) && Separate(sorted, size) && forall e :: e in sorted ==> e.WellFormed()
  {
    SortingCovers(sorted, edits);
    hide InEditOrder;
    hide Separate;
    SeparateIfCovered(sorted, edits, size);
  }

  lemma SortingAgain<T>(edits: seq<SequenceEdit<T>>, sorted: seq<SequenceEdit<T>>, again: seq<SequenceEdit<T>>)
    requires IsSortingOf(sorted, edits) && IsSortingOf(again, sorted)
    ensures IsSortingOf(again, edits)
  {
  }

  // ----- What is promised gives what the edits mean -----

  /** Where no edit acts, elements are copied. */
  lemma {:induction false} EditedSkips<T>(a: seq<T>, edits: seq<SequenceEdit<T>>, p: nat, q: nat)
    requires p < q <= |a|
    requires forall e :: e in edits ==> e.InsertsAt(p) || e.range.location < p || q <= e.range.location
    ensures EditedBehind(a, edits, p) == a[p..q] + Edited(a, edits, q)
    decreases q - p
  {
    assert ReplacementAt(edits, p).None?;
    hide ReplacementAt;
    hide Edited;
    EditedCopying(a, edits, p);
    if p + 1 < q {
      EditedSkips(a, edits, p + 1, q);
      EditedParts(a, edits, p + 1);
      NothingInserted(edits, p + 1);
      assert a[p..q] == [a[p]] + a[p + 1..q];
    } else {
      assert a[p..q] == [a[p]];
    }
  }

  /** An edit that acts only before `p`, or inserts at `p`, does not matter behind `p`. */
  lemma EditedDrops<T>(a: seq<T>, edits: seq<SequenceEdit<T>>, p: nat)
    requires edits != [] && edits[0].range.location <= p && !edits[0].ReplacesAt(p)
    ensures EditedBehind(a, edits, p) == EditedBehind(a, edits[1..], p)
    ensures edits[0].range.location < p ==> Edited(a, edits, p) == Edited(a, edits[1..], p)
  {
    forall q | p < q || edits[0].range.location < p == q ensures InsertedAt(edits, q) == InsertedAt(edits[1..], q) {
      NotInserting(edits, q);
    }
    forall q | p <= q ensures ActAlike(ReplacementAt(edits, q), ReplacementAt(edits[1..], q)) {
      NotReplacing(edits, q);
    }
    hide InsertedAt;
    hide ReplacementAt;
    hide EditedBehind;
    EditedAlike(a, edits, edits[1..], p);
  }

  /** What follows the elements brought by the edits at the last location, apart from what is
      inserted there. */
  ghost function Rest<T>(a: seq<T>, edits: seq<SequenceEdit<T>>, lastStart: int, from: nat): seq<T> {
    if from == lastStart then EditedBehind(a, edits, from) else Edited(a, edits, from)
  }

  lemma {:induction false} NoEditsLeft<T>(a: seq<T>, lastStart: int, from: nat)
    requires from <= |a|
    ensures InsertedAt<T>([], lastStart) == [] && Rest(a, [], lastStart, from) == a[from..]
  {
    if from < |a| {
      EditedSkips(a, [], from, |a|);
    }
    EditedPastEnd(a, [], |a|);
  }

  lemma FirstInserts<T>(edits: seq<SequenceEdit<T>>, p: int)
    requires edits != [] && NoRepeat(edits) && edits[0].InsertsAt(p)
    ensures InsertedAt(edits, p) == InsertedAt(edits[1..], p) + edits[0].objects
  {
    forall e | e in edits[1..] ensures !Same(e, edits[0]) {
      var k :| 1 <= k < |edits| && edits[k] == e;
      assert !Same(edits[0], edits[k]);
    }
  }

  lemma InsertionUnfolds<T>(a: seq<T>, edits: seq<SequenceEdit<T>>, l: nat)
    requires edits != [] && NoRepeat(edits) && edits[0].WellFormed() && edits[0].InsertsAt(l)
    ensures Edited(a, edits, l) == InsertedAt(edits[1..], l) + edits[0].objects + Rest(a, edits[1..], l, l)
  {
    hide InsertedAt;
    hide EditedBehind;
    hide NoRepeat;
    FirstInserts(edits, l);
    EditedDrops(a, edits, l);
  }

  lemma FirstReplaces<T>(a: seq<T>, edits: seq<SequenceEdit<T>>, l: nat)
    requires edits != [] && edits[0].ReplacesAt(l) && edits[0].range.End() <= |a|
    ensures var end := edits[0].range.End();
            && l < |a| && l < end && end == l + edits[0].range.length && !edits[0].ReplacesAt(end)
            && ReplacementAt(edits, l) == Some(edits[0])
            && InsertedAt(edits, l) == InsertedAt(edits[1..], l)
            && Rest(a, edits[1..], l, end) == Edited(a, edits[1..], end)
            && edits[0].range.location == l
  {
    NotInserting(edits, l);
    hide InsertedAt;
    hide Edited;
    hide EditedBehind;
  }

  lemma ReplacementUnfolds<T>(a: seq<T>, edits: seq<SequenceEdit<T>>, l: nat)
    requires edits != [] && edits[0].ReplacesAt(l) && edits[0].range.End() <= |a|
    ensures Edited(a, edits, l)
         == InsertedAt(edits[1..], l) + edits[0].objects + Rest(a, edits[1..], l, edits[0].range.End())
  {
    FirstReplaces(a, edits, l);
    hide *;
    EditedParts(a, edits, l);
    EditedReplacing(a, edits, l);
    EditedDrops(a, edits, edits[0].range.End());
    Associate(InsertedAt(edits[1..], l), edits[0].objects, Edited(a, edits[1..], edits[0].range.End()));
  }

  /** What the first edit, at a new location, contributes. */
  lemma RestUnfolds<T>(a: seq<T>, edits: seq<SequenceEdit<T>>, lastStart: int, from: nat)
    requires edits != [] && NoRepeat(edits) && edits[0].WellFormed()
    requires lastStart <= from && from <= edits[0].range.location && lastStart < edits[0].range.location
    requires edits[0].range.End() <= |a| && forall e :: e in edits ==> edits[0].range.location <= e.range.location
    ensures var op := edits[0];
            var l := op.range.location;
            Rest(a, edits, lastStart, from)
            == a[from..l] + (InsertedAt(edits[1..], l) + op.objects + Rest(a, edits[1..], l, op.range.End()))
  {
    var op := edits[0];
    var l := op.range.location;
    RestSkips(a, edits, lastStart, from, l);
    hide Rest;
    hide Edited;
    hide InsertedAt;
    hide NoRepeat;
    if op.kind == SequenceInsertion {
      InsertionUnfolds(a, edits, l);
    } else {
      ReplacementUnfolds(a, edits, l);
    }
  }

  lemma RestSkips<T>(a: seq<T>, edits: seq<SequenceEdit<T>>, lastStart: int, from: nat, l: nat)
    requires lastStart <= from <= l <= |a| && lastStart < l
    requires forall e :: e in edits ==> l <= e.range.location
    ensures Rest(a, edits, lastStart, from) == a[from..l] + Edited(a, edits, l)
  {
    hide EditedBehind;
    hide InsertedAt;
    if from < l {
      EditedSkips(a, edits, from, l);
      NothingInserted(edits, from);
    }
  }

  /** The array in progress, as elements: what the run has done before the last location, what the
      edits there brought, and the elements of the original from `from` on. */
  ghost predicate Halfway<T>(a: seq<T>, now: seq<T>, done: seq<T>, last: seq<T>, i: int, nextI: int, lastStart: int,
                             from: nat) {
    && lastStart <= from <= |a|
    && now == done + last + a[from..]
    && |done| + |last| == from + nextI
    && (if lastStart < 0 then done == [] && last == [] else |done| == lastStart + i)
  }

  lemma MoreChanged<T>(a: seq<T>, now: seq<T>, op: SequenceEdit<T>, done: seq<T>, last: seq<T>, i: int, nextI: int,
                       lastStart: int, from: nat)
    requires Halfway(a, now, done, last, i, nextI, lastStart, from)
    requires op.InsertsAt(lastStart)
    ensures var after := done + (op.objects + last) + a[from..];
            && AfterEdit(now, op, lastStart + i) == Some(after)
            && Halfway(a, after, done, op.objects + last, i, nextI + Growth(op), lastStart, from)
  {
    assert now[..|done|] == done && now[|done|..] == last + a[from..];
    assert done + op.objects + (last + a[from..]) == done + (op.objects + last) + a[from..];
    assert [] + last == last;
  }

  lemma NextChanged<T>(a: seq<T>, now: seq<T>, op: SequenceEdit<T>, done: seq<T>, last: seq<T>, i: int, nextI: int,
                       lastStart: int, from: nat)
    requires Halfway(a, now, done, last, i, nextI, lastStart, from) && op.WellFormed()
    requires lastStart < op.range.location && from <= op.range.location && op.range.End() <= |a|
    ensures var l := op.range.location;
            var front := done + last + a[from..l];
            var after := front + op.objects + a[op.range.End()..];
            && AfterEdit(now, op, l + nextI) == Some(after)
            && Halfway(a, after, front, op.objects, nextI, nextI + Growth(op), l, op.range.End())
  {
    var l, end := op.range.location, op.range.End();
    var front := done + last + a[from..l];
    HalfwayParts(a, now, done, last, from, l, end);
    assert |front| == l + nextI;
    HalfwayOn(a, front, op, nextI);
    hide Halfway;
    ChangedBetween(now, front, a[l..end], a[end..], op);
  }

  lemma HalfwayParts<T>(a: seq<T>, now: seq<T>, done: seq<T>, last: seq<T>, from: nat, l: nat, end: nat)
    requires from <= l <= end <= |a| && now == done + last + a[from..]
    ensures now == done + last + a[from..l] + a[l..end] + a[end..]
  {
    assert a[from..] == a[from..l] + a[l..end] + a[end..];
    assert done + last + (a[from..l] + a[l..end] + a[end..]) == done + last + a[from..l] + a[l..end] + a[end..];
  }

  lemma HalfwayOn<T>(a: seq<T>, front: seq<T>, op: SequenceEdit<T>, nextI: int)
    requires op.WellFormed() && op.range.End() <= |a| && |front| == op.range.location + nextI
    ensures Halfway(a, front + op.objects + a[op.range.End()..], front, op.objects,
                    nextI, nextI + Growth(op), op.range.location, op.range.End())
  {
  }

  lemma ChangedBetween<T>(now: seq<T>, front: seq<T>, middle: seq<T>, back: seq<T>, op: SequenceEdit<T>)
    requires now == front + middle + back && |middle| == op.range.length && op.WellFormed()
    ensures AfterEdit(now, op, |front|) == Some(front + op.objects + back)
  {
    assert now[..|front|] == front && now[|front| + |middle|..] == back;
    assert (front + back)[..|front|] == front && (front + back)[|front|..] == back;
    assert front + [] + back == front + back;
    assert op.range.length == 0 ==> middle == [];
  }

  lemma NoRepeatTail<T>(edits: seq<SequenceEdit<T>>)
    requires NoRepeat(edits) && edits != []
    ensures NoRepeat(edits[1..])
  {
    forall i, j | 0 <= i < j < |edits| - 1 ensures !Same(edits[1..][i], edits[1..][j]) {
      assert !Same(edits[i + 1], edits[j + 1]);
    }
  }

  lemma RestMore<T>(a: seq<T>, edits: seq<SequenceEdit<T>>, lastStart: int, from: nat)
    requires edits != [] && edits[0].InsertsAt(lastStart) && lastStart <= from
    ensures Rest(a, edits, lastStart, from) == Rest(a, edits[1..], lastStart, from)
  {
    hide EditedBehind;
    hide InsertedAt;
    EditedDrops(a, edits, from);
  }

  lemma FirstIsFirst<T>(edits: seq<SequenceEdit<T>>, lastStart: int, from: nat)
    requires MayAllFollow(edits, lastStart, from) && edits != []
    ensures edits[0].WellFormed() && lastStart <= edits[0].range.location
    ensures forall e :: e in edits ==> edits[0].range.location <= e.range.location
  {
    EditOrderTail(edits);
    assert MayFollow(edits[0], lastStart, from);
  }

  /** The result does not change when an edit moves from what is left to what is done. */
  lemma ResultMore<T>(a: seq<T>, edits: seq<SequenceEdit<T>>, done: seq<T>, last: seq<T>, lastStart: int, from: nat)
    requires edits != [] && NoRepeat(edits) && edits[0].InsertsAt(lastStart) && lastStart <= from
    ensures done + InsertedAt(edits, lastStart) + last + Rest(a, edits, lastStart, from)
         == done + InsertedAt(edits[1..], lastStart) + (edits[0].objects + last) + Rest(a, edits[1..], lastStart, from)
  {
    FirstInserts(edits, lastStart);
    RestMore(a, edits, lastStart, from);
    hide InsertedAt;
    hide Rest;
    Associate(InsertedAt(edits[1..], lastStart), edits[0].objects, last);
  }

  lemma ResultNext<T>(a: seq<T>, edits: seq<SequenceEdit<T>>, done: seq<T>, last: seq<T>, lastStart: int, from: nat)
    requires edits != [] && NoRepeat(edits) && MayAllFollow(edits, lastStart, from)
    requires lastStart < edits[0].range.location && lastStart <= from && FitsNext(edits[0], lastStart, from, |a|)
    ensures var op := edits[0];
            var l := op.range.location;
            done + InsertedAt(edits, lastStart) + last + Rest(a, edits, lastStart, from)
            == done + last + a[from..l] + InsertedAt(edits[1..], l) + op.objects
            + Rest(a, edits[1..], l, op.range.End())
  {
    FirstIsFirst(edits, lastStart, from);
    NextIsBehind(edits, lastStart, from, |a|);
    NothingInserted(edits, lastStart);
    hide *;
    RestUnfolds(a, edits, lastStart, from);
    var l := edits[0].range.location;
    SixParts(done, last, a[from..l], InsertedAt(edits[1..], l), edits[0].objects,
             Rest(a, edits[1..], l, edits[0].range.End()));
  }

  lemma NextIsBehind<T>(edits: seq<SequenceEdit<T>>, lastStart: int, from: nat, size: nat)
    requires edits != [] && lastStart < edits[0].range.location && FitsNext(edits[0], lastStart, from, size)
    requires forall e :: e in edits ==> edits[0].range.location <= e.range.location
    ensures from <= edits[0].range.location && edits[0].range.End() <= size
    ensures forall e :: e in edits ==> !e.InsertsAt(lastStart)
  {
  }

  lemma SixParts<T>(a: seq<T>, b: seq<T>, c: seq<T>, d: seq<T>, e: seq<T>, f: seq<T>)
    ensures a + [] + b + (c + (d + e + f)) == a + b + c + d + e + f
  {
    assert a + [] == a;
    Associate(a + b, c, d + e + f);
    Associate(a + b + c, d + e, f);
    Associate(a + b + c, d, e);
  }

  lemma RunStep<T>(now: seq<T>, edits: seq<SequenceEdit<T>>, i: int, nextI: int, lastStart: int, offset: int,
                   after: seq<T>)
    requires edits != [] && offset == Offset(edits[0], i, nextI, lastStart)
    requires AfterEdit(now, edits[0], edits[0].range.location + offset) == Some(after)
    ensures AfterEdits(now, edits, i, nextI, lastStart)
         == AfterEdits(after, edits[1..], offset, nextI + Growth(edits[0]), edits[0].range.location)
  {
  }

  /** What edits that fit leave, while some are still to be applied. */
  ghost function ResultOf<T>(a: seq<T>, edits: seq<SequenceEdit<T>>, done: seq<T>, last: seq<T>, lastStart: int,
                             from: nat): seq<T> {
    done + InsertedAt(edits, lastStart) + last + Rest(a, edits, lastStart, from)
  }

  /** One more insertion at the location of the edit before. */
  lemma MoreGivesEdited<T>(a: seq<T>, now: seq<T>, edits: seq<SequenceEdit<T>>, done: seq<T>, last: seq<T>,
                           i: int, nextI: int, lastStart: int, from: nat)
    returns (after: seq<T>)
    requires edits != [] && edits[0].InsertsAt(lastStart) && NoRepeat(edits)
    requires Halfway(a, now, done, last, i, nextI, lastStart, from)
    ensures Halfway(a, after, done, edits[0].objects + last, i, nextI + Growth(edits[0]), lastStart, from)
    ensures AfterEdits(now, edits, i, nextI, lastStart)
         == AfterEdits(after, edits[1..], i, nextI + Growth(edits[0]), lastStart)
    ensures ResultOf(a, edits, done, last, lastStart, from)
         == ResultOf(a, edits[1..], done, edits[0].objects + last, lastStart, from)
  {
    var op := edits[0];
    after := done + (op.objects + last) + a[from..];
    assert lastStart <= from;
    MoreChanged(a, now, op, done, last, i, nextI, lastStart, from);
    ResultMore(a, edits, done, last, lastStart, from);
    hide Halfway;
    hide AfterEdit;
    RunStep(now, edits, i, nextI, lastStart, i, after);
    hide AfterEdits;
    hide InsertedAt;
    hide Rest;
  }

  /** An edit at a new location. */
  lemma NextGivesEdited<T>(a: seq<T>, now: seq<T>, edits: seq<SequenceEdit<T>>, done: seq<T>, last: seq<T>,
                           i: int, nextI: int, lastStart: int, from: nat)
    returns (after: seq<T>)
    requires edits != [] && lastStart < edits[0].range.location
    requires FitsNext(edits[0], lastStart, from, |a|) && NoRepeat(edits) && MayAllFollow(edits, lastStart, from)
    requires Halfway(a, now, done, last, i, nextI, lastStart, from)
    ensures var op := edits[0];
            var l := op.range.location;
            && from <= l <= |a|
            && Halfway(a, after, done + last + a[from..l], op.objects, nextI, nextI + Growth(op), l, op.range.End())
            && AfterEdits(now, edits, i, nextI, lastStart)
               == AfterEdits(after, edits[1..], nextI, nextI + Growth(op), l)
            && ResultOf(a, edits, done, last, lastStart, from)
               == ResultOf(a, edits[1..], done + last + a[from..l], op.objects, l, op.range.End())
  {
    var op := edits[0];
    var l := op.range.location;
    after := done + last + a[from..l] + op.objects + a[op.range.End()..];
    FirstIsFirst(edits, lastStart, from);
    assert lastStart <= from;
    NextChanged(a, now, op, done, last, i, nextI, lastStart, from);
    hide Halfway;
    hide AfterEdit;
    ResultNext(a, edits, done, last, lastStart, from);
    RunStep(now, edits, i, nextI, lastStart, nextI, after);
    hide AfterEdits;
    hide InsertedAt;
    hide Rest;
    hide MayAllFollow;
    hide NoRepeat;
  }

  lemma NothingGivesEdited<T>(a: seq<T>, now: seq<T>, done: seq<T>, last: seq<T>, i: int, nextI: int, lastStart: int,
                              from: nat)
    requires Halfway(a, now, done, last, i, nextI, lastStart, from)
    ensures AfterEdits(now, [], i, nextI, lastStart) == Some(ResultOf(a, [], done, last, lastStart, from))
  {
    NoEditsLeft(a, lastStart, from);
    hide Rest;
    hide InsertedAt;
    assert done + [] + last + a[from..] == now;
  }

  /** Edits that fit leave what they mean. */
  lemma {:induction false} RunGivesEdited<T>(a: seq<T>, now: seq<T>, edits: seq<SequenceEdit<T>>, done: seq<T>,
                                             last: seq<T>, i: int, nextI: int, lastStart: int, from: nat)
    requires Halfway(a, now, done, last, i, nextI, lastStart, from)
    requires Fits(edits, lastStart, from, |a|) && NoRepeat(edits) && MayAllFollow(edits, lastStart, from)
    ensures AfterEdits(now, edits, i, nextI, lastStart) == Some(ResultOf(a, edits, done, last, lastStart, from))
    decreases |edits|
  {
    hide Halfway;
    hide AfterEdits;
    hide ResultOf;
    hide NoRepeat;
    hide MayAllFollow;
    if edits == [] {
      NothingGivesEdited(a, now, done, last, i, nextI, lastStart, from);
    } else {
      var op := edits[0];
      var l := op.range.location;
      TailMayFollow(edits, lastStart, from);
      FirstIsFirst(edits, lastStart, from);
      NoRepeatTail(edits);
      if l == lastStart {
        var after := MoreGivesEdited(a, now, edits, done, last, i, nextI, lastStart, from);
        RunGivesEdited(a, after, edits[1..], done, op.objects + last, i, nextI + Growth(op), l, from);
      } else {
        var after := NextGivesEdited(a, now, edits, done, last, i, nextI, lastStart, from);
        RunGivesEdited(a, after, edits[1..], done + last + a[from..l], op.objects, nextI, nextI + Growth(op), l,
                       op.range.End());
      }
    }
  }

  /** What a sorted list means is what it means without the false conflicts. */
  lemma DistinctMeansSame<T>(a: seq<T>, sorted: seq<SequenceEdit<T>>)
    requires InEditOrder(sorted) && Separate(sorted, |a|) && forall e :: e in sorted ==> e.WellFormed()
    ensures Edited(a, Distinct(sorted), 0) == Edited(a, sorted, 0)
  {
    DistinctCovers(sorted);
    SeparateIfCovered(Distinct(sorted), sorted, |a|);
    forall q | 0 <= q ensures InsertedAt(Distinct(sorted), q) == InsertedAt(sorted, q) {
      DistinctInserts(sorted, q);
    }
    forall q | 0 <= q ensures ActAlike(ReplacementAt(Distinct(sorted), q), ReplacementAt(sorted, q)) {
      ReplacedAlike(Distinct(sorted), sorted, |a|, q);
    }
    hide *;
    EditedAlike(a, Distinct(sorted), sorted, 0);
    EditedParts(a, Distinct(sorted), 0);
    EditedParts(a, sorted, 0);
  }

  lemma {:induction false} DistinctInserts<T>(edits: seq<SequenceEdit<T>>, p: int)
    requires forall e :: e in edits ==> e.WellFormed()
    ensures InsertedAt(Distinct(edits), p) == InsertedAt(edits, p)
  {
    if edits != [] {
      var rest := edits[1..];
      DistinctInserts(rest, p);
      RepeatsAlike(rest, edits[0]);
      if |edits| > 1 && EqualIgnoringSource(edits[0], edits[1]) {
        EqualIsSame(edits[0], edits[1]);
        assert Same(edits[1], edits[0]) && edits[1] in rest;
      } else {
        assert ([edits[0]] + Distinct(rest))[1..] == Distinct(rest);
        hide Repeats;
      }
    }
  }

  /** If the promise is kept, the array ends as all edits carried out at once leave it. */
  lemma PromiseGivesEdited<T>(a: seq<T>, edits: seq<SequenceEdit<T>>, sorted: seq<SequenceEdit<T>>)
    requires IsSortingOf(sorted, edits) && forall e :: e in edits ==> e.WellFormed()
    requires KeepsPromise(sorted, |a|)
    ensures AfterEdits(a, Distinct(sorted), 0, 0, -1) == Some(Edited(a, sorted, 0))
  {
    hide Edited;
    hide AfterEdits;
    hide Halfway;
    var distinct := Distinct(sorted);
    KeepsPromiseIff(edits, sorted, |a|);
    SortingSeparate(edits, sorted, |a|);
    DistinctIsSorted(sorted);
    hide *;
    PromiseFits(sorted, |a|);
    StartsHalfway(a);
    RunGivesEdited(a, a, distinct, [], [], 0, 0, -1, 0);
    DistinctMeansSame(a, sorted);
    StartsResult(a, distinct);
  }

  lemma PromiseFits<T>(sorted: seq<SequenceEdit<T>>, size: nat)
    requires KeepsPromise(sorted, size) && InEditOrder(sorted) && forall e :: e in sorted ==> e.WellFormed()
    ensures Fits(Distinct(sorted), -1, 0, size) && NoRepeat(Distinct(sorted)) && MayAllFollow(Distinct(sorted), -1, 0)
  {
    DistinctIsSorted(sorted);
    StartsInProgress(Distinct(sorted), size);
    InPlaceIffFits(Originals(0, size), Distinct(sorted), [], [], 0, 0, -1, 0, size);
  }

  lemma StartsHalfway<T>(a: seq<T>)
    ensures Halfway(a, a, [], [], 0, 0, -1, 0)
  {
  }

  lemma StartsResult<T>(a: seq<T>, edits: seq<SequenceEdit<T>>)
    ensures ResultOf(a, edits, [], [], -1, 0) == Edited(a, edits, 0)
  {
    NothingInserted(edits, -1);
    hide InsertedAt;
    hide EditedBehind;
  }

  // ----- Applying edits to an array -----

  /** An array that can be changed in place; what lies outside it raises. */
  class MutableArray<T> {
    var elements: seq<T>

    constructor (initial: seq<T>)
      ensures elements == initial
    {
      elements := initial;
    }

    method InsertObjects(objects: seq<T>, location: int) returns (ok: bool)
      modifies this
      ensures ok == (objects == [] || 0 <= location <= |old(elements)|)
      ensures elements == if ok && objects != [] then old(elements)[..location] + objects + old(elements)[location..]
                          else old(elements)
    {
      if |objects| == 0 {
        return true;
      }
      if !(0 <= location <= |elements|) {
        return false;
      }
      elements := elements[..location] + objects + elements[location..];
      return true;
    }

    method RemoveObjects(location: int, length: nat) returns (ok: bool)
      modifies this
      ensures ok == (length == 0 || (0 <= location && location + length <= |old(elements)|))
      ensures elements == if ok && length != 0 then old(elements)[..location] + old(elements)[location + length..]
                          else old(elements)
    {
      if length == 0 {
        return true;
      }
      if !(0 <= location && location + length <= |elements|) {
        return false;
      }
      elements := elements[..location] + elements[location + length..];
      return true;
    }
  }

  /** Carries out one edit at an index of the array as it is now. */
  method ApplyEdit<T>(target: MutableArray<T>, op: SequenceEdit<T>, at: int) returns (ok: bool, grown: int)
    modifies target
    ensures ok <==> AfterEdit(old(target.elements), op, at).Some?
    ensures ok ==> grown == Growth(op) && AfterEdit(old(target.elements), op, at) == Some(target.elements)
  {
    match op.kind {
      case SequenceInsertion =>
        ok := target.InsertObjects(op.objects, at);
        return ok, |op.objects|;
      case SequenceDeletion =>
        ok := target.RemoveObjects(at, op.range.length);
        return ok, 0 - op.range.length;
      case SequenceModification =>
        ok := target.RemoveObjects(at, op.range.length);
        if !ok {
          return false, 0;
        }
        ok := target.InsertObjects(op.objects, at);
        return ok, |op.objects| - op.range.length;
    }
  }

  /** Sorts the edits, and applies one after the other; of equal neighbours only one. */
  method ApplyEditsToArray<T(==)>(target: MutableArray<T>, edits: seq<SequenceEdit<T>>)
    returns (ok: bool, ghost sorted: seq<SequenceEdit<T>>)
    modifies target
    ensures IsSortingOf(sorted, edits)
    ensures ok <==> AfterEdits(old(target.elements), Distinct(sorted), 0, 0, -1).Some?
    ensures ok ==> AfterEdits(old(target.elements), Distinct(sorted), 0, 0, -1) == Some(target.elements)
    ensures (forall e :: e in edits ==> e.WellFormed())
            && Separate(edits, |old(target.elements)|) && Grouped(sorted) ==>
              ok && target.elements == Edited(old(target.elements), sorted, 0)
    ensures Compatible(edits, |old(target.elements)|)
            ==> ok && target.elements == Edited(old(target.elements), edits, 0)
  {
    hide *;
    ghost var a := target.elements;
    var order := SortEdits(edits);
    sorted := order;
    ghost var result := AfterEdits(a, Distinct(sorted), 0, 0, -1);
    WhatIsPromised(a, edits, sorted);
    var i: int, nextI: int, lastEditStart: int := 0, 0, -1;
    assert order[0..] == order;
    for whichEdit := 0 to |order|
      invariant AfterEdits(target.elements, Distinct(order[whichEdit..]), i, nextI, lastEditStart) == result
    {
      var op := order[whichEdit];
      DistinctUnfolds(order, whichEdit);
      if whichEdit + 1 < |order| {
        var nextOp := order[whichEdit + 1];
        if EqualIgnoringSource(op, nextOp) {
          continue;
        }
      }
      RunUnfolds(target.elements, op, Distinct(order[whichEdit + 1..]), i, nextI, lastEditStart);
      if op.range.location != lastEditStart {
        i := nextI;
      }
      var grown;
      ok, grown := ApplyEdit(target, op, op.range.location + i);
      if !ok {
        return;
      }
      nextI := nextI + grown;
      lastEditStart := op.range.location;
    }
    ok := true;
    NothingLeft(order);
    RunEnds(target.elements, i, nextI, lastEditStart);
  }

  lemma RunUnfolds<T>(now: seq<T>, op: SequenceEdit<T>, rest: seq<SequenceEdit<T>>, i: int, nextI: int, lastStart: int)
    ensures var offset := if op.range.location != lastStart then nextI else i;
            AfterEdits(now, [op] + rest, i, nextI, lastStart) ==
            match AfterEdit(now, op, op.range.location + offset)
            case Some(after) => AfterEdits(after, rest, offset, nextI + Growth(op), op.range.location)
            case None => None
  {
    assert ([op] + rest)[1..] == rest;
  }

  lemma RunEnds<T>(now: seq<T>, i: int, nextI: int, lastStart: int)
    ensures AfterEdits(now, [], i, nextI, lastStart) == Some(now)
  {
  }

  lemma WhatIsPromised<T>(a: seq<T>, edits: seq<SequenceEdit<T>>, sorted: seq<SequenceEdit<T>>)
    requires IsSortingOf(sorted, edits)
    ensures (forall e :: e in edits ==> e.WellFormed()) && Separate(edits, |a|) && Grouped(sorted) ==>
              AfterEdits(a, Distinct(sorted), 0, 0, -1) == Some(Edited(a, sorted, 0))
    ensures Compatible(edits, |a|) ==> AfterEdits(a, Distinct(sorted), 0, 0, -1) == Some(Edited(a, edits, 0))
  {
    hide *;
    if (forall e :: e in edits ==> e.WellFormed()) && Separate(edits, |a|) && Grouped(sorted) {
      KeepsPromiseIff(edits, sorted, |a|);
      PromiseGivesEdited(a, edits, sorted);
    }
    if Compatible(edits, |a|) {
      CompatibleIsGrouped(edits, sorted, |a|);
      KeepsPromiseIff(edits, sorted, |a|);
      PromiseGivesEdited(a, edits, sorted);
      SortingCovers(sorted, edits);
      EditedIgnoresOrder(a, sorted, edits, 0);
    }
  }

  lemma CompatibleIsGrouped<T>(edits: seq<SequenceEdit<T>>, sorted: seq<SequenceEdit<T>>, size: nat)
    requires IsSortingOf(sorted, edits) && Compatible(edits, size)
    ensures Separate(edits, size) && Grouped(sorted) && forall e :: e in edits ==> e.WellFormed()
  {
    assert Untangled(edits);
    UntangledAlike(sorted, edits);
    hide Separate;
    hide InEditOrder;
    hide Untangled;
    hide Grouped;
    SortingSeparate(edits, sorted, size);
    GroupedIfUntangled(sorted, size);
  }

  /** The same on a copy. */
  method ArrayByApplyingEdits<T(==)>(a: seq<T>, edits: seq<SequenceEdit<T>>)
    returns (ok: bool, r: seq<T>, ghost sorted: seq<SequenceEdit<T>>)
    ensures IsSortingOf(sorted, edits)
    ensures ok <==> AfterEdits(a, Distinct(sorted), 0, 0, -1).Some?
    ensures ok ==> AfterEdits(a, Distinct(sorted), 0, 0, -1) == Some(r)
    ensures (forall e :: e in edits ==> e.WellFormed()) && Separate(edits, |a|) && Grouped(sorted) ==>
              ok && r == Edited(a, sorted, 0)
    ensures Compatible(edits, |a|) ==> ok && r == Edited(a, edits, 0)
  {
    hide *;
    var copy := new MutableArray(a);
    ok, sorted := ApplyEditsToArray(copy, edits);
    r := copy.elements;
  }

  // ----- What happens otherwise -----

  lemma InsideIsNoConflict<T>(deletion: SequenceEdit<T>, insertion: SequenceEdit<T>)
    requires insertion.WellFormed() && insertion.kind == SequenceInsertion && deletion.kind == SequenceDeletion
    requires deletion.range.location < insertion.range.location < deletion.range.End()
    ensures NoConflict([deletion, insertion]) && IsSortingOf([deletion, insertion], [deletion, insertion])
  {
  }

  lemma LeftParts<T>(a: seq<T>, d: nat, end: nat, p: nat)
    requires p <= d <= end <= |a|
    ensures var left := a[..d] + a[end..];
            left[..p] == a[..p] && left[p..] == a[p..d] + a[end..]
  {
  }

  lemma InsertionInsideRuns<T>(a: seq<T>, deletion: SequenceEdit<T>, insertion: SequenceEdit<T>)
    requires deletion.WellFormed() && deletion.kind == SequenceDeletion && deletion.range.End() <= |a|
    requires insertion.WellFormed() && insertion.kind == SequenceInsertion && insertion.objects != []
    requires deletion.range.location < insertion.range.location < deletion.range.End()
    ensures var p := insertion.range.location - deletion.range.length;
            AfterEdits(a, [deletion, insertion], 0, 0, -1)
            == if p < 0 then None
               else Some(a[..p] + insertion.objects + (a[p..deletion.range.location] + a[deletion.range.End()..]))
  {
    DeletedAt(a, deletion);
    InsertedInto(a, deletion.range.location, deletion.range.End(), insertion,
                 insertion.range.location - deletion.range.length);
    TwoRun(a, deletion, insertion, a[..deletion.range.location] + a[deletion.range.End()..]);
    hide AfterEdits;
    hide AfterEdit;
  }

  lemma TwoRun<T>(a: seq<T>, x: SequenceEdit<T>, y: SequenceEdit<T>, after: seq<T>)
    requires AfterEdit(a, x, x.range.location) == Some(after) && x.range.location != y.range.location
    ensures AfterEdits(a, [x, y], 0, 0, -1) == AfterEdit(after, y, y.range.location + Growth(x))
  {
    hide AfterEdit;
    hide AfterEdits;
    assert [x, y] == [x] + [y] && [y] == [y] + [];
    RunUnfolds(a, x, [y], 0, 0, -1);
    RunUnfolds(after, y, [], 0, Growth(x), x.range.location);
    var last := AfterEdit(after, y, y.range.location + Growth(x));
    if last.Some? {
      RunEnds(last.value, Growth(x), Growth(x) + Growth(y), y.range.location);
    }
  }

  lemma DeletedAt<T>(a: seq<T>, deletion: SequenceEdit<T>)
    requires deletion.WellFormed() && deletion.kind == SequenceDeletion && deletion.range.End() <= |a|
    ensures AfterEdit(a, deletion, deletion.range.location)
         == Some(a[..deletion.range.location] + a[deletion.range.End()..])
  {
  }

  lemma InsertedInto<T>(a: seq<T>, d: nat, end: nat, insertion: SequenceEdit<T>, p: int)
    requires p < d <= end <= |a| && insertion.kind == SequenceInsertion && insertion.objects != []
    ensures AfterEdit(a[..d] + a[end..], insertion, p)
         == if p < 0 then None else Some(a[..p] + insertion.objects + (a[p..d] + a[end..]))
  {
    if 0 <= p {
      LeftParts(a, d, end, p);
    }
  }

  /** An insertion inside a range that another edit deletes raises if the array has too few elements
      before the range, and is otherwise carried out before the range. Neither is a conflict. */
  lemma InsertionInsideDeletion<T>(a: seq<T>, deletion: SequenceEdit<T>, insertion: SequenceEdit<T>)
    requires deletion.WellFormed() && deletion.kind == SequenceDeletion && deletion.range.End() <= |a|
    requires insertion.WellFormed() && insertion.kind == SequenceInsertion && insertion.objects != []
    requires deletion.range.location < insertion.range.location < deletion.range.End()
    ensures NoConflict([deletion, insertion]) && IsSortingOf([deletion, insertion], [deletion, insertion])
    ensures var p := insertion.range.location - deletion.range.length;
            && p < deletion.range.location
            && AfterEdits(a, Distinct([deletion, insertion]), 0, 0, -1)
               == if p < 0 then None
                  else Some(a[..p] + insertion.objects + (a[p..deletion.range.location] + a[deletion.range.End()..]))
  {
    hide NoConflict;
    hide IsSortingOf;
    hide AfterEdits;
    hide Distinct;
    InsideIsNoConflict(deletion, insertion);
    TwoDistinct(deletion, insertion);
    InsertionInsideRuns(a, deletion, insertion);
  }

  lemma TwoDistinct<T>(x: SequenceEdit<T>, y: SequenceEdit<T>)
    requires !EqualIgnoringSource(x, y)
    ensures Distinct([x, y]) == [x, y]
  {
    assert [x, y][1..] == [y] && [y][1..] == [];
    assert Distinct([y]) == [y];
  }

  /** Edits that all insert at one location. */
  lemma OnlyInsertions<T>(a: seq<T>, edits: seq<SequenceEdit<T>>, p: nat)
    requires p <= |a| && forall e :: e in edits ==> e.InsertsAt(p)
    ensures Edited(a, edits, 0) == a[..p] + InsertedAt(edits, p) + a[p..]
  {
    hide EditedBehind;
    hide InsertedAt;
    EditedPastEnd(a, edits, |a|);
    if p < |a| {
      EditedSkips(a, edits, p, |a|);
      NothingInserted(edits, |a|);
      assert EditedBehind(a, edits, p) == a[p..];
    }
    if 0 < p {
      EditedSkips(a, edits, 0, p);
      NothingInserted(edits, 0);
      Associate(a[..p], InsertedAt(edits, p), a[p..]);
    }
  }

  lemma InsertionAtSamePlace<T>(a: seq<T>, edits: seq<SequenceEdit<T>>, objects: seq<T>, p: nat)
    requires edits != [] && edits[0].InsertsAt(p) && p <= |a|
    ensures AfterEdits(a[..p] + objects + a[p..], edits, 0, |objects|, p)
         == AfterEdits(a[..p] + (edits[0].objects + objects) + a[p..], edits[1..], 0, |edits[0].objects + objects|, p)
  {
    var now := a[..p] + objects + a[p..];
    assert Halfway(a, now, a[..p], objects, 0, |objects|, p, p);
    MoreChanged(a, now, edits[0], a[..p], objects, 0, |objects|, p, p);
    hide Halfway;
    hide AfterEdit;
    RunStep(now, edits, 0, |objects|, p, 0, a[..p] + (edits[0].objects + objects) + a[p..]);
  }

  lemma ThreeInsertionsRun<T>(a: seq<T>, x: SequenceEdit<T>, y: SequenceEdit<T>, z: SequenceEdit<T>, p: nat)
    requires x.WellFormed() && x.InsertsAt(p) && y.InsertsAt(p) && z.InsertsAt(p) && p <= |a|
    ensures AfterEdits(a, [x, y, z], 0, 0, -1) == Some(a[..p] + (z.objects + (y.objects + x.objects)) + a[p..])
  {
    hide AfterEdits;
    assert a == a[..p] + a[p..] == a[..p] + [] + a[p..];
    assert [] + x.objects == x.objects;
    ChangedBetween(a, a[..p], [], a[p..], x);
    hide AfterEdit;
    RunStep(a, [x, y, z], 0, 0, -1, 0, a[..p] + x.objects + a[p..]);
    assert [x, y, z][1..] == [y, z] && [y, z][1..] == [z] && [z][1..] == [];
    InsertionAtSamePlace(a, [y, z], x.objects, p);
    InsertionAtSamePlace(a, [z], y.objects + x.objects, p);
    RunEnds(a[..p] + (z.objects + (y.objects + x.objects)) + a[p..], 0, |z.objects + (y.objects + x.objects)|, p);
  }

  lemma ThreeDistinct<T>(x: SequenceEdit<T>, y: SequenceEdit<T>, z: SequenceEdit<T>)
    requires !EqualIgnoringSource(x, y) && !EqualIgnoringSource(y, z)
    ensures Distinct([x, y, z]) == [x, y, z]
  {
    assert [x, y, z][1..] == [y, z] && [y, z][1..] == [z] && [z][1..] == [];
    assert Distinct([z]) == [z];
    assert Distinct([y, z]) == [y, z];
  }

  lemma ThreeDifferent<T>(x: SequenceEdit<T>, y: SequenceEdit<T>, z: SequenceEdit<T>)
    requires x.WellFormed() && y.WellFormed() && z.WellFormed() && Same(x, z) && !Same(x, y)
    ensures !EqualIgnoringSource(x, y) && !EqualIgnoringSource(y, z)
  {
  }

  lemma ThreeInserted<T>(x: SequenceEdit<T>, y: SequenceEdit<T>, z: SequenceEdit<T>, p: nat)
    requires x.InsertsAt(p) && y.InsertsAt(p) && z.InsertsAt(p) && Same(x, z) && !Same(x, y)
    ensures InsertedAt([x, y, z], p) == x.objects + y.objects
  {
    assert [x, y, z][1..] == [y, z] && [y, z][1..] == [z] && [z][1..] == [];
    assert InsertedAt([z], p) == z.objects;
    assert InsertedAt([y, z], p) == z.objects + y.objects;
    assert z in [y, z] && Same(z, x);
  }

  lemma InsertionsDoNotConflict<T>(edits: seq<SequenceEdit<T>>, p: nat)
    requires forall e :: e in edits ==> e.WellFormed() && e.InsertsAt(p)
    ensures NoConflict(edits) && IsSortingOf(edits, edits)
  {
    hide Same;
    forall i, j | 0 <= i < j < |edits| ensures edits[i].NotAfter(edits[j]) {
      assert edits[i] in edits && edits[j] in edits;
    }
  }

  /** Two equal insertions with a different one between them are both carried out, and not one only. */
  lemma TangledInsertions<T>(a: seq<T>, x: SequenceEdit<T>, y: SequenceEdit<T>, x': SequenceEdit<T>, p: nat)
    requires x.WellFormed() && y.WellFormed() && x'.WellFormed() && p <= |a|
    requires x.InsertsAt(p) && y.InsertsAt(p) && x'.InsertsAt(p) && Same(x, x') && !Same(x, y)
    ensures NoConflict([x, y, x']) && IsSortingOf([x, y, x'], [x, y, x'])
    ensures AfterEdits(a, Distinct([x, y, x']), 0, 0, -1)
         == Some(a[..p] + (x.objects + (y.objects + x.objects)) + a[p..])
    ensures Edited(a, [x, y, x'], 0) == a[..p] + (x.objects + y.objects) + a[p..]
  {
    InsertionsDoNotConflict([x, y, x'], p);
    ThreeDifferent(x, y, x');
    ThreeInserted(x, y, x', p);
    hide *;
    ThreeDistinct(x, y, x');
    ThreeInsertionsRun(a, x, y, x', p);
    OnlyInsertions(a, [x, y, x'], p);
  }
}
