/** One side of a comparison, and the ranges of it that the comparison has flagged as modified. */
module DiffInput {
  import opened EditGraph

  datatype Range = Range(location: nat, length: nat) {
    function End(): nat {
      location + length
    }

    predicate Covers(p: int) {
      location <= p < End()
    }
  }

  /** Whether position `p` lies in one of the ranges. */
  predicate Flagged(ranges: seq<Range>, p: int) {
    exists i :: 0 <= i < |ranges| && ranges[i].Covers(p)
  }

  /** Non-empty ranges in increasing order below `bound`, with an unflagged position between any
      two neighbours. */
  predicate Normal(ranges: seq<Range>, bound: int) {
    && (forall i :: 0 <= i < |ranges| ==> 0 < ranges[i].length && ranges[i].End() <= bound)
    && (forall i, j :: 0 <= i < j < |ranges| ==> ranges[i].End() < ranges[j].location)
  }

  class DiffData {
    const Length: nat
    const data: Arrays
    var modified: seq<Range>

    constructor (initData: Arrays, size: nat)
      ensures Length == size && data == initData && modified == []
    {
      Length := size;
      data := initData;
      modified := [];
    }

    /** Flags one more range. A range that touches the last one extends it, so adding at the end
        keeps the normal form. */
    method AddRange(r: Range)
      modifies this
      ensures forall p :: Flagged(modified, p) <==> Flagged(old(modified), p) || r.Covers(p)
      ensures Normal(old(modified), r.location) && 0 < r.length ==> Normal(modified, r.End())
      ensures old(modified) != [] && old(modified)[|old(modified)| - 1].End() == r.location ==>
                |modified| == |old(modified)|
    {
      var l := |modified|;
      if l > 0 {
        var last := modified[l - 1];
        if last.location + last.length == r.location {
          ghost var before := modified;
          modified := modified[l - 1 := last.(length := last.length + r.length)];
          forall p ensures Flagged(modified, p) <==> Flagged(before, p) || r.Covers(p) {
            ExtendedLast(before, r, p);
          }
          return;
        }
      }
      ghost var before := modified;
      modified := modified + [r];
      forall p ensures Flagged(modified, p) <==> Flagged(before, p) || r.Covers(p) {
        Appended(before, r, p);
      }
    }
  }

  lemma ExtendedLast(ranges: seq<Range>, r: Range, p: int)
    requires ranges != [] && ranges[|ranges| - 1].End() == r.location
    ensures var last := ranges[|ranges| - 1];
            Flagged(ranges[|ranges| - 1 := last.(length := last.length + r.length)], p)
            <==> Flagged(ranges, p) || r.Covers(p)
  {
    var n := |ranges| - 1;
    var last := ranges[n];
    var after := ranges[n := last.(length := last.length + r.length)];
    assert after[n].Covers(p) <==> ranges[n].Covers(p) || r.Covers(p);
    assert forall i :: 0 <= i < n ==> after[i] == ranges[i];
    if Flagged(ranges, p) {
      var i :| 0 <= i < |ranges| && ranges[i].Covers(p);
      assert after[i].Covers(p);
    }
  }

  lemma Appended(ranges: seq<Range>, r: Range, p: int)
    ensures Flagged(ranges + [r], p) <==> Flagged(ranges, p) || r.Covers(p)
  {
    var after := ranges + [r];
    assert after[|ranges|] == r;
    assert forall i :: 0 <= i < |ranges| ==> after[i] == ranges[i];
    if Flagged(ranges, p) {
      var i :| 0 <= i < |ranges| && ranges[i].Covers(p);
      assert after[i].Covers(p);
    }
  }
}
