/**
  The input of the density map drawn by `heatmap` (Final.py:49-116): the
  rows whose code under the chosen column is not the sentinel "N", reduced
  to their positions.
 */
module Heatmap {
  import opened Schools
  import opened Frequency

  /** `df[df[column] != 'N']`: the classified rows, in data-frame order. */
  function Classified(rs: seq<Record>, c: Column): seq<Record> {
    if |rs| == 0 then []
    else
      var r := rs[|rs| - 1];
      Classified(rs[..|rs| - 1], c) + (if Code(r, c) != Sentinel then [r] else [])
  }

  /** The row numbers the filter keeps, in increasing order. */
  function KeptRows(rs: seq<Record>, c: Column): seq<nat> {
    if |rs| == 0 then []
    else KeptRows(rs[..|rs| - 1], c) + (if Code(rs[|rs| - 1], c) != Sentinel then [|rs| - 1] else [])
  }

  /** `ys` are the rows of `rs` at the strictly increasing positions `idx`. */
  predicate Picks(ys: seq<Record>, rs: seq<Record>, idx: seq<nat>) {
    && |idx| == |ys|
    && (forall i :: 0 <= i < |idx| ==> idx[i] < |rs| && ys[i] == rs[idx[i]])
    && (forall i, j :: 0 <= i < j < |idx| ==> idx[i] < idx[j])
  }

  /**
    The filter keeps exactly the rows whose code is not "N": row `j` is kept
    if and only if its code differs from the sentinel, the kept rows keep
    their relative order, and nothing that is not a row of the input appears.
   */
  lemma {:induction false} ClassifiedKeepsExactly(rs: seq<Record>, c: Column)
    ensures Picks(Classified(rs, c), rs, KeptRows(rs, c))
    ensures forall j :: 0 <= j < |rs| ==> (j in KeptRows(rs, c) <==> Code(rs[j], c) != Sentinel)
    decreases |rs|
  {
    if |rs| > 0 {
      var init := rs[..|rs| - 1];
      ClassifiedKeepsExactly(init, c);
      var idx := KeptRows(init, c);
      assert forall i :: 0 <= i < |idx| ==> idx[i] < |init|;
      forall j | 0 <= j < |init|
        ensures j in KeptRows(rs, c) <==> Code(rs[j], c) != Sentinel
      {
        assert rs[j] == init[j];
      }
      assert |rs| - 1 !in idx;
    }
  }

  /**
    The rows the heatmap drops are exactly the ones the frequency summary
    counts under "N": kept rows plus sentinel rows make up the whole input,
    so in particular the filter never adds a row.
   */
  lemma {:induction false} ClassifiedPlusSentinel(rs: seq<Record>, c: Column)
    ensures |Classified(rs, c)| + Count(rs, c, Sentinel) == |rs|
    decreases |rs|
  {
    if |rs| > 0 {
      ClassifiedPlusSentinel(rs[..|rs| - 1], c);
    }
  }

  /** Filtering twice is filtering once. */
  lemma {:induction false} ClassifiedIdempotent(rs: seq<Record>, c: Column)
    ensures Classified(Classified(rs, c), c) == Classified(rs, c)
    decreases |rs|
  {
    if |rs| > 0 {
      var init := rs[..|rs| - 1];
      var r := rs[|rs| - 1];
      ClassifiedIdempotent(init, c);
      if Code(r, c) != Sentinel {
        var k := Classified(init, c) + [r];
        assert k[..|k| - 1] == Classified(init, c);
      } else {
        assert Classified(init, c) + [] == Classified(init, c);
      }
    }
  }

  /** A longitude/latitude pair handed to the density layer. */
  datatype Point = Point(lon: real, lat: real)

  /** `df[['lon', 'lat']]` after the filter: one point per classified row. */
  function HeatmapPoints(rs: seq<Record>, c: Column): (ps: seq<Point>)
    ensures |ps| == |rs| - Count(rs, c, Sentinel)
    ensures |ps| == |KeptRows(rs, c)|
    ensures forall i :: 0 <= i < |ps| ==> KeptRows(rs, c)[i] < |rs|
    ensures forall i :: 0 <= i < |ps| ==>
      var r := rs[KeptRows(rs, c)[i]];
      Code(r, c) != Sentinel && ps[i] == Point(r.lon, r.lat)
  {
    var kept := Classified(rs, c);
    ClassifiedKeepsExactly(rs, c);
    ClassifiedPlusSentinel(rs, c);
    assert forall i :: 0 <= i < |kept| ==> KeptRows(rs, c)[i] in KeptRows(rs, c);
    seq(|kept|, i requires 0 <= i < |kept| => Point(kept[i].lon, kept[i].lat))
  }
}
