/**
  The list of states the sidebar offers (Final.py:236-244): every state code
  of the data, sorted and without repeats.
 */
module StateSelector {
  import opened SortDedup
  import opened Schools
  import opened Frequency

  /** `df['STATE']`: the state code of each row. */
  function States(rs: seq<Record>): (ss: seq<string>)
    ensures |ss| == |rs|
    ensures forall i :: 0 <= i < |rs| ==> ss[i] == rs[i].state
  {
    if |rs| == 0 then [] else States(rs[..|rs| - 1]) + [rs[|rs| - 1].state]
  }

  /**
    `states_list`: strictly ascending, and holding exactly the state codes
    that occur in the data.
   */
  function StatesList(rs: seq<Record>): (ss: seq<string>)
    ensures Ascending(ss)
    ensures forall s :: s in ss <==> exists i :: 0 <= i < |rs| && rs[i].state == s
  {
    var states := States(rs);
    var ss := SortedDistinct(states);
    SortedDistinctCharacterised(states, ss);
    assert forall s :: s in ss <==> s in Elements(ss);
    assert forall s :: s in states <==> s in Elements(states);
    ss
  }

  /**
    Any state the selector offers has at least one school, so the chart's
    read of `freq_dict[curstate]` at Final.py:149 always finds its key.
   */
  lemma SelectedStateHasChart(rs: seq<Record>, s: string, c: Column)
    requires s in StatesList(rs)
    ensures FreqGraph(rs, s, c).Ok?
    ensures |FreqGraph(rs, s, c).value.codes| > 0
  {
  }
}
