/**
  The per-state frequency summary behind the bar chart of `freq_graph`
  (Final.py:120-159): the distinct identifier codes that the schools of one
  state carry under one column, in ascending order, and how many schools
  carry each.
 */
module Frequency {
  import opened StrOrder
  import opened SortDedup
  import opened Schools

  /** `df[df['STATE'] == curstate]`: the records of one state, in data-frame order. */
  function InState(rs: seq<Record>, s: string): seq<Record> {
    if |rs| == 0 then []
    else
      var r := rs[|rs| - 1];
      InState(rs[..|rs| - 1], s) + (if r.state == s then [r] else [])
  }

  /** `newdf[column]`: the codes of the records under one column, row by row. */
  function Codes(rs: seq<Record>, c: Column): (vs: seq<string>)
    ensures |vs| == |rs|
    ensures forall i :: 0 <= i < |rs| ==> vs[i] == Code(rs[i], c)
  {
    if |rs| == 0 then [] else Codes(rs[..|rs| - 1], c) + [Code(rs[|rs| - 1], c)]
  }

  /** The number of records whose code under `c` is `v`, counted row by row. */
  function Count(rs: seq<Record>, c: Column, v: string): nat {
    if |rs| == 0 then 0
    else Count(rs[..|rs| - 1], c, v) + (if Code(rs[|rs| - 1], c) == v then 1 else 0)
  }

  /** The number of records whose code under `c` lies in `vs`. */
  function CountIn(rs: seq<Record>, c: Column, vs: set<string>): nat {
    if |rs| == 0 then 0
    else CountIn(rs[..|rs| - 1], c, vs) + (if Code(rs[|rs| - 1], c) in vs then 1 else 0)
  }

  /** The count of each of `us`, in the order of `us`. */
  function Counts(rs: seq<Record>, c: Column, us: seq<string>): (ns: seq<nat>)
    ensures |ns| == |us|
    ensures forall i :: 0 <= i < |us| ==> ns[i] == Count(rs, c, us[i])
  {
    if |us| == 0 then [] else Counts(rs, c, us[..|us| - 1]) + [Count(rs, c, us[|us| - 1])]
  }

  function Sum(ns: seq<nat>): nat {
    if |ns| == 0 then 0 else Sum(ns[..|ns| - 1]) + ns[|ns| - 1]
  }

  /** `unique_data` and `temp_list` side by side: code i occurs counts[i] times. */
  datatype Table = Table(codes: seq<string>, counts: seq<nat>)

  // ---------------------------------------------------------------------
  // Facts about counting
  // ---------------------------------------------------------------------

  lemma CountStep(rs: seq<Record>, k: nat, c: Column, v: string)
    requires k < |rs|
    ensures Count(rs[..k + 1], c, v) == Count(rs[..k], c, v) + (if Code(rs[k], c) == v then 1 else 0)
  {
    assert rs[..k + 1][..k] == rs[..k];
  }

  /** Counting row by row agrees with the multiplicity of the code among the column's values. */
  lemma {:induction false} CountIsMultiplicity(rs: seq<Record>, c: Column, v: string)
    ensures Count(rs, c, v) == multiset(Codes(rs, c))[v]
    decreases |rs|
  {
    if |rs| > 0 {
      CountIsMultiplicity(rs[..|rs| - 1], c, v);
      assert Codes(rs, c) == Codes(rs[..|rs| - 1], c) + [Code(rs[|rs| - 1], c)];
    }
  }

  /** A code is counted at least once exactly when some record carries it. */
  lemma CountPositive(rs: seq<Record>, c: Column, v: string)
    ensures Count(rs, c, v) > 0 <==> v in Codes(rs, c)
  {
    CountIsMultiplicity(rs, c, v);
  }

  /** Counting a set with one more code adds that code's count. */
  lemma {:induction false} CountInAddOne(rs: seq<Record>, c: Column, vs: set<string>, x: string)
    requires x !in vs
    ensures CountIn(rs, c, vs + {x}) == CountIn(rs, c, vs) + Count(rs, c, x)
    decreases |rs|
  {
    if |rs| > 0 {
      CountInAddOne(rs[..|rs| - 1], c, vs, x);
    }
  }

  /** When every record's code lies in `vs`, all records are counted. */
  lemma {:induction false} CountInAll(rs: seq<Record>, c: Column, vs: set<string>)
    requires forall i :: 0 <= i < |rs| ==> Code(rs[i], c) in vs
    ensures CountIn(rs, c, vs) == |rs|
    decreases |rs|
  {
    if |rs| > 0 {
      CountInAll(rs[..|rs| - 1], c, vs);
    }
  }

  /** Summing the counts of distinct codes counts the records carrying any of them. */
  lemma {:induction false} SumOfCounts(rs: seq<Record>, c: Column, us: seq<string>)
    requires NoDuplicates(us)
    ensures Sum(Counts(rs, c, us)) == CountIn(rs, c, Elements(us))
    decreases |us|
  {
    if |us| == 0 {
      assert Elements(us) == {};
      CountInNone(rs, c);
    } else {
      var init := us[..|us| - 1];
      var x := us[|us| - 1];
      assert us == init + [x];
      SumOfCounts(rs, c, init);
      assert Counts(rs, c, us)[..|us| - 1] == Counts(rs, c, init);
      assert Elements(us) == Elements(init) + {x};
      CountInAddOne(rs, c, Elements(init), x);
    }
  }

  lemma {:induction false} CountInNone(rs: seq<Record>, c: Column)
    ensures CountIn(rs, c, {}) == 0
    decreases |rs|
  {
    if |rs| > 0 {
      CountInNone(rs[..|rs| - 1], c);
    }
  }

  /** Counts over distinct codes that cover every record add up to the number of records. */
  lemma CountsCoverAll(rs: seq<Record>, c: Column, us: seq<string>)
    requires NoDuplicates(us)
    requires forall i :: 0 <= i < |rs| ==> Code(rs[i], c) in us
    ensures Sum(Counts(rs, c, us)) == |rs|
  {
    SumOfCounts(rs, c, us);
    CountInAll(rs, c, Elements(us));
  }

  lemma {:induction false} InStateConcat(a: seq<Record>, b: seq<Record>, s: string)
    ensures InState(a + b, s) == InState(a, s) + InState(b, s)
    decreases |b|
  {
    if |b| == 0 {
      assert a + b == a;
    } else {
      assert (a + b)[..|a + b| - 1] == a + b[..|b| - 1];
      InStateConcat(a, b[..|b| - 1], s);
    }
  }

  /** The records of a state are exactly the records of `rs` whose state field is `s`. */
  lemma {:induction false} InStateMembers(rs: seq<Record>, s: string, r: Record)
    ensures r in InState(rs, s) <==> r in rs && r.state == s
    decreases |rs|
  {
    if |rs| > 0 {
      InStateMembers(rs[..|rs| - 1], s, r);
      assert rs == rs[..|rs| - 1] + [rs[|rs| - 1]];
    }
  }

  /** A code occurs among the state's codes exactly when some row of that state carries it. */
  lemma StateCodesMembers(rs: seq<Record>, s: string, c: Column, v: string)
    ensures v in Codes(InState(rs, s), c)
      <==> exists i :: 0 <= i < |rs| && rs[i].state == s && Code(rs[i], c) == v
  {
    var sub := InState(rs, s);
    var codes := Codes(sub, c);
    if v in codes {
      var j :| 0 <= j < |sub| && codes[j] == v;
      InStateMembers(rs, s, sub[j]);
      var i :| 0 <= i < |rs| && rs[i] == sub[j];
      assert rs[i].state == s && Code(rs[i], c) == v;
    }
    if exists i :: 0 <= i < |rs| && rs[i].state == s && Code(rs[i], c) == v {
      var i :| 0 <= i < |rs| && rs[i].state == s && Code(rs[i], c) == v;
      InStateMembers(rs, s, rs[i]);
      var j :| 0 <= j < |sub| && sub[j] == rs[i];
      assert codes[j] == v;
    }
  }

  // ---------------------------------------------------------------------
  // The summary
  // ---------------------------------------------------------------------

  /**
    What lines 125-145 of `freq_graph` promise of the pair (`unique_data`,
    `temp_list`) for state `s` and column `c`: the codes are strictly
    ascending and are exactly the codes some school of `s` carries, and the
    i-th count is the number of schools of `s` carrying the i-th code. The
    sentinel "N" is a code like any other here.
   */
  ghost predicate IsSummary(rs: seq<Record>, s: string, c: Column, t: Table) {
    && Ascending(t.codes)
    && (forall v :: v in t.codes <==> exists i :: 0 <= i < |rs| && rs[i].state == s && Code(rs[i], c) == v)
    && |t.counts| == |t.codes|
    && (forall i :: 0 <= i < |t.codes| ==> t.counts[i] == Count(InState(rs, s), c, t.codes[i]))
  }

  /**
    Lines 125-145 of `freq_graph`: the records of state `s`, their codes
    under `c` sorted and de-duplicated into `unique_data`, and for each code
    the number of those records carrying it in `temp_list`.
   */
  function Tabulate(rs: seq<Record>, s: string, c: Column): Table {
    var sub := InState(rs, s);
    var u := SortedDistinct(Codes(sub, c));
    Table(u, Counts(sub, c, u))
  }

  /** The codes `Tabulate` lists are exactly the codes the schools of the state carry. */
  lemma TabulateCodes(rs: seq<Record>, s: string, c: Column)
    ensures Ascending(Tabulate(rs, s, c).codes)
    ensures Elements(Tabulate(rs, s, c).codes) == Elements(Codes(InState(rs, s), c))
  {
    var codes := Codes(InState(rs, s), c);
    SortedDistinctCharacterised(codes, SortedDistinct(codes));
  }

  /** `Tabulate` computes a summary. */
  lemma TabulateIsSummary(rs: seq<Record>, s: string, c: Column)
    ensures Ascending(Tabulate(rs, s, c).codes)
    ensures forall v :: v in Tabulate(rs, s, c).codes <==> exists i :: 0 <= i < |rs| && rs[i].state == s && Code(rs[i], c) == v
    ensures |Tabulate(rs, s, c).counts| == |Tabulate(rs, s, c).codes|
    ensures forall i :: 0 <= i < |Tabulate(rs, s, c).codes| ==>
      Tabulate(rs, s, c).counts[i] == Count(InState(rs, s), c, Tabulate(rs, s, c).codes[i])
  {
    var codes := Codes(InState(rs, s), c);
    var u := Tabulate(rs, s, c).codes;
    TabulateCodes(rs, s, c);
    forall v
      ensures v in u <==> exists i :: 0 <= i < |rs| && rs[i].state == s && Code(rs[i], c) == v
    {
      StateCodesMembers(rs, s, c, v);
      assert v in u <==> v in Elements(u);
      assert v in codes <==> v in Elements(codes);
    }
  }

  /** A summary is unique: any table meeting the description is the one `Tabulate` computes. */
  lemma SummaryUnique(rs: seq<Record>, s: string, c: Column, t: Table)
    requires IsSummary(rs, s, c, t)
    ensures t == Tabulate(rs, s, c)
  {
    var sub := InState(rs, s);
    var codes := Codes(sub, c);
    assert Elements(t.codes) == Elements(codes) by {
      forall v
        ensures v in Elements(t.codes) <==> v in Elements(codes)
      {
        StateCodesMembers(rs, s, c, v);
        assert v in t.codes <==> v in Elements(t.codes);
        assert v in codes <==> v in Elements(codes);
      }
    }
    SortedDistinctCharacterised(codes, t.codes);
    assert t.counts == Counts(sub, c, t.codes);
  }

  /** A table is a summary exactly when it is the one `Tabulate` computes. */
  lemma TabulateCharacterised(rs: seq<Record>, s: string, c: Column, t: Table)
    ensures IsSummary(rs, s, c, t) <==> t == Tabulate(rs, s, c)
  {
    TabulateIsSummary(rs, s, c);
    if IsSummary(rs, s, c, t) {
      SummaryUnique(rs, s, c, t);
    }
  }

  /** In a summary every count is at least one, and the counts add up to the number of schools of the state. */
  lemma SummaryCounts(rs: seq<Record>, s: string, c: Column, t: Table)
    requires IsSummary(rs, s, c, t)
    ensures forall i :: 0 <= i < |t.counts| ==> t.counts[i] >= 1
    ensures Sum(t.counts) == |InState(rs, s)|
  {
    TabulateCharacterised(rs, s, c, t);
    var sub := InState(rs, s);
    var codes := Codes(sub, c);
    SortedDistinctCharacterised(codes, t.codes);
    forall i | 0 <= i < |t.counts|
      ensures t.counts[i] >= 1
    {
      assert t.codes[i] in Elements(codes);
      CountPositive(sub, c, t.codes[i]);
    }
    AscendingHasNoDuplicates(t.codes);
    assert forall i :: 0 <= i < |sub| ==> codes[i] in Elements(t.codes);
    CountsCoverAll(sub, c, t.codes);
  }

  /**
    What the chart receives (Final.py:145-149). `freq_dict[curstate]` is only
    written inside the counting loop, so a state with no records leaves it
    unwritten and the read at line 149 fails with a KeyError.
   */
  function FreqGraph(rs: seq<Record>, s: string, c: Column): (r: Result<Table>)
    ensures r.Err? <==> forall i :: 0 <= i < |rs| ==> rs[i].state != s
    ensures r.Err? ==> r.error == KeyError(s)
    ensures r.Ok? ==> IsSummary(rs, s, c, r.value) && |r.value.codes| > 0
    ensures r.Ok? ==> r.value == Tabulate(rs, s, c)
  {
    var t := Tabulate(rs, s, c);
    TabulateCharacterised(rs, s, c, t);
    assert |t.codes| == 0 <==> forall i :: 0 <= i < |rs| ==> rs[i].state != s by {
      if |t.codes| > 0 {
        assert t.codes[0] in t.codes;
      }
      forall i | 0 <= i < |rs| && rs[i].state == s
        ensures |t.codes| > 0
      {
        assert Code(rs[i], c) in t.codes;
      }
    }
    if |t.codes| == 0 then
      Err(KeyError(s))
    else
      Ok(t)
  }

  // ---------------------------------------------------------------------
  // Properties relating several calls
  // ---------------------------------------------------------------------

  /** Records of another state have no effect, wherever they sit in the data. */
  lemma ForeignRecordIgnored(a: seq<Record>, x: Record, b: seq<Record>, s: string, c: Column)
    requires x.state != s
    ensures Tabulate(a + [x] + b, s, c) == Tabulate(a + b, s, c)
    ensures FreqGraph(a + [x] + b, s, c) == FreqGraph(a + b, s, c)
  {
    assert InState(a + [x] + b, s) == InState(a + b, s) by {
      InStateConcat(a + [x], b, s);
      InStateConcat(a, [x], s);
      InStateConcat(a, b, s);
      assert InState([x], s) == InState([], s) + [] by {
        assert [x][..0] == [];
      }
      assert InState(a, s) + [] == InState(a, s);
    }
  }

  /** Only the records of the chosen state matter: summarising them alone gives the same table. */
  lemma OnlyStateMatters(rs: seq<Record>, s: string, c: Column)
    ensures Tabulate(InState(rs, s), s, c) == Tabulate(rs, s, c)
  {
    InStateIdempotent(rs, s);
  }

  lemma {:induction false} InStateIdempotent(rs: seq<Record>, s: string)
    ensures InState(InState(rs, s), s) == InState(rs, s)
    decreases |rs|
  {
    if |rs| > 0 {
      var init := rs[..|rs| - 1];
      var r := rs[|rs| - 1];
      InStateIdempotent(init, s);
      if r.state == s {
        InStateConcat(InState(init, s), [r], s);
        assert [r][..0] == [];
      } else {
        assert InState(init, s) + [] == InState(init, s);
      }
    }
  }

  lemma {:induction false} InStateMultiset(a: seq<Record>, b: seq<Record>, s: string)
    requires multiset(a) == multiset(b)
    ensures multiset(InState(a, s)) == multiset(InState(b, s))
  {
    forall r
      ensures multiset(InState(a, s))[r] == multiset(InState(b, s))[r]
    {
      InStateMultiplicity(a, s, r);
      InStateMultiplicity(b, s, r);
    }
  }

  lemma {:induction false} InStateMultiplicity(rs: seq<Record>, s: string, r: Record)
    ensures multiset(InState(rs, s))[r] == if r.state == s then multiset(rs)[r] else 0
    decreases |rs|
  {
    if |rs| > 0 {
      InStateMultiplicity(rs[..|rs| - 1], s, r);
      assert rs == rs[..|rs| - 1] + [rs[|rs| - 1]];
    }
  }

  lemma {:induction false} CodesMultiset(a: seq<Record>, b: seq<Record>, c: Column)
    requires multiset(a) == multiset(b)
    ensures multiset(Codes(a, c)) == multiset(Codes(b, c))
    decreases |a|
  {
    if |a| == 0 {
      assert |b| == |multiset(b)| == 0;
    } else {
      var init, x := a[..|a| - 1], a[|a| - 1];
      assert a == init + [x];
      assert multiset(init) == multiset(a) - multiset{x};
      assert x in multiset(b);
      var k :| 0 <= k < |b| && b[k] == x;
      var rest := b[..k] + b[k + 1..];
      RemoveOne(b, k, c);
      CodesMultiset(init, rest, c);
      CodesConcat(init, [x], c);
    }
  }

  /** Taking out the row at `k` takes out that row and its code, and nothing else. */
  lemma RemoveOne(b: seq<Record>, k: nat, c: Column)
    requires k < |b|
    ensures multiset(b[..k] + b[k + 1..]) == multiset(b) - multiset{b[k]}
    ensures multiset(Codes(b, c)) == multiset(Codes(b[..k] + b[k + 1..], c)) + multiset{Code(b[k], c)}
  {
    assert b == b[..k] + [b[k]] + b[k + 1..];
    CodesConcat(b[..k] + [b[k]], b[k + 1..], c);
    CodesConcat(b[..k], [b[k]], c);
    CodesConcat(b[..k], b[k + 1..], c);
  }

  lemma CodesConcat(a: seq<Record>, b: seq<Record>, c: Column)
    ensures Codes(a + b, c) == Codes(a, c) + Codes(b, c)
  {
  }

  /**
    The table does not depend on the order of the rows: the codes are sorted
    and the counts are taken per code.
   */
  lemma TabulateIgnoresRowOrder(a: seq<Record>, b: seq<Record>, s: string, c: Column)
    requires multiset(a) == multiset(b)
    ensures Tabulate(a, s, c) == Tabulate(b, s, c)
  {
    var sa, sb := InState(a, s), InState(b, s);
    InStateMultiset(a, b, s);
    CodesMultiset(sa, sb, c);
    SortIsTheSortedPermutation(Codes(sa, c), Sort(Codes(sb, c)));
    var u := Tabulate(a, s, c).codes;
    forall i | 0 <= i < |u|
      ensures Count(sa, c, u[i]) == Count(sb, c, u[i])
    {
      CountIsMultiplicity(sa, c, u[i]);
      CountIsMultiplicity(sb, c, u[i]);
    }
  }

  /**
    The nested loops of Final.py:125-145: `unique_data` is built by the
    sort-and-collect loop, then the outer loop walks it and appends the
    count of each code to `temp_list`.
   */
  method FreqGraphLoops(rs: seq<Record>, s: string, c: Column)
    returns (uniqueData: seq<string>, tempList: seq<nat>)
    ensures Ascending(uniqueData)
    ensures forall v :: v in uniqueData <==> exists i :: 0 <= i < |rs| && rs[i].state == s && Code(rs[i], c) == v
    ensures |tempList| == |uniqueData|
    ensures forall i :: 0 <= i < |uniqueData| ==> tempList[i] == Count(InState(rs, s), c, uniqueData[i])
    ensures forall i :: 0 <= i < |tempList| ==> tempList[i] >= 1
    ensures Sum(tempList) == |InState(rs, s)|
  {
    var newdf := InState(rs, s);
    uniqueData := SortUnique(Codes(newdf, c));
    tempList := CountEach(newdf, c, uniqueData);
    LoopsAgree(rs, s, c, uniqueData, tempList);
    SummaryCounts(rs, s, c, Table(uniqueData, tempList));
  }

  /**
    The outer loop of Final.py:137-144: one count per code of `uniqueData`,
    appended to `temp_list` in the order of the codes.
   */
  method CountEach(rows: seq<Record>, c: Column, uniqueData: seq<string>) returns (tempList: seq<nat>)
    ensures |tempList| == |uniqueData|
    ensures forall i :: 0 <= i < |uniqueData| ==> tempList[i] == multiset(Codes(rows, c))[uniqueData[i]]
    ensures forall i :: 0 <= i < |uniqueData| ==> tempList[i] == Count(rows, c, uniqueData[i])
  {
    tempList := [];
    var j := 0;
    while j < |uniqueData|
      invariant 0 <= j <= |uniqueData|
      invariant |tempList| == j
      invariant forall i :: 0 <= i < j ==> tempList[i] == Count(rows, c, uniqueData[i])
    {
      var count := CountCode(rows, c, uniqueData[j]);
      tempList := tempList + [count];
      j := j + 1;
    }
    forall i | 0 <= i < |uniqueData|
      ensures tempList[i] == multiset(Codes(rows, c))[uniqueData[i]]
    {
      CountIsMultiplicity(rows, c, uniqueData[i]);
    }
  }

  /**
    The inner loop of Final.py:139-143: walks the rows of the state and
    counts those whose code under `c` equals `item`.
   */
  method CountCode(rows: seq<Record>, c: Column, item: string) returns (count: nat)
    ensures count == multiset(Codes(rows, c))[item]
    ensures count == Count(rows, c, item)
  {
    count := 0;
    var k := 0;
    while k < |rows|
      invariant 0 <= k <= |rows|
      invariant count == Count(rows[..k], c, item)
    {
      CountStep(rows, k, c, item);
      if Code(rows[k], c) == item {
        count := count + 1;
      }
      k := k + 1;
    }
    assert rows[..|rows|] == rows;
    CountIsMultiplicity(rows, c, item);
  }

  /** What the loops compute is a summary. */
  lemma LoopsAgree(rs: seq<Record>, s: string, c: Column, u: seq<string>, ns: seq<nat>)
    requires Ascending(u) && Elements(u) == Elements(Codes(InState(rs, s), c))
    requires |ns| == |u|
    requires forall i :: 0 <= i < |u| ==> ns[i] == Count(InState(rs, s), c, u[i])
    ensures IsSummary(rs, s, c, Table(u, ns))
  {
    var sub := InState(rs, s);
    var codes := Codes(sub, c);
    SortedDistinctCharacterised(codes, u);
    assert u == SortedDistinct(codes);
    var counts := Counts(sub, c, u);
    assert ns == counts;
    TabulateCharacterised(rs, s, c, Table(u, ns));
  }
}
