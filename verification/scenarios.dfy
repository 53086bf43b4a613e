/**
  Worked examples of the frequency summary on small data sets. Only the
  fields named in each example are fixed; the rest may be anything.
 */
module Scenarios {
  import opened StrOrder
  import opened SortDedup
  import opened Schools
  import opened Frequency

  /** Three Massachusetts schools with locale codes 11, 12, 11 and one Californian school coded 21. */
  predicate Massachusetts(rs: seq<Record>) {
    && |rs| == 4
    && rs[0].state == "MA" && rs[0].locale == "11"
    && rs[1].state == "MA" && rs[1].locale == "12"
    && rs[2].state == "MA" && rs[2].locale == "11"
    && rs[3].state == "CA" && rs[3].locale == "21"
  }

  lemma MassachusettsSubset(rs: seq<Record>)
    requires Massachusetts(rs)
    ensures InState(rs, "MA") == rs[..3]
  {
    assert rs[..3][..2][..1][..0] == [];
    assert rs[..3][..2][..1] == rs[..1];
    assert rs[..3][..2] == rs[..2];
    assert rs[..3] == rs[..|rs| - 1];
    assert InState(rs[..1], "MA") == rs[..1];
    assert InState(rs[..2], "MA") == rs[..2];
  }

  lemma MassachusettsCounts(rs: seq<Record>)
    requires Massachusetts(rs)
    ensures Count(rs[..3], Locale, "11") == 2
    ensures Count(rs[..3], Locale, "12") == 1
  {
    var sub := rs[..3];
    assert sub[..2][..1][..0] == [];
    assert sub[..2][..1] == sub[..1];
    assert sub[..|sub| - 1] == sub[..2];
    assert Count(sub[..1], Locale, "11") == 1;
    assert Count(sub[..2], Locale, "11") == 1;
    assert Count(sub[..1], Locale, "12") == 0;
    assert Count(sub[..2], Locale, "12") == 1;
  }

  lemma MassachusettsCodes(rs: seq<Record>)
    requires Massachusetts(rs)
    ensures Tabulate(rs, "MA", Locale).codes == ["11", "12"]
  {
    var t := Tabulate(rs, "MA", Locale);
    TabulateIsSummary(rs, "MA", Locale);
    var u: seq<string> := ["11", "12"];
    assert Ascending(u) by {
      assert Below("11", "12");
    }
    forall v | v in t.codes
      ensures v in u
    {
      var i :| 0 <= i < |rs| && rs[i].state == "MA" && Code(rs[i], Locale) == v;
      assert i == 0 || i == 1 || i == 2 || i == 3;
    }
    assert Code(rs[0], Locale) == "11" && Code(rs[1], Locale) == "12";
    assert Elements(t.codes) == Elements(u);
    AscendingUnique(t.codes, u);
  }

  /** The chart for Massachusetts shows locale 11 twice and locale 12 once. */
  lemma MassachusettsLocales(rs: seq<Record>)
    requires Massachusetts(rs)
    ensures FreqGraph(rs, "MA", Locale) == Ok(Table(["11", "12"], [2, 1]))
  {
    MassachusettsSubset(rs);
    MassachusettsCounts(rs);
    MassachusettsCodes(rs);
    var t := Tabulate(rs, "MA", Locale);
    TabulateIsSummary(rs, "MA", Locale);
    assert t.counts[0] == 2 && t.counts[1] == 1;
    assert t.counts == [2, 1];
  }

  /** The same data has no New York school, so the chart's dictionary read fails. */
  lemma NewYorkMissing(rs: seq<Record>)
    requires Massachusetts(rs)
    ensures FreqGraph(rs, "NY", Locale) == Err(KeyError("NY"))
  {
    assert forall i :: 0 <= i < |rs| ==> rs[i].state != "NY";
  }

  /** Two Texan schools, both unclassified under CBSA. */
  predicate Texas(rs: seq<Record>) {
    && |rs| == 2
    && rs[0].state == "TX" && rs[0].cbsa == "N"
    && rs[1].state == "TX" && rs[1].cbsa == "N"
  }

  /** The summary counts the sentinel like any other code: "N" appears twice. */
  lemma TexasSentinelCounted(rs: seq<Record>)
    requires Texas(rs)
    ensures FreqGraph(rs, "TX", Cbsa) == Ok(Table(["N"], [2]))
  {
    assert rs[..1][..0] == [];
    assert rs[..|rs| - 1] == rs[..1];
    assert InState(rs[..1], "TX") == rs[..1];
    assert InState(rs, "TX") == rs;
    assert Count(rs[..1], Cbsa, "N") == 1;
    assert Count(rs, Cbsa, "N") == 2;
    var t := Tabulate(rs, "TX", Cbsa);
    TabulateIsSummary(rs, "TX", Cbsa);
    forall v | v in t.codes
      ensures v == "N"
    {
      var i :| 0 <= i < |rs| && rs[i].state == "TX" && Code(rs[i], Cbsa) == v;
    }
    assert Code(rs[0], Cbsa) == "N";
    assert Elements(t.codes) == Elements(["N"]);
    AscendingUnique(t.codes, ["N"]);
    assert t.counts == [2];
  }
}
