/** Worked inputs: a small report and a few status-check responses, with what
    the model computes for them. */
module Samples {
  import opened Wrappers
  import opened BlastReport
  import opened XmlResults
  import opened StatusCheck

  /** One query of length 300 with two hits holding three HSPs between them. */
  const Hit1: Hit := Hit("gi|1", "first hit", "AB000001", [Hsp(150, 277.5, 0.0, 0), Hsp(30, 55.0, 0.001, 2)])
  const Hit2: Hit := Hit("gi|2", "second hit", "AB000002", [Hsp(300, 554.0, 0.0, 0)])
  const Query1: Iteration := Iteration("Query_1", "sample query", 300, [Hit1, Hit2])
  const Sample: Report := Report([IterationsNode([Query1])])

  lemma SampleHspRows()
    ensures NoZeroDivision([Query1])
    ensures HspRows([Query1]) == [HspRow(150, 277.5, 0.0, 0, 50.0, "gi|1"),
                                  HspRow(30, 55.0, 0.001, 2, 10.0, "gi|1"),
                                  HspRow(300, 554.0, 0.0, 0, 100.0, "gi|2")]
  {
    assert [Query1][..0] == [];
    assert [Hit1, Hit2][..1] == [Hit1];
    assert [Hit1][..0] == [];
    assert HspRowsOfHits([Hit1], 300) == HspRowsOf(Hit1.hsps, 300, "gi|1");
    assert HspRows([Query1]) == HspRowsOf(Hit1.hsps, 300, "gi|1") + HspRowsOf(Hit2.hsps, 300, "gi|2");
    SampleHsps();
  }

  lemma SampleHsps()
    ensures HspRowsOf(Hit1.hsps, 300, "gi|1") == [HspRow(150, 277.5, 0.0, 0, 50.0, "gi|1"),
                                                  HspRow(30, 55.0, 0.001, 2, 10.0, "gi|1")]
    ensures HspRowsOf(Hit2.hsps, 300, "gi|2") == [HspRow(300, 554.0, 0.0, 0, 100.0, "gi|2")]
  {
    assert PercentIdentity(150, 300) == 50.0;
    assert PercentIdentity(30, 300) == 10.0;
    assert PercentIdentity(300, 300) == 100.0;
  }

  lemma SampleHitRows()
    ensures HitRows([Query1]) == [HitRow("gi|1", "first hit", "AB000001", "Query_1"),
                                  HitRow("gi|2", "second hit", "AB000002", "Query_1")]
  {
    assert [Query1][..0] == [];
    assert HitRows([Query1]) == HitRowsOf([Hit1, Hit2], "Query_1");
  }

  /** The sample yields one query row, two hit rows and three HSP rows, each
      attributed to its parent, with percent identities 50, 10 and 100. */
  lemma SampleParse()
    ensures ParseXmlResults(Sample)
            == Success(Tables(
                 [QueryRow("Query_1", "sample query", 300)],
                 [HitRow("gi|1", "first hit", "AB000001", "Query_1"),
                  HitRow("gi|2", "second hit", "AB000002", "Query_1")],
                 [HspRow(150, 277.5, 0.0, 0, 50.0, "gi|1"),
                  HspRow(30, 55.0, 0.001, 2, 10.0, "gi|1"),
                  HspRow(300, 554.0, 0.0, 0, 100.0, "gi|2")]))
  {
    assert Sample.iterationsNodes[..0] == [];
    assert Iterations(Sample) == [Query1];
    SampleHspRows();
    SampleHitRows();
    assert FirstZeroDivision([Query1]) == None;
    assert [Query1][..0] == [];
    assert QueryRows([Query1]) == [QueryRow("Query_1", "sample query", 300)];
    assert ParseIterations([Query1]) == Success(Tables(QueryRows([Query1]), HitRows([Query1]), HspRows([Query1])));
  }

  /** A zero query length only aborts the parse once an HSP needs it. */
  lemma ZeroLengthQueries()
    ensures ParseXmlResults(Report([IterationsNode([Iteration("Q", "empty", 0, [Hit("h", "d", "a", [])])])])).Success?
    ensures ParseXmlResults(Report([IterationsNode([Iteration("Q", "empty", 0, [Hit("h", "d", "a", [Hsp(1, 1.0, 1.0, 0)])])])]))
            == Failure(ZeroQueryLength("Q"))
  {
    var h, h' := Hit("h", "d", "a", []), Hit("h", "d", "a", [Hsp(1, 1.0, 1.0, 0)]);
    assert [h][..0] == [] && [h'][..0] == [];
    var it, it' := Iteration("Q", "empty", 0, [h]), Iteration("Q", "empty", 0, [h']);
    assert [IterationsNode([it])][..0] == [] && [IterationsNode([it'])][..0] == [];
    assert [it][..0] == [] && [it'][..0] == [];
    assert Iterations(Report([IterationsNode([it'])])) == [it'];
    assert DividesByZero(it');
  }

  /** The status line runs up to the first newline after the first marker;
      a marker with no newline after it gives no status. */
  lemma SampleStatuses()
    ensures ExtractStatus("Status=WAITING\nStatus=READY\n") == Some("WAITING")
    ensures ExtractStatus("Status=WAITING") == None
  {
    var t := "Status=WAITING\nStatus=READY\n";
    assert t[0..7] == Marker;
    assert t[7..7 + 7] == Waiting;
    FirstNewlineEndsLine(t, 7, Waiting);
    var u := "Status=WAITING";
    assert u[0..7] == Marker;
    assert u[7..] == Waiting;
    assert '\n' !in u[7..];
  }

  /** Two WAITING responses, then READY: three checks, READY returned, and
      the response after it is never looked at. */
  lemma SamplePoll()
    ensures Poll(StatusesOf(["Status=WAITING\n", "Status=WAITING\n", "Status=READY\n", "Status=FAILED\n"]))
            == Settled("READY", 3)
  {
    var w, r := "Status=WAITING\n", "Status=READY\n";
    assert w[0..7] == Marker && w[7..7 + 7] == Waiting;
    FirstNewlineEndsLine(w, 7, Waiting);
    assert r[0..7] == Marker && r[7..7 + 5] == "READY";
    FirstNewlineEndsLine(r, 7, "READY");
    var f := "Status=FAILED\n";
    var st := StatusesOf([w, w, r, f]);
    assert st[0] == st[1] == Some(Waiting) && st[2] == Some("READY");
    assert st == [Some(Waiting), Some(Waiting), Some("READY"), ExtractStatus(f)];
    var tail := [Some(Waiting), Some("READY"), ExtractStatus(f)];
    assert st[1..] == tail && tail[1..] == [Some("READY"), ExtractStatus(f)];
  }
}
