/** `_parse_xml_results` as BLASTrunner.py writes it: nested loops over iterations,
    hits and HSPs, appending one row per node to three growing lists. Each
    method is proved to compute what the functional model defines. */
module XmlResultsLoop {
  import opened Wrappers
  import opened BlastReport
  import opened XmlResults
  import opened XmlResultsProofs

  /** The innermost loop, over the HSPs of one hit. The percent identity
      divides by the iteration's query length, so the first HSP under a
      zero-length query raises. */
  method ParseHsps(it: Iteration, hit: Hit) returns (r: Result<seq<HspRow>, ParseError>)
    ensures r.Failure? <==> it.queryLen == 0 && |hit.hsps| > 0
    ensures r.Failure? ==> r.error == ZeroQueryLength(it.queryId)
    ensures r.Success? ==> r.value == HspRowsOf(hit.hsps, it.queryLen, hit.id)
  {
    var rows: seq<HspRow> := [];
    var k := 0;
    while k < |hit.hsps|
      invariant k <= |hit.hsps|
      invariant it.queryLen > 0 || k == 0
      invariant rows == HspRowsOf(hit.hsps[..k], it.queryLen, hit.id)
    {
      if it.queryLen == 0 {
        return Failure(ZeroQueryLength(it.queryId));
      }
      assert hit.hsps[..k + 1][..k] == hit.hsps[..k];
      rows := rows + [HspRowOf(hit.hsps[k], it.queryLen, hit.id)];
      k := k + 1;
    }
    assert hit.hsps[..k] == hit.hsps;
    return Success(rows);
  }

  /** The middle loop, over the hits of one iteration: a hit row carrying the
      iteration's query-ID, then the hit's HSP rows. */
  method ParseHits(it: Iteration) returns (r: Result<(seq<HitRow>, seq<HspRow>), ParseError>)
    ensures r.Failure? <==> DividesByZero(it)
    ensures r.Failure? ==> r.error == ZeroQueryLength(it.queryId)
    ensures r.Success? ==> && r.value.0 == HitRowsOf(it.hits, it.queryId)
                           && r.value.1 == HspRowsOfHits(it.hits, it.queryLen)
  {
    var hitRows: seq<HitRow> := [];
    var hspRows: seq<HspRow> := [];
    var j := 0;
    while j < |it.hits|
      invariant j <= |it.hits|
      invariant it.queryLen > 0 || HspCountOfHits(it.hits[..j]) == 0
      invariant hitRows == HitRowsOf(it.hits[..j], it.queryId)
      invariant hspRows == HspRowsOfHits(it.hits[..j], it.queryLen)
    {
      var hit := it.hits[j];
      hitRows := hitRows + [HitRowOf(hit, it.queryId)];
      var rows := ParseHsps(it, hit);
      if rows.Failure? {
        HspCountOfHitsAtLeast(it.hits, j);
        return Failure(rows.error);
      }
      assert it.hits[..j + 1][..j] == it.hits[..j];
      hspRows := hspRows + rows.value;
      j := j + 1;
    }
    assert it.hits[..j] == it.hits;
    return Success((hitRows, hspRows));
  }

  /** The loop over the iterations of one `BlastOutput_iterations` node: a
      query row per iteration, then its hit and HSP rows. */
  method ParseIterationsLoop(its: seq<Iteration>) returns (r: Result<Tables, ParseError>)
    ensures r == ParseIterations(its)
  {
    var queries: seq<QueryRow> := [];
    var hits: seq<HitRow> := [];
    var hsps: seq<HspRow> := [];
    var i := 0;
    while i < |its|
      invariant i <= |its|
      invariant NoZeroDivision(its[..i])
      invariant queries == QueryRows(its[..i])
      invariant hits == HitRows(its[..i])
      invariant hsps == HspRows(its[..i])
    {
      var it := its[i];
      queries := queries + [QueryRowOf(it)];
      var rows := ParseHits(it);
      if rows.Failure? {
        SplitAt(its, i);
        FirstZeroDivisionAt(its[..i], it, its[i + 1..]);
        return Failure(rows.error);
      }
      var done := its[..i];
      assert its[..i + 1] == done + [it];
      assert (done + [it])[..i] == done;
      HspRowsSnoc(done, it);
      hits := hits + rows.value.0;
      hsps := hsps + rows.value.1;
      i := i + 1;
    }
    assert its[..i] == its;
    return Success(Tables(queries, hits, hsps));
  }

  /** The outer loop, over the `BlastOutput_iterations` children of the root,
      appending each node's rows to the lists built so far. */
  method ParseXmlResultsLoop(report: Report) returns (r: Result<Tables, ParseError>)
    ensures r == ParseXmlResults(report)
  {
    var queries: seq<QueryRow> := [];
    var hits: seq<HitRow> := [];
    var hsps: seq<HspRow> := [];
    var nodes := report.iterationsNodes;
    var n := 0;
    while n < |nodes|
      invariant n <= |nodes|
      invariant ParseIterations(IterationsOf(nodes[..n])) == Success(Tables(queries, hits, hsps))
    {
      var part := ParseIterationsLoop(nodes[n].iterations);
      assert nodes[..n + 1][..n] == nodes[..n];
      ParseIterationsAppend(IterationsOf(nodes[..n]), nodes[n].iterations);
      if part.Failure? {
        assert nodes[..n + 1] + nodes[n + 1..] == nodes;
        IterationsOfAppend(nodes[..n + 1], nodes[n + 1..]);
        ParseIterationsAppend(IterationsOf(nodes[..n + 1]), IterationsOf(nodes[n + 1..]));
        return Failure(part.error);
      }
      queries := queries + part.value.queries;
      hits := hits + part.value.hits;
      hsps := hsps + part.value.hsps;
      n := n + 1;
    }
    assert nodes[..n] == nodes;
    return Success(Tables(queries, hits, hsps));
  }
}
