/** `_parse_xml_results`: the walk over a parsed BLAST XML report that flattens
    iterations, hits and HSPs into three row lists, each child row carrying its
    parent's identifier.

    Every list function recurses on its LAST element, the way
    `_parse_xml_results` builds its lists by appending. */
module XmlResults {
  import opened Wrappers
  import opened BlastReport

  // ---------------------------------------------------------------------------
  // Counting: the reference against which the row lists are measured.
  // ---------------------------------------------------------------------------

  /** Number of `Iteration` nodes under all the given `BlastOutput_iterations` nodes. */
  function IterationCount(nodes: seq<IterationsNode>): nat
  {
    if nodes == [] then 0
    else IterationCount(nodes[..|nodes| - 1]) + |nodes[|nodes| - 1].iterations|
  }

  /** Number of `Hit` nodes under the given iterations. */
  function HitCount(its: seq<Iteration>): nat
  {
    if its == [] then 0
    else HitCount(its[..|its| - 1]) + |its[|its| - 1].hits|
  }

  /** Number of `Hsp` nodes under the given hits. */
  function HspCountOfHits(hs: seq<Hit>): nat
  {
    if hs == [] then 0
    else HspCountOfHits(hs[..|hs| - 1]) + |hs[|hs| - 1].hsps|
  }

  /** There are HSPs under the given hits exactly when some hit has one. */
  lemma {:induction false} HspCountOfHitsPositive(hs: seq<Hit>)
    ensures HspCountOfHits(hs) > 0 <==> exists j :: 0 <= j < |hs| && |hs[j].hsps| > 0
  {
    if hs != [] {
      var init := hs[..|hs| - 1];
      HspCountOfHitsPositive(init);
      assert forall j :: 0 <= j < |init| ==> init[j] == hs[j];
    }
  }

  /** Number of `Hsp` nodes under the given iterations. */
  function HspCount(its: seq<Iteration>): nat
  {
    if its == [] then 0
    else HspCount(its[..|its| - 1]) + HspCountOfHits(its[|its| - 1].hits)
  }

  // ---------------------------------------------------------------------------
  // Document order of the iterations.
  // ---------------------------------------------------------------------------

  /** The iterations of all `BlastOutput_iterations` nodes, node after node. */
  function IterationsOf(nodes: seq<IterationsNode>): (r: seq<Iteration>)
    ensures |r| == IterationCount(nodes)
  {
    if nodes == [] then []
    else IterationsOf(nodes[..|nodes| - 1]) + nodes[|nodes| - 1].iterations
  }

  /** The iterations the parser visits, in document order. */
  function Iterations(report: Report): (r: seq<Iteration>)
    ensures |r| == IterationCount(report.iterationsNodes)
  {
    IterationsOf(report.iterationsNodes)
  }

  // ---------------------------------------------------------------------------
  // One row per node.
  // ---------------------------------------------------------------------------

  /** The query row built from one iteration. */
  function QueryRowOf(it: Iteration): QueryRow
  {
    QueryRow(it.queryId, it.queryDef, it.queryLen)
  }

  /** The hit row built from one hit of the iteration whose query-ID is `queryId`. */
  function HitRowOf(h: Hit, queryId: string): HitRow
  {
    HitRow(h.id, h.hitDef, h.accession, queryId)
  }

  /** Percent identity: 100 times the alignment length over the query length,
      computed exactly. */
  function PercentIdentity(alignLen: nat, queryLen: nat): (r: real)
    requires queryLen > 0
    ensures r * (queryLen as real) == 100.0 * (alignLen as real)
    ensures 0.0 <= r
    ensures alignLen <= queryLen ==> r <= 100.0
  {
    100.0 * ((alignLen as real) / (queryLen as real))
  }

  /** The HSP row built from one HSP of the hit `hitId`, under an iteration whose
      query length is `queryLen`. */
  function HspRowOf(p: Hsp, queryLen: nat, hitId: string): HspRow
    requires queryLen > 0
  {
    HspRow(p.alignLen, p.bitScore, p.eValue, p.gaps, PercentIdentity(p.alignLen, queryLen), hitId)
  }

  // ---------------------------------------------------------------------------
  // Flattening.
  // ---------------------------------------------------------------------------

  /** One query row per iteration, in order: the iteration's query-ID,
      definition and length. */
  function QueryRows(its: seq<Iteration>): (r: seq<QueryRow>)
    ensures |r| == |its|
    ensures forall i :: 0 <= i < |its| ==> r[i] == QueryRow(its[i].queryId, its[i].queryDef, its[i].queryLen)
  {
    if its == [] then []
    else QueryRows(its[..|its| - 1]) + [QueryRowOf(its[|its| - 1])]
  }

  /** One hit row per hit, in order: the hit's ID, definition and accession,
      attributed to `queryId`. */
  function HitRowsOf(hs: seq<Hit>, queryId: string): (r: seq<HitRow>)
    ensures |r| == |hs|
    ensures forall j :: 0 <= j < |hs| ==> r[j] == HitRow(hs[j].id, hs[j].hitDef, hs[j].accession, queryId)
  {
    if hs == [] then []
    else HitRowsOf(hs[..|hs| - 1], queryId) + [HitRowOf(hs[|hs| - 1], queryId)]
  }

  /** The hit rows of all iterations, iteration after iteration. */
  function HitRows(its: seq<Iteration>): (r: seq<HitRow>)
    ensures |r| == HitCount(its)
  {
    if its == [] then []
    else
      var last := its[|its| - 1];
      HitRows(its[..|its| - 1]) + HitRowsOf(last.hits, last.queryId)
  }

  /** One HSP row per HSP, each attributed to `hitId`, in order. The query
      length only has to be positive when there is something to divide. */
  function HspRowsOf(ps: seq<Hsp>, queryLen: nat, hitId: string): (r: seq<HspRow>)
    requires queryLen > 0 || ps == []
    ensures |r| == |ps|
    ensures forall k :: 0 <= k < |ps| ==> queryLen > 0 && r[k] == HspRowOf(ps[k], queryLen, hitId)
  {
    if ps == [] then []
    else HspRowsOf(ps[..|ps| - 1], queryLen, hitId) + [HspRowOf(ps[|ps| - 1], queryLen, hitId)]
  }

  /** The HSP rows of all hits of one iteration, hit after hit. */
  function HspRowsOfHits(hs: seq<Hit>, queryLen: nat): (r: seq<HspRow>)
    requires queryLen > 0 || HspCountOfHits(hs) == 0
    ensures |r| == HspCountOfHits(hs)
  {
    if hs == [] then []
    else
      var last := hs[|hs| - 1];
      HspRowsOfHits(hs[..|hs| - 1], queryLen) + HspRowsOf(last.hsps, queryLen, last.id)
  }

  /** Evaluating the percent identity of the iteration's HSPs divides by zero:
      its query length is zero and some hit under it has an HSP. */
  predicate DividesByZero(it: Iteration): (b: bool)
    ensures b <==> it.queryLen == 0 && exists j :: 0 <= j < |it.hits| && |it.hits[j].hsps| > 0
  {
    HspCountOfHitsPositive(it.hits);
    it.queryLen == 0 && HspCountOfHits(it.hits) > 0
  }

  /** No iteration makes the parser divide by zero. */
  predicate NoZeroDivision(its: seq<Iteration>)
  {
    forall i :: 0 <= i < |its| ==> !DividesByZero(its[i])
  }

  /** The HSP rows of all iterations, iteration after iteration. */
  function HspRows(its: seq<Iteration>): (r: seq<HspRow>)
    requires NoZeroDivision(its)
    ensures |r| == HspCount(its)
  {
    if its == [] then []
    else
      var last := its[|its| - 1];
      assert !DividesByZero(its[|its| - 1]);
      HspRows(its[..|its| - 1]) + HspRowsOfHits(last.hits, last.queryLen)
  }

  // ---------------------------------------------------------------------------
  // The whole parse.
  // ---------------------------------------------------------------------------

  /** The index of the first iteration that divides by zero, if any. */
  function FirstZeroDivision(its: seq<Iteration>): (r: Option<nat>)
    ensures r.None? <==> NoZeroDivision(its)
    ensures r.Some? ==> r.value < |its| && DividesByZero(its[r.value])
                        && NoZeroDivision(its[..r.value])
  {
    if its == [] then None
    else
      var init := its[..|its| - 1];
      match FirstZeroDivision(init)
      case Some(i) =>
        assert its[..i] == init[..i];
        Some(i)
      case None =>
        assert forall i :: 0 <= i < |init| ==> init[i] == its[i];
        if DividesByZero(its[|its| - 1]) then Some(|its| - 1) else None
  }

  /** The rows of a run of iterations, or the division-by-zero error raised
      at the first HSP of the first iteration whose query length is zero
      (raising discards every row built so far). */
  function ParseIterations(its: seq<Iteration>): (r: Result<Tables, ParseError>)
    ensures r.Success? <==> NoZeroDivision(its)
    ensures r.Success? ==>
              && |r.value.queries| == |its|
              && |r.value.hits| == HitCount(its)
              && |r.value.hsps| == HspCount(its)
    ensures r.Failure? ==>
              exists i :: 0 <= i < |its| && DividesByZero(its[i]) && NoZeroDivision(its[..i])
                          && r.error == ZeroQueryLength(its[i].queryId)
  {
    match FirstZeroDivision(its)
    case Some(i) => Failure(ZeroQueryLength(its[i].queryId))
    case None => Success(Tables(QueryRows(its), HitRows(its), HspRows(its)))
  }

  /** `_parse_xml_results`: the query, hit and HSP rows of the whole report. */
  function ParseXmlResults(report: Report): (r: Result<Tables, ParseError>)
    ensures r.Success? <==> NoZeroDivision(Iterations(report))
    ensures r.Success? ==>
              && |r.value.queries| == IterationCount(report.iterationsNodes)
              && |r.value.hits| == HitCount(Iterations(report))
              && |r.value.hsps| == HspCount(Iterations(report))
  {
    ParseIterations(Iterations(report))
  }
}
