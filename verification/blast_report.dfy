/** The BLAST XML report as the ElementTree presents it once parsed, and the
    three relational row kinds (queries, hits, HSPs) it is flattened into.

    Only the children that the parser reads are kept; every one of them is
    present and its text already converted, so `int()` and `float()` cannot
    fail here. */
module BlastReport {

  /** One `Hsp` element: `Hsp_align-len`, `Hsp_bit-score`, `Hsp_evalue`, `Hsp_gaps`. */
  datatype Hsp = Hsp(alignLen: nat, bitScore: real, eValue: real, gaps: nat)

  /** One `Hit` element: `Hit_id`, `Hit_def`, `Hit_accession`, and the `Hsp`
      elements found under `Hit_hsps`, in document order. */
  datatype Hit = Hit(id: string, hitDef: string, accession: string, hsps: seq<Hsp>)

  /** One `Iteration` element (one submitted query): `Iteration_query-ID`,
      `Iteration_query-def`, `Iteration_query-len`, and the `Hit` elements found
      under `Iteration_hits`, in document order. */
  datatype Iteration = Iteration(queryId: string, queryDef: string, queryLen: nat, hits: seq<Hit>)

  /** One `BlastOutput_iterations` child of the root. */
  datatype IterationsNode = IterationsNode(iterations: seq<Iteration>)

  /** The root element: its `BlastOutput_iterations` children, in document order. */
  datatype Report = Report(iterationsNodes: seq<IterationsNode>)

  /** A row of the `queries` table: (queryID, queryDef, queryLength). */
  datatype QueryRow = QueryRow(queryId: string, queryDef: string, queryLength: nat)

  /** A row of the `hits` table: (hitID, hitDef, accession, queryID). */
  datatype HitRow = HitRow(hitId: string, hitDef: string, accession: string, queryId: string)

  /** A row of the `hsps` table: (alignLength, bitScore, eValue, gaps, percentID, hitID).
      The auto-incremented `hspID` is assigned by the database, not by the parser. */
  datatype HspRow = HspRow(alignLength: nat, bitScore: real, eValue: real, gaps: nat,
                           percentId: real, hitId: string)

  /** The three row lists the parser returns. */
  datatype Tables = Tables(queries: seq<QueryRow>, hits: seq<HitRow>, hsps: seq<HspRow>)

  /** Why parsing aborts: an HSP under an iteration whose query length is zero
      makes the percent-identity division raise. Python's `ZeroDivisionError`
      carries no query-ID; the ID is the model's label for the iteration at
      which the raise happens. */
  datatype ParseError = ZeroQueryLength(queryId: string)
}
