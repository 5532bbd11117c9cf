/** Properties of `_parse_xml_results`: how many rows each list holds, which
    node each row comes from, the fields it copies, the percent identity it
    derives, document order, and the foreign keys between the lists. */
module XmlResultsProofs {
  import opened Wrappers
  import opened BlastReport
  import opened XmlResults

  // ---------------------------------------------------------------------------
  // Splitting the input splits the output.
  // ---------------------------------------------------------------------------

  /** A sequence is what comes before position `i`, the element there, and what follows. */
  lemma SplitAt<X>(s: seq<X>, i: nat)
    requires i < |s|
    ensures s[..i] + [s[i]] + s[i + 1..] == s
  {
  }

  /** The last element of `a + b`, and what precedes it, when `b` is not empty. */
  lemma DropLast<X>(a: seq<X>, b: seq<X>)
    requires b != []
    ensures (a + b)[..|a + b| - 1] == a + b[..|b| - 1]
    ensures (a + b)[|a + b| - 1] == b[|b| - 1]
  {
  }

  lemma {:induction false} IterationsOfAppend(a: seq<IterationsNode>, b: seq<IterationsNode>)
    ensures IterationsOf(a + b) == IterationsOf(a) + IterationsOf(b)
    decreases |b|
  {
    if b == [] {
      assert a + b == a;
    } else {
      var b', last := b[..|b| - 1], b[|b| - 1];
      DropLast(a, b);
      calc {
        IterationsOf(a + b);
        IterationsOf(a + b') + last.iterations;
        { IterationsOfAppend(a, b'); }
        IterationsOf(a) + IterationsOf(b') + last.iterations;
        IterationsOf(a) + (IterationsOf(b') + last.iterations);
      }
    }
  }

  lemma {:induction false} HitRowsAppend(a: seq<Iteration>, b: seq<Iteration>)
    ensures HitRows(a + b) == HitRows(a) + HitRows(b)
    decreases |b|
  {
    if b == [] {
      assert a + b == a;
    } else {
      var b', last := b[..|b| - 1], b[|b| - 1];
      DropLast(a, b);
      calc {
        HitRows(a + b);
        HitRows(a + b') + HitRowsOf(last.hits, last.queryId);
        { HitRowsAppend(a, b'); }
        HitRows(a) + HitRows(b') + HitRowsOf(last.hits, last.queryId);
        HitRows(a) + (HitRows(b') + HitRowsOf(last.hits, last.queryId));
      }
    }
  }

  lemma {:induction false} HspCountOfHitsAppend(a: seq<Hit>, b: seq<Hit>)
    ensures HspCountOfHits(a + b) == HspCountOfHits(a) + HspCountOfHits(b)
    decreases |b|
  {
    if b == [] {
      assert a + b == a;
    } else {
      DropLast(a, b);
      HspCountOfHitsAppend(a, b[..|b| - 1]);
    }
  }

  lemma {:induction false} HspRowsOfHitsAppend(a: seq<Hit>, b: seq<Hit>, queryLen: nat)
    requires queryLen > 0
    ensures HspRowsOfHits(a + b, queryLen) == HspRowsOfHits(a, queryLen) + HspRowsOfHits(b, queryLen)
    decreases |b|
  {
    if b == [] {
      assert a + b == a;
    } else {
      var b', last := b[..|b| - 1], b[|b| - 1];
      DropLast(a, b);
      calc {
        HspRowsOfHits(a + b, queryLen);
        HspRowsOfHits(a + b', queryLen) + HspRowsOf(last.hsps, queryLen, last.id);
        { HspRowsOfHitsAppend(a, b', queryLen); }
        HspRowsOfHits(a, queryLen) + HspRowsOfHits(b', queryLen) + HspRowsOf(last.hsps, queryLen, last.id);
        HspRowsOfHits(a, queryLen) + (HspRowsOfHits(b', queryLen) + HspRowsOf(last.hsps, queryLen, last.id));
      }
    }
  }

  /** Iteration `i` of node `n` is visited after every iteration of the nodes
      before `n` and the `i` earlier iterations of node `n`. */
  lemma IterationAt(nodes: seq<IterationsNode>, n: nat, i: nat)
    requires n < |nodes| && i < |nodes[n].iterations|
    ensures IterationCount(nodes[..n]) + i < |IterationsOf(nodes)|
    ensures IterationsOf(nodes)[IterationCount(nodes[..n]) + i] == nodes[n].iterations[i]
  {
    var pre, node, post := nodes[..n], nodes[n], nodes[n + 1..];
    SplitAt(nodes, n);
    assert [node][..0] == [];
    assert IterationsOf([node]) == node.iterations;
    IterationsOfAppend(pre, [node]);
    IterationsOfAppend(pre + [node], post);
    assert IterationsOf(nodes) == IterationsOf(pre) + node.iterations + IterationsOf(post);
  }

  /** An input is free of zero divisions exactly when both of its halves are. */
  lemma NoZeroDivisionAppend(a: seq<Iteration>, b: seq<Iteration>)
    ensures NoZeroDivision(a + b) <==> NoZeroDivision(a) && NoZeroDivision(b)
  {
    assert forall i :: 0 <= i < |a| ==> (a + b)[i] == a[i];
    assert forall i :: 0 <= i < |b| ==> (a + b)[|a| + i] == b[i];
  }

  /** A clean input has a clean prefix and a clean last iteration. */
  lemma NoZeroDivisionDropLast(b: seq<Iteration>)
    requires b != [] && NoZeroDivision(b)
    ensures NoZeroDivision(b[..|b| - 1]) && !DividesByZero(b[|b| - 1])
  {
    assert forall i :: 0 <= i < |b| - 1 ==> b[..|b| - 1][i] == b[i];
  }

  lemma {:induction false} HspRowsAppend(a: seq<Iteration>, b: seq<Iteration>)
    requires NoZeroDivision(a) && NoZeroDivision(b)
    ensures NoZeroDivision(a + b)
    ensures HspRows(a + b) == HspRows(a) + HspRows(b)
    decreases |b|
  {
    NoZeroDivisionAppend(a, b);
    if b == [] {
      assert a + b == a;
    } else {
      var b', last := b[..|b| - 1], b[|b| - 1];
      DropLast(a, b);
      NoZeroDivisionDropLast(b);
      NoZeroDivisionAppend(a, b');
      calc {
        HspRows(a + b);
        HspRows(a + b') + HspRowsOfHits(last.hits, last.queryLen);
        { HspRowsAppend(a, b'); }
        HspRows(a) + HspRows(b') + HspRowsOfHits(last.hits, last.queryLen);
        HspRows(a) + (HspRows(b') + HspRowsOfHits(last.hits, last.queryLen));
      }
    }
  }

  // ---------------------------------------------------------------------------
  // Where each row sits, and what it holds.
  // ---------------------------------------------------------------------------

  /** Hit `j` of iteration `i` yields the hit row right after the hit rows of
      iterations `0 .. i-1` and hits `0 .. j-1` of iteration `i`. */
  lemma HitRowAt(its: seq<Iteration>, i: nat, j: nat)
    requires i < |its| && j < |its[i].hits|
    ensures HitCount(its[..i]) + j < |HitRows(its)|
    ensures HitRows(its)[HitCount(its[..i]) + j] == HitRowOf(its[i].hits[j], its[i].queryId)
  {
    SplitAt(its, i);
    HitRowsAppend(its[..i] + [its[i]], its[i + 1..]);
    HitRowsAppend(its[..i], [its[i]]);
    assert [its[i]][..0] == [];
  }

  lemma HspRowOfHitsAt(hs: seq<Hit>, queryLen: nat, j: nat, k: nat)
    requires queryLen > 0
    requires j < |hs| && k < |hs[j].hsps|
    ensures HspCountOfHits(hs[..j]) + k < |HspRowsOfHits(hs, queryLen)|
    ensures HspRowsOfHits(hs, queryLen)[HspCountOfHits(hs[..j]) + k]
            == HspRowOf(hs[j].hsps[k], queryLen, hs[j].id)
  {
    SplitAt(hs, j);
    HspRowsOfHitsAppend(hs[..j] + [hs[j]], hs[j + 1..], queryLen);
    HspRowsOfHitsAppend(hs[..j], [hs[j]], queryLen);
    assert [hs[j]][..0] == [];
  }

  /** The HSPs of one hit are among the HSPs of all the hits. */
  lemma HspCountOfHitsAtLeast(hs: seq<Hit>, j: nat)
    requires j < |hs|
    ensures HspCountOfHits(hs) >= |hs[j].hsps|
  {
    SplitAt(hs, j);
    HspCountOfHitsAppend(hs[..j] + [hs[j]], hs[j + 1..]);
    HspCountOfHitsAppend(hs[..j], [hs[j]]);
    assert [hs[j]][..0] == [];
  }

  /** An iteration holding an HSP has a positive query length, once no
      iteration divides by zero. */
  lemma PositiveQueryLength(its: seq<Iteration>, i: nat, j: nat, k: nat)
    requires NoZeroDivision(its)
    requires i < |its| && j < |its[i].hits| && k < |its[i].hits[j].hsps|
    ensures its[i].queryLen > 0
  {
    HspCountOfHitsAtLeast(its[i].hits, j);
    assert !DividesByZero(its[i]);
  }

  /** The parts around iteration `i` are free of zero divisions too. */
  lemma NoZeroDivisionSplit(its: seq<Iteration>, i: nat)
    requires NoZeroDivision(its)
    requires i < |its|
    ensures NoZeroDivision(its[..i] + [its[i]]) && NoZeroDivision(its[i + 1..])
    ensures NoZeroDivision(its[..i]) && !DividesByZero(its[i])
  {
    var pre, it, post := its[..i], its[i], its[i + 1..];
    SplitAt(its, i);
    NoZeroDivisionAppend(pre + [it], post);
    NoZeroDivisionAppend(pre, [it]);
  }

  /** Appending one iteration appends its HSP rows. */
  lemma HspRowsSnoc(pre: seq<Iteration>, it: Iteration)
    requires NoZeroDivision(pre) && !DividesByZero(it)
    ensures NoZeroDivision(pre + [it])
    ensures HspRows(pre + [it]) == HspRows(pre) + HspRowsOfHits(it.hits, it.queryLen)
  {
    NoZeroDivisionAppend(pre, [it]);
    assert (pre + [it])[..|pre|] == pre;
  }

  /** The HSP rows split around iteration `i`. */
  lemma HspRowsSplit(its: seq<Iteration>, i: nat)
    requires NoZeroDivision(its)
    requires i < |its|
    ensures NoZeroDivision(its[..i]) && NoZeroDivision(its[i + 1..])
    ensures its[i].queryLen > 0 || HspCountOfHits(its[i].hits) == 0
    ensures HspRows(its)
            == HspRows(its[..i]) + HspRowsOfHits(its[i].hits, its[i].queryLen) + HspRows(its[i + 1..])
  {
    NoZeroDivisionSplit(its, i);
    SplitAt(its, i);
    HspRowsSnoc(its[..i], its[i]);
    HspRowsAppend(its[..i] + [its[i]], its[i + 1..]);
  }

  /** HSP `k` of hit `j` of iteration `i` yields the HSP row after those of the
      earlier iterations, of the earlier hits of iteration `i`, and of the
      earlier HSPs of hit `j`. */
  lemma HspRowAt(its: seq<Iteration>, i: nat, j: nat, k: nat)
    requires NoZeroDivision(its)
    requires i < |its| && j < |its[i].hits| && k < |its[i].hits[j].hsps|
    ensures its[i].queryLen > 0
    ensures HspCount(its[..i]) + HspCountOfHits(its[i].hits[..j]) + k < |HspRows(its)|
    ensures HspRows(its)[HspCount(its[..i]) + HspCountOfHits(its[i].hits[..j]) + k]
            == HspRowOf(its[i].hits[j].hsps[k], its[i].queryLen, its[i].hits[j].id)
  {
    PositiveQueryLength(its, i, j, k);
    HspRowsSplit(its, i);
    HspRowOfHitsAt(its[i].hits, its[i].queryLen, j, k);
  }

  // ---------------------------------------------------------------------------
  // Every row comes from some node.
  // ---------------------------------------------------------------------------

  lemma {:induction false} HitRowOrigin(its: seq<Iteration>, m: nat)
    requires m < |HitRows(its)|
    ensures exists i, j :: 0 <= i < |its| && 0 <= j < |its[i].hits|
                           && HitRows(its)[m] == HitRowOf(its[i].hits[j], its[i].queryId)
    decreases |its|
  {
    var init := its[..|its| - 1];
    var last := its[|its| - 1];
    if m < |HitRows(init)| {
      HitRowOrigin(init, m);
      var i, j :| 0 <= i < |init| && 0 <= j < |init[i].hits|
                  && HitRows(init)[m] == HitRowOf(init[i].hits[j], init[i].queryId);
      assert init[i] == its[i];
      assert HitRows(its)[m] == HitRowOf(its[i].hits[j], its[i].queryId);
    } else {
      var j := m - |HitRows(init)|;
      assert HitRows(its)[m] == HitRowOf(last.hits[j], last.queryId);
    }
  }

  /** `row` is the HSP row built from HSP `k` of hit `j` of iteration `i`. */
  ghost predicate HspRowFrom(its: seq<Iteration>, row: HspRow, i: nat, j: nat, k: nat)
  {
    && i < |its| && j < |its[i].hits| && k < |its[i].hits[j].hsps|
    && its[i].queryLen > 0
    && row == HspRowOf(its[i].hits[j].hsps[k], its[i].queryLen, its[i].hits[j].id)
  }

  lemma {:induction false} HspRowOfHitsOrigin(hs: seq<Hit>, queryLen: nat, m: nat)
    requires queryLen > 0
    requires m < |HspRowsOfHits(hs, queryLen)|
    ensures exists j, k :: 0 <= j < |hs| && 0 <= k < |hs[j].hsps|
                           && HspRowsOfHits(hs, queryLen)[m] == HspRowOf(hs[j].hsps[k], queryLen, hs[j].id)
    decreases |hs|
  {
    var init := hs[..|hs| - 1];
    var last := hs[|hs| - 1];
    if m < |HspRowsOfHits(init, queryLen)| {
      HspRowOfHitsOrigin(init, queryLen, m);
      var j, k :| 0 <= j < |init| && 0 <= k < |init[j].hsps|
                  && HspRowsOfHits(init, queryLen)[m] == HspRowOf(init[j].hsps[k], queryLen, init[j].id);
      assert init[j] == hs[j];
      assert HspRowsOfHits(hs, queryLen)[m] == HspRowOf(hs[j].hsps[k], queryLen, hs[j].id);
    } else {
      var k := m - |HspRowsOfHits(init, queryLen)|;
      assert HspRowsOfHits(hs, queryLen)[m] == HspRowOf(last.hsps[k], queryLen, last.id);
    }
  }

  lemma {:induction false} HspRowOrigin(its: seq<Iteration>, m: nat)
    requires NoZeroDivision(its)
    requires m < |HspRows(its)|
    ensures exists i, j, k :: HspRowFrom(its, HspRows(its)[m], i, j, k)
    decreases |its|
  {
    var init := its[..|its| - 1];
    var last := its[|its| - 1];
    assert NoZeroDivision(init) by {
      assert forall i :: 0 <= i < |init| ==> init[i] == its[i];
    }
    if m < |HspRows(init)| {
      HspRowOrigin(init, m);
      var i: nat, j: nat, k: nat :| HspRowFrom(init, HspRows(init)[m], i, j, k);
      assert i < |init|;
      assert init[i] == its[i];
      assert HspRowFrom(its, HspRows(its)[m], i, j, k);
    } else {
      var m' := m - |HspRows(init)|;
      assert last.queryLen > 0;
      HspRowOfHitsOrigin(last.hits, last.queryLen, m');
      var j: nat, k: nat :| 0 <= j < |last.hits| && 0 <= k < |last.hits[j].hsps|
                  && HspRowsOfHits(last.hits, last.queryLen)[m'] == HspRowOf(last.hits[j].hsps[k], last.queryLen, last.hits[j].id);
      assert HspRowFrom(its, HspRows(its)[m], |its| - 1, j, k);
    }
  }

  // ---------------------------------------------------------------------------
  // Referential integrity.
  // ---------------------------------------------------------------------------

  /** The identifiers of a list of query rows. */
  function QueryIds(qs: seq<QueryRow>): set<string>
  {
    set q | q in qs :: q.queryId
  }

  /** The identifiers of a list of hit rows. */
  function HitIds(hs: seq<HitRow>): set<string>
  {
    set h | h in hs :: h.hitId
  }

  lemma HitsReferenceQueries(its: seq<Iteration>)
    ensures forall h :: h in HitRows(its) ==> h.queryId in QueryIds(QueryRows(its))
  {
    forall h | h in HitRows(its)
      ensures h.queryId in QueryIds(QueryRows(its))
    {
      var m :| 0 <= m < |HitRows(its)| && HitRows(its)[m] == h;
      HitRowOrigin(its, m);
      var i, j :| 0 <= i < |its| && 0 <= j < |its[i].hits|
                  && HitRows(its)[m] == HitRowOf(its[i].hits[j], its[i].queryId);
      assert QueryRows(its)[i] in QueryRows(its);
    }
  }

  lemma HspsReferenceHits(its: seq<Iteration>)
    requires NoZeroDivision(its)
    ensures forall p :: p in HspRows(its) ==> p.hitId in HitIds(HitRows(its))
  {
    forall p | p in HspRows(its)
      ensures p.hitId in HitIds(HitRows(its))
    {
      var m :| 0 <= m < |HspRows(its)| && HspRows(its)[m] == p;
      HspRowOrigin(its, m);
      var i: nat, j: nat, k: nat :| HspRowFrom(its, HspRows(its)[m], i, j, k);
      HitRowAt(its, i, j);
      assert HitRows(its)[HitCount(its[..i]) + j] in HitRows(its);
    }
  }

  // ---------------------------------------------------------------------------
  // The same properties, stated of the parser's result.
  // ---------------------------------------------------------------------------

  /** The `i`-th iteration in document order is copied, field by field, into
      the `i`-th query row. */
  lemma ParsedQueryRow(report: Report, i: nat)
    requires ParseXmlResults(report).Success?
    requires i < |Iterations(report)|
    ensures var it := Iterations(report)[i];
            var rows := ParseXmlResults(report).value.queries;
            i < |rows| && rows[i] == QueryRow(it.queryId, it.queryDef, it.queryLen)
  {
  }

  /** Hit `j` of the `i`-th iteration in document order is copied, field by
      field, into the hit row at its document position, with the enclosing
      iteration's query-ID as its fourth field. */
  lemma ParsedHitRow(report: Report, i: nat, j: nat)
    requires ParseXmlResults(report).Success?
    requires i < |Iterations(report)| && j < |Iterations(report)[i].hits|
    ensures var its := Iterations(report);
            var rows := ParseXmlResults(report).value.hits;
            var h := its[i].hits[j];
            && HitCount(its[..i]) + j < |rows|
            && rows[HitCount(its[..i]) + j] == HitRow(h.id, h.hitDef, h.accession, its[i].queryId)
  {
    HitRowAt(Iterations(report), i, j);
  }

  /** HSP `k` of hit `j` of the `i`-th iteration is copied into the HSP row at
      its document position: align-len, bit score, e-value and gaps unchanged,
      percent identity 100 * align-len / the iteration's query length, and the
      enclosing hit's identifier last. */
  lemma ParsedHspRow(report: Report, i: nat, j: nat, k: nat)
    requires ParseXmlResults(report).Success?
    requires i < |Iterations(report)| && j < |Iterations(report)[i].hits|
    requires k < |Iterations(report)[i].hits[j].hsps|
    ensures var its := Iterations(report);
            var rows := ParseXmlResults(report).value.hsps;
            var at := HspCount(its[..i]) + HspCountOfHits(its[i].hits[..j]) + k;
            var h := its[i].hits[j];
            var p := h.hsps[k];
            && its[i].queryLen > 0
            && at < |rows|
            && rows[at].alignLength == p.alignLen
            && rows[at].bitScore == p.bitScore
            && rows[at].eValue == p.eValue
            && rows[at].gaps == p.gaps
            && rows[at].percentId == 100.0 * ((rows[at].alignLength as real) / (its[i].queryLen as real))
            && rows[at].hitId == h.id
  {
    HspRowAt(Iterations(report), i, j, k);
  }

  /** No row is invented: every hit row is built from a hit under some
      iteration, and every HSP row from an HSP under some hit. */
  lemma ParsedRowOrigins(report: Report)
    requires ParseXmlResults(report).Success?
    ensures var its := Iterations(report);
            var t := ParseXmlResults(report).value;
            && (forall h :: h in t.hits ==>
                  exists i, j :: 0 <= i < |its| && 0 <= j < |its[i].hits|
                                 && h == HitRowOf(its[i].hits[j], its[i].queryId))
            && (forall p :: p in t.hsps ==> exists i, j, k :: HspRowFrom(its, p, i, j, k))
  {
    var its := Iterations(report);
    forall h | h in HitRows(its)
      ensures exists i, j :: 0 <= i < |its| && 0 <= j < |its[i].hits|
                             && h == HitRowOf(its[i].hits[j], its[i].queryId)
    {
      var m :| 0 <= m < |HitRows(its)| && HitRows(its)[m] == h;
      HitRowOrigin(its, m);
    }
    forall p | p in HspRows(its)
      ensures exists i, j, k :: HspRowFrom(its, p, i, j, k)
    {
      var m :| 0 <= m < |HspRows(its)| && HspRows(its)[m] == p;
      HspRowOrigin(its, m);
    }
  }

  /** Every hit row's query-ID is the ID of some query row, and every HSP row's
      hit-ID is the ID of some hit row: the two foreign keys of the schema hold. */
  lemma ParsedReferentialIntegrity(report: Report)
    requires ParseXmlResults(report).Success?
    ensures var t := ParseXmlResults(report).value;
            && (forall h :: h in t.hits ==> h.queryId in QueryIds(t.queries))
            && (forall p :: p in t.hsps ==> p.hitId in HitIds(t.hits))
  {
    HitsReferenceQueries(Iterations(report));
    HspsReferenceHits(Iterations(report));
  }

  /** The tables of two reports, one after the other. The first error wins. */
  function ConcatParses(a: Result<Tables, ParseError>, b: Result<Tables, ParseError>): Result<Tables, ParseError>
  {
    match a
    case Failure(e) => Failure(e)
    case Success(ta) =>
      match b
      case Failure(e) => Failure(e)
      case Success(tb) => Success(Tables(ta.queries + tb.queries, ta.hits + tb.hits, ta.hsps + tb.hsps))
  }

  /** A zero division in the first part is the first one of the whole. */
  lemma FirstZeroDivisionInLeft(a: seq<Iteration>, b: seq<Iteration>)
    requires FirstZeroDivision(a).Some?
    ensures FirstZeroDivision(a + b) == FirstZeroDivision(a)
  {
    var i := FirstZeroDivision(a).value;
    assert (a + b)[i] == a[i];
    assert (a + b)[..i] == a[..i];
    FirstIsUnique(a + b, FirstZeroDivision(a + b).value, i);
  }

  /** With the first part clean, the first zero division of the whole is the
      second part's, shifted past the first part. */
  lemma FirstZeroDivisionInRight(a: seq<Iteration>, b: seq<Iteration>)
    requires NoZeroDivision(a) && FirstZeroDivision(b).Some?
    ensures FirstZeroDivision(a + b) == Some(|a| + FirstZeroDivision(b).value)
  {
    var i := FirstZeroDivision(b).value;
    assert (a + b)[|a| + i] == b[i];
    assert (a + b)[..|a| + i] == a + b[..i];
    NoZeroDivisionAppend(a, b[..i]);
    FirstIsUnique(a + b, FirstZeroDivision(a + b).value, |a| + i);
  }

  /** Clean parts parse to the concatenation of their rows. */
  lemma RowsAppend(a: seq<Iteration>, b: seq<Iteration>)
    requires NoZeroDivision(a) && NoZeroDivision(b)
    ensures NoZeroDivision(a + b)
    ensures QueryRows(a + b) == QueryRows(a) + QueryRows(b)
    ensures HitRows(a + b) == HitRows(a) + HitRows(b)
    ensures HspRows(a + b) == HspRows(a) + HspRows(b)
  {
    QueryRowsAppend(a, b);
    HitRowsAppend(a, b);
    HspRowsAppend(a, b);
  }

  lemma QueryRowsAppend(a: seq<Iteration>, b: seq<Iteration>)
    ensures QueryRows(a + b) == QueryRows(a) + QueryRows(b)
  {
    var l, r := QueryRows(a + b), QueryRows(a) + QueryRows(b);
    assert |l| == |r|;
    forall i | 0 <= i < |l|
      ensures l[i] == r[i]
    {
      if i < |a| {
        assert (a + b)[i] == a[i];
      } else {
        assert (a + b)[i] == b[i - |a|];
      }
    }
  }

  /** Parsing two runs of iterations one after the other yields the first
      run's rows followed by the second's; the error, if any, is the one the
      earlier run raises. */
  lemma ParseIterationsAppend(a: seq<Iteration>, b: seq<Iteration>)
    ensures ParseIterations(a + b) == ConcatParses(ParseIterations(a), ParseIterations(b))
  {
    if FirstZeroDivision(a).Some? {
      FirstZeroDivisionInLeft(a, b);
      assert (a + b)[FirstZeroDivision(a).value] == a[FirstZeroDivision(a).value];
    } else if FirstZeroDivision(b).Some? {
      FirstZeroDivisionInRight(a, b);
      assert (a + b)[|a| + FirstZeroDivision(b).value] == b[FirstZeroDivision(b).value];
    } else {
      RowsAppend(a, b);
    }
  }

  /** Document order: parsing the `BlastOutput_iterations` nodes of two reports
      placed one after the other yields the first report's rows followed by the
      second's, with nothing sorted, dropped or merged; and the error, if any,
      is the one the earlier part raises. */
  lemma ParseConcat(a: Report, b: Report)
    ensures ParseXmlResults(Report(a.iterationsNodes + b.iterationsNodes))
            == ConcatParses(ParseXmlResults(a), ParseXmlResults(b))
  {
    IterationsOfAppend(a.iterationsNodes, b.iterationsNodes);
    ParseIterationsAppend(Iterations(a), Iterations(b));
  }

  /** An iteration that divides by zero, after clean ones, is the first to. */
  lemma FirstZeroDivisionAt(pre: seq<Iteration>, it: Iteration, post: seq<Iteration>)
    requires NoZeroDivision(pre) && DividesByZero(it)
    ensures FirstZeroDivision(pre + [it] + post) == Some(|pre|)
  {
    var b := [it] + post;
    assert b[0] == it;
    assert b[..0] == [];
    FirstIsUnique(b, FirstZeroDivision(b).value, 0);
    FirstZeroDivisionInRight(pre, b);
    assert pre + [it] + post == pre + b;
  }

  /** Two indices that are each the first zero division are the same. */
  lemma FirstIsUnique(its: seq<Iteration>, i: nat, i': nat)
    requires i < |its| && DividesByZero(its[i]) && NoZeroDivision(its[..i])
    requires i' < |its| && DividesByZero(its[i']) && NoZeroDivision(its[..i'])
    ensures i == i'
  {
  }
}
