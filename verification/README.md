# BLASTrunner result parser and status poller, in Dafny

BLASTrunner is meant to submit a sequence to NCBI's web BLAST service, poll
the job's status, fetch the XML alignment report and load it into three SQLite
tables: `queries`, `hits` and `hsps`. In `BLASTrunner.py` only the parse and
the load run, on a report that `_fetch_results` reads from a static
`results.xml` (`BLASTrunner.py:88`). `run_blast` uses a fixed job ID
(`BLASTrunner.py:247`). The submission and the status check are commented out
(`BLASTrunner.py:205-246`). This project models the two pieces of the program
that are pure logic, and proves properties of them:

- `_parse_xml_results` (`BLASTrunner.py`). It walks the parsed report tree and
  flattens it into three row lists:
  - one query row `(queryID, queryDef, queryLength)` per `Iteration`;
  - one hit row `(hitID, hitDef, accession, queryID)` per `Hit`, carrying the
    enclosing iteration's query-ID;
  - one HSP row `(alignLength, bitScore, eValue, gaps, percentID, hitID)` per
    `Hsp`. It carries the enclosing hit's ID and the percent identity
    `100 * alignLength / queryLength`.
- The pure part of `_check_status`, which is defined but has no live caller.
  It cuts the status out of the status-check response with
  `re.search("Status=(.*)\n")`. The back-off decorator then retries while
  that status is `WAITING`.

## Layout

- `wrappers.dfy`: `Option` and `Result`.
- `blast_report.dfy`: the parsed report tree (`Report`, `IterationsNode`,
  `Iteration`, `Hit`, `Hsp`), the three row types, and `ParseError`.
- `xml_results.dfy`: the parser as pure functions. Each list function recurses
  on its last element, just as `_parse_xml_results` appends. Counting functions
  (`IterationCount`, `HitCount`, `HspCount`) serve as the reference the row
  lists are measured against.
- `xml_results_proofs.dfy`: for each row, its position and contents; counts;
  which node each row comes from; document order; and the foreign keys
  between the lists.
- `xml_results_loop.dfy`: the parser written as `BLASTrunner.py`'s nested loops.
  Each loop is proved to compute what the functional model defines.
- `status_check.dfy`: status extraction and the retry-while-`WAITING` poll.
- `samples.dfy`: worked inputs. One is a report with one query of length 300,
  two hits and three HSPs. The others are zero-length queries and a few status
  responses.

## Modelling decisions

- The input is the tree after ElementTree has parsed it. Every field the
  parser reads is present. Integer fields are already `nat`, and
  `Hsp_bit-score` and `Hsp_evalue` are exact `real`s.
- `root.findall("BlastOutput_iterations")` can return several nodes, so a
  `Report` holds a sequence of `IterationsNode`s. Their iterations are visited
  node after node (`Iterations`).
- `findall("Iteration_hits/Hit")` and `findall("Hit_hsps/Hsp")` return the
  matching grandchildren in document order. They are modelled directly as the
  `hits` and `hsps` sequences.
- Percent identity is `100.0 * (alignLen / queryLen)` over the reals. Python
  raises `ZeroDivisionError` when the query length is 0, but only once an HSP
  under that iteration is reached. The raise discards all rows built so far.
  The model returns `Failure(ZeroQueryLength(queryId))` for the first such
  iteration in document order. Python's `ZeroDivisionError` carries no
  query-ID: the ID is the model's label for the iteration at which the raise
  happens. An iteration with query length 0 and no HSPs
  parses normally.
- `re.search("Status=(.*)\n", text)` finds the leftmost `Status=` that is
  followed, somewhere later, by a newline. `.` does not match a newline, so
  the group is exactly the text up to the first newline after the marker.
  There is never more than one possible group (`MatchGroupUnique`).
- When the response has no status line, `_check_status` never binds `status`,
  and `return status` raises `UnboundLocalError`. The decorator does not catch
  that exception. A check that raised is `None` in the statuses `Poll`
  consumes, and `Poll` ends with `StatusMissing`.
- `Poll` gets the results of the successive checks as a finite sequence. The
  decorator has no attempt cap (`max_value=60` caps only the delay). If every
  given result is `WAITING`, the outcome is `StillWaiting`.
- The status the check retries on is `WAITING` (`BLASTrunner.py:41`).
- A zero query length raises only when an HSP under it needs the division
  (`BLASTrunner.py:136-140`). An iteration is not rejected for its length alone.
- Job-ID/ETA extraction and the FAILED/UNKNOWN/READY dispatch are commented out
  in `run_blast` (`BLASTrunner.py:205-246`).

## Model

| member | source | states |
|---|---|---|
| `XmlResults.ParseXmlResults` | BLASTrunner.py:93-145 | The parse succeeds exactly when no iteration has query length 0 and an HSP under it. On success there is one query row per `Iteration` node under all `BlastOutput_iterations` nodes, one hit row per `Hit` and one HSP row per `Hsp` |
| `XmlResults.ParseIterations` | BLASTrunner.py:109-145 | For a run of iterations: succeeds exactly when none divides by zero, with row counts equal to the iteration, hit and HSP counts. On failure the error names the first iteration that divides by zero, and every earlier one is clean |
| `XmlResults.FirstZeroDivision` | BLASTrunner.py:136-140 | Finds the first iteration whose percent-identity division would raise, with no earlier one raising. Returns none exactly when no iteration raises |
| `XmlResultsProofs.IterationAt` | BLASTrunner.py:108-109 | Iteration `i` of node `n` is visited at position (iterations of earlier nodes) + `i`: node after node, in document order |
| `XmlResults.PercentIdentity` | BLASTrunner.py:136-140 | 100 × alignLen / queryLen as an exact real, defined only for a positive query length. It times the query length gives 100 × alignLen, it is never negative, and it is at most 100 when the alignment is no longer than the query |
| `XmlResults.DividesByZero` | BLASTrunner.py:118-140 | Line 139 raises for an iteration exactly when its query length is 0 and some hit under it has an HSP |
| `XmlResults.HspCountOfHitsPositive` | BLASTrunner.py:118-128 | There are HSPs under an iteration's hits exactly when some hit has one, so the inner loop body runs at least once |
| `XmlResults.IterationsOf` | BLASTrunner.py:108-109 | The iterations visited number exactly the `Iteration` nodes under all `BlastOutput_iterations` nodes. `Iterations` is the parser's entry to it, applied to a report's nodes |
| `XmlResults.QueryRows` | BLASTrunner.py:109-116 | One query row per iteration, in order. Row `i` is `(queryID, queryDef, queryLength)`, taken from iteration `i`'s `Iteration_query-ID`, `Iteration_query-def` and `Iteration_query-len`. `QueryRowOf` builds this tuple, as lines 111-115 do |
| `XmlResults.HitRowsOf` | BLASTrunner.py:118-126 | One hit row per hit of an iteration, in order. Row `j` is `(hitID, hitDef, accession, queryID)`: `Hit_id`, `Hit_def` and `Hit_accession` of hit `j`, then the iteration's query-ID. `HitRowOf` builds this tuple, as lines 120-125 do |
| `XmlResults.HitRows` | BLASTrunner.py:109-126 | The hit list has as many rows as there are `Hit` nodes under all iterations |
| `XmlResults.HspRowsOf` | BLASTrunner.py:128-143 | One HSP row per HSP of a hit, in order. Row `k` is built from HSP `k` under a positive query length and carries the hit's ID. `HspRowOf` builds this tuple, as lines 131-142 do |
| `XmlResults.HspRowsOfHits` | BLASTrunner.py:118-143 | An iteration contributes as many HSP rows as there are `Hsp` nodes under its hits |
| `XmlResults.HspRows` | BLASTrunner.py:109-143 | The HSP list has as many rows as there are `Hsp` nodes under all iterations |
| `XmlResultsLoop.ParseHsps` | BLASTrunner.py:128-143 | The HSP loop raises exactly when the query length is 0 and the hit has an HSP. Otherwise it yields the hit's HSP rows |
| `XmlResultsLoop.ParseHits` | BLASTrunner.py:118-143 | The hit loop raises exactly when the iteration divides by zero, with that iteration's query-ID. Otherwise it yields the iteration's hit rows and HSP rows |
| `XmlResultsLoop.ParseIterationsLoop` | BLASTrunner.py:109-143 | The loop over one node's iterations returns exactly what `ParseIterations` defines, error included |
| `XmlResultsLoop.ParseXmlResultsLoop` | BLASTrunner.py:104-145 | `_parse_xml_results`'s nested loops, appending to three lists, return exactly what `ParseXmlResults` defines |
| `XmlResultsProofs.HitRowAt` | BLASTrunner.py:118-126 | Hit `j` of iteration `i` becomes the hit row at position (hits of earlier iterations) + `j`, attributed to iteration `i`'s query-ID |
| `XmlResultsProofs.HspRowAt` | BLASTrunner.py:128-143 | HSP `k` of hit `j` of iteration `i` becomes the HSP row at position (HSPs of earlier iterations) + (HSPs of earlier hits) + `k`, built with iteration `i`'s query length and hit `j`'s ID |
| `XmlResultsProofs.ParsedQueryRow` | BLASTrunner.py:109-116 | In the parser's output, the `i`-th query row holds the `i`-th iteration's query-ID, definition and length |
| `XmlResultsProofs.ParsedHitRow` | BLASTrunner.py:118-126 | In the parser's output, each hit's row sits at its document position and holds its ID, definition and accession. Its 4th field is the enclosing iteration's query-ID |
| `XmlResultsProofs.ParsedHspRow` | BLASTrunner.py:128-143 | In the parser's output, each HSP's row sits at its document position. It copies align-len, bit score, e-value and gaps unchanged. Its percentID is 100 × that row's align-len / the enclosing query length, and its last field is the enclosing hit's ID |
| `XmlResultsProofs.ParsedRowOrigins` | BLASTrunner.py:104-145 | No row is invented: every hit row is built from some hit of some iteration, and every HSP row from some HSP of some hit |
| `XmlResultsProofs.ParsedReferentialIntegrity` | BLASTrunner.py:104-145 | Every hit row's queryID is the ID of a query row, and every HSP row's hitID is the ID of a hit row. These are the foreign keys the `hits` and `hsps` tables declare |
| `XmlResultsProofs.HitRowOrigin` | BLASTrunner.py:118-126 | Every hit row at any position comes from some hit `j` of some iteration `i`, with that iteration's query-ID |
| `XmlResultsProofs.HspRowOrigin` | BLASTrunner.py:128-143 | Every HSP row at any position comes from some HSP `k` of some hit `j` of some iteration `i` |
| `XmlResultsProofs.HitsReferenceQueries` | BLASTrunner.py:111-126 | Every hit row's query-ID appears among the query rows' IDs |
| `XmlResultsProofs.HspsReferenceHits` | BLASTrunner.py:118-143 | Every HSP row's hit-ID appears among the hit rows' IDs |
| `XmlResultsProofs.IterationsOfAppend` | BLASTrunner.py:108-109 | The iterations of two runs of `BlastOutput_iterations` nodes are the first run's followed by the second's |
| `XmlResultsProofs.QueryRowsAppend` | BLASTrunner.py:109-116 | The query rows of two runs of iterations are the first run's followed by the second's |
| `XmlResultsProofs.HitRowsAppend` | BLASTrunner.py:109-126 | The hit rows of two runs of iterations are the first run's followed by the second's |
| `XmlResultsProofs.HspRowsAppend` | BLASTrunner.py:109-143 | The HSP rows of two clean runs of iterations are the first run's followed by the second's |
| `XmlResultsProofs.ParseIterationsAppend` | BLASTrunner.py:109-145 | Parsing two runs of iterations one after the other yields the first run's rows followed by the second's, or the earlier run's error |
| `XmlResultsProofs.ParseConcat` | BLASTrunner.py:104-145 | Document order: a report built from two reports' `BlastOutput_iterations` nodes parses to the first report's rows followed by the second's, with nothing sorted, dropped or merged. The error, if any, is the one the earlier part raises |
| `StatusCheck.ExtractStatus` | BLASTrunner.py:60-62 | The status is the group of the leftmost match of `Status=(.*)\n`: the marker, then newline-free text, then a newline, with no match starting earlier. It is absent exactly when the pattern matches nowhere |
| `StatusCheck.SearchFrom` | BLASTrunner.py:60 | The regular-expression search from a position returns the leftmost match position and its group, or nothing when no match starts at or after it |
| `StatusCheck.NewlineFrom` | BLASTrunner.py:60 | The `\n` that closes the match is the first newline after the marker |
| `StatusCheck.MatchGroupUnique` | BLASTrunner.py:60 | At a given position the pattern matches with one group at most, so the greedy `.*` captures exactly the text up to the first newline |
| `StatusCheck.Poll` | BLASTrunner.py:41-65 | The decorated check returns the first status that is not `WAITING`, after exactly one retry per preceding `WAITING`. It raises at the first check with no status line. It keeps retrying exactly while every status is `WAITING` |
| `StatusCheck.StatusesOf` | BLASTrunner.py:57-65 | The `k`-th check returns the status extracted from the `k`-th response |
| `StatusCheck.PollStopsEarly` | BLASTrunner.py:41 | Once a check returns a status other than `WAITING`, or raises, no further check is made: later results cannot change the outcome |
| `Samples.SampleParse` | BLASTrunner.py:93-145 | One query of length 300 with two hits and three HSPs parses to 1, 2 and 3 rows. Each is attributed to its parent, and the percent identities are 50, 10 and 100 |
| `Samples.ZeroLengthQueries` | BLASTrunner.py:136-140 | A zero query length aborts the parse only when an HSP under it needs the division |
| `Samples.SampleStatuses` | BLASTrunner.py:60-62 | With two status lines the first one wins. A marker with no newline after it gives no status |
| `Samples.SamplePoll` | BLASTrunner.py:41-65 | WAITING, WAITING, READY, FAILED: three checks, and READY is returned |

## Left out

- HTTP requests to the BLAST endpoint (`requests.post` in `_check_status`) and
  the read of the static `results.xml` in `_fetch_results`: network and file
  I/O. The responses and the parsed tree become parameters.
- XML text parsing by ElementTree, and `int()` / `float()` conversion of
  element text: foreign library calls. Missing elements, empty text (`None`)
  and unparsable numbers cannot occur in the datatype.
- Negative integers in `Hsp_align-len`, `Hsp_gaps` or `Iteration_query-len`:
  `int()` would accept them, but the fields are modelled as `nat`.
- Elements the parser does not read, and several `Iteration_hits` or
  `Hit_hsps` wrappers under one node: each node holds the single sequence
  `findall` would return.
- Python float rounding of percentID, bit score and e-value: these are exact
  reals.
- The back-off's Fibonacci delays, the 60-second delay cap and the sleeps:
  wall-clock waiting. Only the retry-while-`WAITING` predicate is modelled.
- The `Status = ...` console print: output only.
- SQLite schema creation and batch inserts (`_initialize_database`,
  `_load_results_into_database`), including primary-key and foreign-key
  enforcement: an external database engine. The parser does not deduplicate,
  so repeated hit IDs would reach the primary-key constraint at insert time.
- The `sys.exit` error paths and the argparse command line: process plumbing.
- `_check_status` is defined but never called: its only call is commented out
  (`BLASTrunner.py:235`). The extraction and the poll are modelled as the
  function would behave if it were called.
- The commented-out submission, RID/RTOE extraction and status dispatch in
  `run_blast`: inactive code, with no behaviour to model.
- `StatusCheck.Poll` covers a finite run of checks. An unending run of
  `WAITING` (the decorator has no attempt cap) appears only as `StillWaiting`
  over every prefix.
