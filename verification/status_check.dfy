/** `_check_status`: the status line is cut out of the status-check response
    with the regular expression `Status=(.*)\n`, and the check is repeated
    while that status is `WAITING`. The HTTP request and the back-off delays
    are not modelled: the responses arrive as a sequence. */
module StatusCheck {
  import opened Wrappers

  /** The literal part of the pattern before the captured group. */
  const Marker: string := "Status="

  /** The one status on which the check is retried. */
  const Waiting: string := "WAITING"

  // ---------------------------------------------------------------------------
  // What `re.search("Status=(.*)\n", text)` finds.
  // ---------------------------------------------------------------------------

  /** `Marker` occurs in `text` at position `p`. */
  predicate MarkerAt(text: string, p: nat)
  {
    p + |Marker| <= |text| && text[p..p + |Marker|] == Marker
  }

  /** The pattern matches at `p` with group `g`: the marker, then `g`, which
      holds no newline because `.` does not match one, then a newline. */
  predicate MatchAt(text: string, p: nat, g: string)
  {
    && MarkerAt(text, p)
    && p + |Marker| + |g| < |text|
    && text[p + |Marker|..p + |Marker| + |g|] == g
    && '\n' !in g
    && text[p + |Marker| + |g|] == '\n'
  }

  /** The pattern matches at `p` with some group: a newline follows the marker. */
  predicate MatchableAt(text: string, p: nat)
  {
    MarkerAt(text, p) && '\n' in text[p + |Marker|..]
  }

  /** The first newline at or after position `from`. */
  function NewlineFrom(text: string, from: nat): (r: Option<nat>)
    requires from <= |text|
    ensures r.Some? ==> from <= r.value < |text| && text[r.value] == '\n'
                        && '\n' !in text[from..r.value]
    ensures r.None? ==> '\n' !in text[from..]
    decreases |text| - from
  {
    if from == |text| then None
    else if text[from] == '\n' then Some(from)
    else
      var r := NewlineFrom(text, from + 1);
      assert r.Some? ==> text[from..r.value] == [text[from]] + text[from + 1..r.value];
      assert text[from..] == [text[from]] + text[from + 1..];
      r
  }

  /** A text with no newline from `a` on has none from any later position. */
  lemma NoNewlineInSuffixes(text: string, a: nat)
    requires a <= |text| && '\n' !in text[a..]
    ensures forall b :: a <= b <= |text| ==> '\n' !in text[b..]
  {
    forall b | a <= b <= |text|
      ensures '\n' !in text[b..]
    {
      assert text[b..] == text[a..][b - a..];
    }
  }

  /** The leftmost match at or after position `from`, with its group. */
  function SearchFrom(text: string, from: nat): (r: Option<(nat, string)>)
    requires from <= |text|
    ensures r.Some? ==> && from <= r.value.0
                        && MatchAt(text, r.value.0, r.value.1)
                        && forall q: nat :: from <= q < r.value.0 ==> !MatchableAt(text, q)
    ensures r.None? ==> forall q: nat :: from <= q ==> !MatchableAt(text, q)
    decreases |text| - from
  {
    if from + |Marker| > |text| then None
    else if text[from..from + |Marker|] == Marker then
      match NewlineFrom(text, from + |Marker|)
      case Some(e) =>
        assert text[from + |Marker|..e] == text[from + |Marker|..from + |Marker| + (e - from - |Marker|)];
        Some((from, text[from + |Marker|..e]))
      case None =>
        NoNewlineInSuffixes(text, from + |Marker|);
        None
    else SearchFrom(text, from + 1)
  }

  /** The captured status of the leftmost match, if the pattern matches. */
  function ExtractStatus(text: string): (r: Option<string>)
    ensures r.Some? ==> exists p: nat :: MatchAt(text, p, r.value)
                                    && forall q: nat :: q < p ==> !MatchableAt(text, q)
    ensures r.None? <==> forall q: nat :: !MatchableAt(text, q)
  {
    match SearchFrom(text, 0)
    case Some((p, g)) =>
      assert MatchableAt(text, p) by { assert text[p + |Marker|..][|g|] == '\n'; }
      Some(g)
    case None => None
  }

  /** A newline-free run followed by a newline ends at the first newline. */
  lemma {:induction false} FirstNewlineEndsLine(text: string, start: nat, g: string)
    requires start + |g| < |text|
    requires text[start..start + |g|] == g && '\n' !in g && text[start + |g|] == '\n'
    ensures NewlineFrom(text, start) == Some(start + |g|)
    decreases |g|
  {
    if g != [] {
      assert text[start] == g[0];
      assert text[start + 1..start + 1 + |g[1..]|] == g[1..];
      FirstNewlineEndsLine(text, start + 1, g[1..]);
    }
  }

  /** At a given position the pattern can match with one group only, so the
      greedy `.*` and any other reading of it capture the same status. */
  lemma MatchGroupUnique(text: string, p: nat, g: string, g': string)
    requires MatchAt(text, p, g) && MatchAt(text, p, g')
    ensures g == g'
  {
    FirstNewlineEndsLine(text, p + |Marker|, g);
    FirstNewlineEndsLine(text, p + |Marker|, g');
  }

  // ---------------------------------------------------------------------------
  // Retrying while the status is WAITING.
  // ---------------------------------------------------------------------------

  /** How a run of status checks ends.
      - Settled: the `attempts`-th check returned `status`, which is not
        `WAITING`; this is what the decorated `_check_status` returns.
      - StatusMissing: the `attempts`-th response held no status line, so the
        status variable was never bound and the check raised.
      - StillWaiting: every given check returned `WAITING`; the back-off
        would go on retrying. */
  datatype PollOutcome = Settled(status: string, attempts: nat)
                       | StatusMissing(attempts: nat)
                       | StillWaiting

  /** One more check came before the outcome. */
  function AfterOneMore(o: PollOutcome): PollOutcome
  {
    match o
    case Settled(s, n) => Settled(s, n + 1)
    case StatusMissing(n) => StatusMissing(n + 1)
    case StillWaiting => StillWaiting
  }

  /** The back-off decorator around `_check_status`, fed the results of the
      successive checks (`None` where the check raised): it retries exactly
      while the status is `WAITING` and returns the first one that is not. */
  function Poll(statuses: seq<Option<string>>): (o: PollOutcome)
    ensures o.Settled? ==>
              && 1 <= o.attempts <= |statuses|
              && statuses[o.attempts - 1] == Some(o.status)
              && o.status != Waiting
              && forall k :: 0 <= k < o.attempts - 1 ==> statuses[k] == Some(Waiting)
    ensures o.StatusMissing? ==>
              && 1 <= o.attempts <= |statuses|
              && statuses[o.attempts - 1].None?
              && forall k :: 0 <= k < o.attempts - 1 ==> statuses[k] == Some(Waiting)
    ensures o.StillWaiting? <==> forall k :: 0 <= k < |statuses| ==> statuses[k] == Some(Waiting)
    decreases |statuses|
  {
    if statuses == [] then StillWaiting
    else
      match statuses[0]
      case None => StatusMissing(1)
      case Some(s) =>
        if s != Waiting then Settled(s, 1)
        else
          var rest := statuses[1..];
          assert forall k :: 0 <= k < |rest| ==> rest[k] == statuses[k + 1];
          AfterOneMore(Poll(rest))
  }

  /** What the successive checks return for the successive responses. */
  function StatusesOf(responses: seq<string>): (r: seq<Option<string>>)
    ensures |r| == |responses|
    ensures forall k :: 0 <= k < |responses| ==> r[k] == ExtractStatus(responses[k])
  {
    if responses == [] then []
    else [ExtractStatus(responses[0])] + StatusesOf(responses[1..])
  }

  /** Once a check settles or raises, no further check is made: the outcome
      is the same whatever the later checks would have returned. */
  lemma {:induction false} PollStopsEarly(statuses: seq<Option<string>>, later: seq<Option<string>>)
    requires !Poll(statuses).StillWaiting?
    ensures Poll(statuses + later) == Poll(statuses)
    decreases |statuses|
  {
    var all := statuses + later;
    assert all[0] == statuses[0];
    if statuses[0] == Some(Waiting) {
      assert all[1..] == statuses[1..] + later;
      PollStopsEarly(statuses[1..], later);
    }
  }
}
