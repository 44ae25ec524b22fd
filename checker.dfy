/**
 `check_events` of main.py: one pass over the configured events that fills an
 insertion-ordered status dict, turning every error into `Unclear`.
 */
module Checker {
  import opened Wrappers
  import opened Text
  import opened Classifier

  /** A Python `dict[str, Status]`: entries in insertion order, keys distinct. */
  type StatusMap = seq<(string, Status)>

  /** The page an event's URL yields: the parsed soup, or the error that
      fetching or parsing it raised (`get_html` and `BeautifulSoup(...)`). */
  type Fetched = Result<Soup, Error>

  /** The keys of a dict, or the event names of a configuration, in order. */
  function Keys<V>(d: seq<(string, V)>): (ks: seq<string>)
    ensures |ks| == |d|
    ensures forall i :: 0 <= i < |d| ==> ks[i] == d[i].0
  {
    seq(|d|, i requires 0 <= i < |d| => d[i].0)
  }

  /** `d[k] = v` on a Python dict: an existing key keeps its place and takes
      the new value; a new key goes to the end. */
  function Put(d: StatusMap, k: string, v: Status): (r: StatusMap)
    requires Distinct(Keys(d))
    ensures Distinct(Keys(r))
    ensures k !in Keys(d) ==> r == d + [(k, v)]
    ensures k in Keys(d) ==>
      |r| == |d| && forall i :: 0 <= i < |d| ==> r[i] == (if d[i].0 == k then (k, v) else d[i])
  {
    var i := IndexOf(Keys(d), k);
    if i < |d| then
      assert Keys(d[i := (k, v)]) == Keys(d);
      d[i := (k, v)]
    else
      assert Keys(d + [(k, v)]) == Keys(d) + [k];
      d + [(k, v)]
  }

  /** The body of the `try`/`except` in `check_events`: the classified
      status, or `Unclear` when fetching, parsing or classifying raised. */
  function CheckEvent(fetched: Fetched): (s: Status)
    ensures fetched.Err? ==> s == Unclear
    ensures fetched.Ok? && fetched.value.body.None? ==> s == Unclear
    ensures fetched.Ok? && fetched.value.body.Some? ==> GetStatus(fetched.value) == Ok(s)
  {
    match fetched
    case Err(_) => Unclear
    case Ok(soup) =>
      match GetStatus(soup)
      case Ok(status) => status
      case Err(_) => Unclear
  }

  /** The status dict `check_events` returns, entry by entry. */
  function Checked(events: seq<(string, Fetched)>): (d: StatusMap)
    ensures Keys(d) == Keys(events)
  {
    seq(|events|, i requires 0 <= i < |events| => (events[i].0, CheckEvent(events[i].1)))
  }

  /** `check_events`, with the configured `URLS` and the page each URL yields
      given as `events`. */
  method CheckEvents(events: seq<(string, Fetched)>) returns (eventStatus: StatusMap)
    requires Distinct(Keys(events))
    ensures |eventStatus| == |events|
    ensures Keys(eventStatus) == Keys(events) && Distinct(Keys(eventStatus))
    ensures forall i :: 0 <= i < |events| ==>
      eventStatus[i] == (events[i].0, CheckEvent(events[i].1))
  {
    eventStatus := [];
    for i := 0 to |events|
      invariant eventStatus == Checked(events[..i])
    {
      var (event, fetched) := events[i];
      var status := CheckEvent(fetched);
      assert event !in Keys(eventStatus) by {
        assert Keys(eventStatus) == Keys(events)[..i];
      }
      eventStatus := Put(eventStatus, event, status);
      assert eventStatus == Checked(events[..i + 1]);
    }
    assert events[..|events|] == events;
  }

  /** Error isolation: when the page of event `j` fails, that event becomes
      `Unclear` and every other entry is what it would have been. */
  lemma FailureIsolated(events: seq<(string, Fetched)>, j: nat, e: Error)
    requires j < |events|
    ensures Checked(events[j := (events[j].0, Err(e))]) == Checked(events)[j := (events[j].0, Unclear)]
  {
  }
}
