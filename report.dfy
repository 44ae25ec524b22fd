/**
 The formatting half of main.py: the notification body built from the
 status dict, the two existence tests and the title, priority and tag they
 select.
 */
module Report {
  import opened Wrappers
  import opened Text
  import opened Classifier
  import opened Checker

  /** `status.name`: the member's name as declared in the enum. */
  function StatusName(s: Status): (name: string)
    ensures '\n' !in name && |name| > 0
  {
    match s
    case Available => "AVAILABLE"
    case Unclear => "UNCLEAR"
    case NotAvailable => "NOT_AVAILABLE"
  }

  /** `compile_message`: the line "<event>: <STATUS_NAME>". */
  function CompileMessage(eventName: string, status: Status): (line: string)
    ensures '\n' in line <==> '\n' in eventName
  {
    eventName + ": " + StatusName(status)
  }

  /** Reads a line of the message back: the status is whichever status name
      ends the line after ": ", and the event name is what precedes it. */
  function ParseLine(line: string): Option<(string, Status)> {
    if HasSuffix(line, ": AVAILABLE") then Some((line[..|line| - 11], Available))
    else if HasSuffix(line, ": UNCLEAR") then Some((line[..|line| - 9], Unclear))
    else if HasSuffix(line, ": NOT_AVAILABLE") then Some((line[..|line| - 15], NotAvailable))
    else None
  }

  predicate HasSuffix(s: string, suffix: string) {
    |suffix| <= |s| && s[|s| - |suffix|..] == suffix
  }

  /** A string does not end in `suffix` when it differs from it at position `k` of the suffix. */
  lemma MismatchNotSuffix(s: string, suffix: string, k: nat)
    requires k < |suffix|
    requires |suffix| <= |s| ==> s[|s| - |suffix| + k] != suffix[k]
    ensures !HasSuffix(s, suffix)
  {
    assert |suffix| <= |s| ==> s[|s| - |suffix|..][k] == s[|s| - |suffix| + k];
  }

  /** Every line of the message names its event and status unambiguously,
      whatever characters the event name holds. */
  lemma ParseCompiledLine(eventName: string, status: Status)
    ensures ParseLine(CompileMessage(eventName, status)) == Some((eventName, status))
  {
    match status
    case Available =>
      assert CompileMessage(eventName, status) == eventName + ": AVAILABLE" by {
        assert ": " + "AVAILABLE" == ": AVAILABLE";
      }
      ParseAvailableLine(eventName);
    case Unclear =>
      assert CompileMessage(eventName, status) == eventName + ": UNCLEAR" by {
        assert ": " + "UNCLEAR" == ": UNCLEAR";
      }
      ParseUnclearLine(eventName);
    case NotAvailable =>
      assert CompileMessage(eventName, status) == eventName + ": NOT_AVAILABLE" by {
        assert ": " + "NOT_AVAILABLE" == ": NOT_AVAILABLE";
      }
      ParseNotAvailableLine(eventName);
  }

  lemma ParseAvailableLine(eventName: string)
    ensures ParseLine(eventName + ": AVAILABLE") == Some((eventName, Available))
  {
    var line := eventName + ": AVAILABLE";
    assert line[..|eventName|] == eventName;
    assert line[|eventName|..] == ": AVAILABLE";
  }

  lemma ParseUnclearLine(eventName: string)
    ensures ParseLine(eventName + ": UNCLEAR") == Some((eventName, Unclear))
  {
    var line := eventName + ": UNCLEAR";
    var n := |eventName|;
    assert line[..n] == eventName;
    assert line[n..] == ": UNCLEAR";
    assert line[|line| - 1] == line[n..][8] == 'R';
    MismatchNotSuffix(line, ": AVAILABLE", 10);
  }

  lemma ParseNotAvailableLine(eventName: string)
    ensures ParseLine(eventName + ": NOT_AVAILABLE") == Some((eventName, NotAvailable))
  {
    var line := eventName + ": NOT_AVAILABLE";
    var n := |eventName|;
    assert line[..n] == eventName;
    assert line[n..] == ": NOT_AVAILABLE";
    assert line[|line| - 11] == line[n..][4] == 'T';
    assert line[|line| - 1] == line[n..][14] == 'E';
    MismatchNotSuffix(line, ": AVAILABLE", 0);
    MismatchNotSuffix(line, ": UNCLEAR", 8);
  }

  /** The lines of `get_message`'s list comprehension, in dict order. */
  function Lines(eventStatus: StatusMap): (lines: seq<string>)
    ensures |lines| == |eventStatus|
    ensures forall i :: 0 <= i < |eventStatus| ==>
      lines[i] == CompileMessage(eventStatus[i].0, eventStatus[i].1)
  {
    seq(|eventStatus|, i requires 0 <= i < |eventStatus| => CompileMessage(eventStatus[i].0, eventStatus[i].1))
  }

  /** `get_message`: the lines joined by newlines. It is empty exactly when
      there are no events, since every line holds at least ": ". */
  function GetMessage(eventStatus: StatusMap): (message: string)
    ensures message == "" <==> eventStatus == []
  {
    Join(Lines(eventStatus), "\n")
  }

  /** No event name holds a newline (true of the configured names). */
  predicate SingleLineNames(eventStatus: StatusMap) {
    forall i :: 0 <= i < |eventStatus| ==> '\n' !in eventStatus[i].0
  }

  /** The message has one line per event, in dict order, and each line reads
      back as that event's name and status. */
  lemma MessageLines(eventStatus: StatusMap)
    requires eventStatus != []
    requires SingleLineNames(eventStatus)
    ensures |Split(GetMessage(eventStatus), '\n')| == |eventStatus|
    ensures forall i :: 0 <= i < |eventStatus| ==>
      ParseLine(Split(GetMessage(eventStatus), '\n')[i]) == Some(eventStatus[i])
  {
    var lines := Lines(eventStatus);
    SplitJoin(lines, '\n');
    forall i | 0 <= i < |eventStatus|
      ensures ParseLine(lines[i]) == Some(eventStatus[i])
    {
      ParseCompiledLine(eventStatus[i].0, eventStatus[i].1);
    }
  }

  /** `n` events give `n - 1` newlines: none trails the last line. */
  lemma MessageNewlines(eventStatus: StatusMap)
    requires eventStatus != []
    requires SingleLineNames(eventStatus)
    ensures multiset(GetMessage(eventStatus))['\n'] == |eventStatus| - 1
  {
    JoinSeparatorCount(Lines(eventStatus), '\n');
  }

  /** The statuses of a status dict, in dict order (`event_status.values()`). */
  function Values(eventStatus: StatusMap): (vs: seq<Status>)
    ensures |vs| == |eventStatus|
    ensures forall i :: 0 <= i < |eventStatus| ==> vs[i] == eventStatus[i].1
  {
    seq(|eventStatus|, i requires 0 <= i < |eventStatus| => eventStatus[i].1)
  }

  /** `any(list(filter(lambda status: status == target, values)))`; every enum
      member is truthy, so this tests that the filtered list is non-empty. */
  function AnyWithStatus(eventStatus: StatusMap, target: Status): (r: bool)
    ensures r <==> exists i :: 0 <= i < |eventStatus| && eventStatus[i].1 == target
    ensures r <==> multiset(Values(eventStatus))[target] > 0
  {
    |Matching(Values(eventStatus), target)| > 0
  }

  /** `events_available`. */
  function EventsAvailable(eventStatus: StatusMap): (r: bool)
    ensures r <==> exists i :: 0 <= i < |eventStatus| && eventStatus[i].1 == Available
  {
    AnyWithStatus(eventStatus, Available)
  }

  /** `events_unclear`. */
  function EventsUnclear(eventStatus: StatusMap): (r: bool)
    ensures r <==> exists i :: 0 <= i < |eventStatus| && eventStatus[i].1 == Unclear
  {
    AnyWithStatus(eventStatus, Unclear)
  }

  /** `get_title`: "HYROX: " followed by the message the test selects. */
  function GetTitle(eventStatus: StatusMap): (title: string)
    ensures title == "HYROX: Events available!" <==>
      exists i :: 0 <= i < |eventStatus| && eventStatus[i].1 == Available
    ensures title == "HYROX: No events available!" <==>
      !exists i :: 0 <= i < |eventStatus| && eventStatus[i].1 == Available
  {
    var message := if EventsAvailable(eventStatus) then "Events available!" else "No events available!";
    TitleTexts();
    "HYROX: " + message
  }

  /** The two titles as the f-string spells them, and they differ. */
  lemma TitleTexts()
    ensures "HYROX: " + "Events available!" == "HYROX: Events available!"
    ensures "HYROX: " + "No events available!" == "HYROX: No events available!"
    ensures "HYROX: Events available!" != "HYROX: No events available!"
  {
  }

  /** `get_priority`. */
  function GetPriority(eventStatus: StatusMap): (priority: string)
    ensures priority == "urgent" <==>
      exists i :: 0 <= i < |eventStatus| && eventStatus[i].1 == Available
    ensures priority == "low" <==>
      !exists i :: 0 <= i < |eventStatus| && eventStatus[i].1 == Available
  {
    if EventsAvailable(eventStatus) then "urgent" else "low"
  }

  /** `get_tag`. */
  function GetTag(eventStatus: StatusMap): (tag: string)
    ensures tag == "rotating_light" <==>
      exists i :: 0 <= i < |eventStatus| && eventStatus[i].1 == Available
    ensures tag == "information_source" <==>
      !exists i :: 0 <= i < |eventStatus| && eventStatus[i].1 == Available
  {
    if EventsAvailable(eventStatus) then "rotating_light" else "information_source"
  }

  /** The two tests and the title, priority and tag depend only on the
      statuses present, not on the order of the entries. */
  lemma OrderIrrelevant(a: StatusMap, b: StatusMap)
    requires multiset(Values(a)) == multiset(Values(b))
    ensures EventsAvailable(a) == EventsAvailable(b)
    ensures EventsUnclear(a) == EventsUnclear(b)
    ensures GetTitle(a) == GetTitle(b)
    ensures GetPriority(a) == GetPriority(b)
    ensures GetTag(a) == GetTag(b)
  {
    assert AnyWithStatus(a, Available) == AnyWithStatus(b, Available);
    assert AnyWithStatus(a, Unclear) == AnyWithStatus(b, Unclear);
  }

  /** The worked example: two events, in this order. */
  lemma MessageExample()
    ensures GetMessage([("Anaheim", Available), ("Chicago", Unclear)])
      == "Anaheim: AVAILABLE\nChicago: UNCLEAR"
  {
    var es := [("Anaheim", Available), ("Chicago", Unclear)];
    var first, second := "Anaheim: AVAILABLE", "Chicago: UNCLEAR";
    assert CompileMessage("Anaheim", Available) == first by {
      assert "Anaheim" + ": " + "AVAILABLE" == first;
    }
    assert CompileMessage("Chicago", Unclear) == second by {
      assert "Chicago" + ": " + "UNCLEAR" == second;
    }
    assert Lines(es) == [first, second];
    JoinTwo(first, second, "\n");
    assert first + "\n" + second == "Anaheim: AVAILABLE\nChicago: UNCLEAR";
  }
}
