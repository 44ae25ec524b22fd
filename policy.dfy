/**
 The send policy and the main block of main.py: after the check, decide
 whether to notify, and build the one notification of the run.
 */
module Policy {
  import opened Wrappers
  import opened Text
  import opened Classifier
  import opened Checker
  import opened Report

  /** `SEND_HOUR`: the hour of the daily heartbeat notification. */
  const SendHour: int := 12

  /** `should_send`: send when forced, and otherwise only at `SendHour`. */
  function ShouldSend(forceSend: bool, runHour: int): (r: bool)
    ensures forceSend ==> r
    ensures !forceSend ==> (r <==> runHour == SendHour)
  {
    if forceSend then true else runHour == SendHour
  }

  /** The arguments `send_message` would be called with. */
  datatype Notification = Notification(message: string, title: string, priority: string, tag: string)

  /** The main block after `check_events`: the send decision forced by any
      available or unclear event, and the notification handed over if sent.
      Something is sent exactly when some event is not `NotAvailable` or the
      run falls in the heartbeat hour. */
  function Decide(eventStatus: StatusMap, runHour: int): (sent: Option<Notification>)
    ensures sent.Some? <==>
      runHour == SendHour || exists i :: 0 <= i < |eventStatus| && eventStatus[i].1 != NotAvailable
    ensures sent.Some? ==>
      sent.value == Notification(GetMessage(eventStatus), GetTitle(eventStatus), GetPriority(eventStatus), GetTag(eventStatus))
    ensures sent.Some? ==>
      (sent.value.priority == "urgent" <==> exists i :: 0 <= i < |eventStatus| && eventStatus[i].1 == Available)
  {
    var isEventsAvailable := EventsAvailable(eventStatus);
    var isEventsUnclear := EventsUnclear(eventStatus);
    if ShouldSend(isEventsAvailable || isEventsUnclear, runHour) then
      Some(Notification(GetMessage(eventStatus), GetTitle(eventStatus), GetPriority(eventStatus), GetTag(eventStatus)))
    else
      None
  }

  /** With every event `NotAvailable`, nothing is sent outside the heartbeat hour. */
  lemma QuietWhenNothingAvailable(eventStatus: StatusMap, runHour: int)
    requires forall i :: 0 <= i < |eventStatus| ==> eventStatus[i].1 == NotAvailable
    requires runHour != SendHour
    ensures Decide(eventStatus, runHour) == None
  {
  }

  /** One run of the script: check every configured event, then notify or not.
      The wall-clock hour is a parameter, as 0..23. */
  method RunCycle(events: seq<(string, Fetched)>, runHour: int) returns (sent: Option<Notification>)
    requires Distinct(Keys(events))
    requires 0 <= runHour < 24
    ensures sent.Some? <==>
      runHour == SendHour || exists i :: 0 <= i < |events| && CheckEvent(events[i].1) != NotAvailable
    ensures sent == Decide(Checked(events), runHour)
  {
    var eventStatus := CheckEvents(events);
    assert eventStatus == Checked(events);
    sent := Decide(eventStatus, runHour);
    if sent.Some? && runHour != SendHour {
      var i :| 0 <= i < |eventStatus| && eventStatus[i].1 != NotAvailable;
      assert CheckEvent(events[i].1) != NotAvailable;
    }
  }

  /** One event on sale and one page without either marker, outside the
      heartbeat hour: the run sends the "available" notification listing both. */
  lemma EndToEndExample()
    ensures
      var events := [("A", Ok(Soup(Some(["Buy Tickets here"])))), ("B", Ok(Soup(Some([]))))];
      Decide(Checked(events), 9) ==
        Some(Notification("A: AVAILABLE\nB: UNCLEAR", "HYROX: Events available!", "urgent", "rotating_light"))
  {
    var events: seq<(string, Fetched)> := [("A", Ok(Soup(Some(["Buy Tickets here"])))), ("B", Ok(Soup(Some([]))))];
    var checked := Checked(events);
    assert CheckEvent(events[0].1) == Available;
    assert CheckEvent(events[1].1) == Unclear;
    assert checked == [("A", Available), ("B", Unclear)];
    var lines := Lines(checked);
    var first, second := "A: AVAILABLE", "B: UNCLEAR";
    assert CompileMessage("A", Available) == first by {
      assert "A" + ": " + "AVAILABLE" == first;
    }
    assert CompileMessage("B", Unclear) == second by {
      assert "B" + ": " + "UNCLEAR" == second;
    }
    assert lines == [first, second];
    JoinTwo(first, second, "\n");
    assert first + "\n" + second == "A: AVAILABLE\nB: UNCLEAR";
    assert EventsAvailable(checked) by { assert checked[0].1 == Available; }
    assert GetMessage(checked) == "A: AVAILABLE\nB: UNCLEAR";
    assert GetTitle(checked) == "HYROX: Events available!";
    assert GetPriority(checked) == "urgent";
    assert GetTag(checked) == "rotating_light";
  }
}
