# HYROX ticket-availability bot: the decision core

The bot runs on a schedule. It loads the event page of each configured HYROX
event, classifies ticket sales as available, not available or unclear, and
posts a push notification. It posts when some event is available or unclear,
and otherwise once a day at the heartbeat hour. This project models the
decision core of `main.py` and proves its properties:

- `Classifier`: the `Status` enum, the two marker phrases and `get_status`.
  A parsed page is the list of text nodes under its `<body>`, or no body at all.
- `Checker`: `check_events`, a loop that fills an insertion-ordered dict
  (`seq<(string, Status)>` with distinct keys). Any error along the way turns
  into `Unclear`. The fetch and parse of each URL is an input: the parsed page,
  or the error it raised.
- `Report`: `compile_message`, `get_message`, `events_available`,
  `events_unclear`, `get_title`, `get_priority` and `get_tag`.
- `Policy`: `should_send` with `SEND_HOUR = 12`, and the main block. The main
  block forces a send on any available or unclear event, and returns the
  notification that would be handed to `send_message`.
- `Text`: the sequence helpers these share. They are the "keep the elements
  equal to x" filter behind `find_all(string=...)` and `filter`, the dict key
  lookup, `"\n".join`, and `split` on one character as the inverse of the join.
- `Wrappers`: `Option` and `Result`.

The status dict is iterated in insertion order, so the message lists events in
configuration order. The model keeps that order, and it proves that the two
flags and the title, priority and tag do not depend on it
(`Report.OrderIrrelevant`). The docstring of `should_send` (main.py:117-119)
mentions only available tickets. Its caller at main.py:138 also forces a send
when some event is unclear, and the model follows that call.

## Model

| member | source | states |
|---|---|---|
| Text.Matching | main.py:34-35 | the elements kept are exactly those equal to the target, in order, as many as it occurs; the result is non-empty iff the target occurs |
| Text.IndexOf | main.py:111 | the dict lookup finds the first position holding the key, or reports that no position holds it |
| Classifier.GetStatus | main.py:33-47 | no body raises; otherwise Available iff only "Buy Tickets here" is a text node, NotAvailable iff only "Ticket sales start soon!" is, Unclear iff both or neither are; the fall-through after the last `if` is unreachable |
| Checker.Put | main.py:111 | dict assignment keeps keys distinct, replaces the value of an existing key in place and appends a new key at the end |
| Checker.CheckEvent | main.py:103-109 | a failed fetch or a page without body gives Unclear; otherwise the status is what `get_status` returns |
| Checker.Checked | main.py:99-113 | the dict after the loop has the configured names as its keys, in configuration order |
| Checker.CheckEvents | main.py:99-113 | the loop yields one entry per configured event, in configuration order, keys distinct, each the event's name and its try/except status |
| Checker.FailureIsolated | main.py:103-111 | when one event's page fails, that event becomes Unclear and every other entry is unchanged |
| Report.StatusName | main.py:51 | `status.name` is a non-empty name without newline for every member; with ParseCompiledLine the three names are told apart |
| Report.CompileMessage | main.py:50-51 | a line holds a newline only if the event name does |
| Report.ParseCompiledLine | main.py:50-51 | every line `name: STATUS_NAME` reads back as exactly that name and status, whatever the name holds |
| Report.Lines | main.py:55 | the comprehension yields one line per entry, in dict order, the i-th being `compile_message` of the i-th entry |
| Report.GetMessage | main.py:54-56 | the message is empty exactly when there are no events |
| Report.MessageLines | main.py:54-56 | splitting the message on newlines gives one line per event, in dict order, each reading back as that event's name and status |
| Report.MessageNewlines | main.py:54-56 | n events give exactly n-1 newlines: none trails the last line |
| Report.MessageExample | main.py:50-56 | Anaheim AVAILABLE then Chicago UNCLEAR gives "Anaheim: AVAILABLE\nChicago: UNCLEAR" |
| Report.Values | main.py:60 | `event_status.values()` lists the statuses one per entry, in dict order |
| Report.AnyWithStatus | main.py:59-64 | the filtered list is non-empty iff some entry has the status, iff the status occurs in the multiset of values |
| Report.EventsAvailable | main.py:59-60 | true iff some event is Available |
| Report.EventsUnclear | main.py:63-64 | true iff some event is Unclear |
| Report.GetTitle | main.py:67-71 | "HYROX: Events available!" iff some event is Available, "HYROX: No events available!" iff none is |
| Report.GetPriority | main.py:74-77 | "urgent" iff some event is Available, "low" iff none is |
| Report.GetTag | main.py:80-83 | "rotating_light" iff some event is Available, "information_source" iff none is |
| Report.OrderIrrelevant | main.py:59-83 | both flags and the title, priority and tag are unchanged by any reordering of the entries |
| Text.Join | main.py:56 | a join of at least one part begins with its first part |
| Text.JoinTwo | main.py:56 | two parts are joined with exactly one separator between them |
| Text.SplitJoin | main.py:56 | splitting the newline join recovers the lines when no line holds a newline |
| Text.JoinSplit | main.py:56 | joining the pieces of a split recovers the string |
| Text.JoinSeparatorCount | main.py:56 | a join of n separator-free parts holds exactly n-1 separators |
| Policy.ShouldSend | main.py:116-122 | a forced send is always sent; otherwise it is sent iff the hour is 12 |
| Policy.Decide | main.py:130-144 | a notification is produced iff the hour is 12 or some event is not NotAvailable; when produced it is exactly (get_message, get_title, get_priority, get_tag) of the same dict, and its priority is "urgent" iff some event is Available |
| Policy.QuietWhenNothingAvailable | main.py:116-138 | with every event NotAvailable and the hour not 12, nothing is sent |
| Policy.RunCycle | main.py:126-144 | one run sends iff the hour is 12 or some configured event's page classifies as other than NotAvailable, and sends the notification built from the checked dict |
| Policy.EndToEndExample | main.py:99-144 | A with "Buy Tickets here" and B with neither marker, at hour 9, send "A: AVAILABLE\nB: UNCLEAR" titled "HYROX: Events available!", urgent, rotating_light |

## Left out

- `get_html` (main.py:26-30): the two HTTP GETs and the cookie forwarding are network I/O. Each event's fetch-and-parse result is an input (`Checker.Fetched`).
- BeautifulSoup parsing (main.py:105): a foreign library. Only its observable effect is modelled: the list of text nodes under `<body>`, or a missing body. Any other exception it or the request could raise is the single error `RequestFailed`.
- `find_all(string=...)` is modelled as an exact match against each text node of the body. Non-string filters and tag names are not modelled.
- `send_message` (main.py:86-96): the HTTP POST to ntfy.sh and its logging. The model stops at the `Notification` it would be given. A failing POST, which the source does not handle, is not modelled.
- `logging` (main.py:9, 108, 134-136): no observable effect on the decision.
- `datetime.now().hour` (main.py:130): the hour is a parameter of `Policy.RunCycle`, in 0..23.
- `URLS` (main.py:11-15): the configuration is the list of (event name, fetch result) pairs given to `Checker.CheckEvents`. The URLs carry no logic. The names are distinct because they are dict keys, which is the one precondition of the loop.
