# Presence monitor: a verified model

`monitor.py` polls one web page and watches for a presence indicator, either
"Available now" or "Seen seconds ago". It keeps two loop variables:
`available` and `start_ts`, the time the target last came online. On every
tick it writes a log line. Apart from one start-up message, it sends a webhook
message only when the target goes online or goes offline, and the offline
message gives the online duration as text built by `format_duration`.

This project models that logic in Dafny:

- `decimal.dfy` (module `Decimal`) renders integers the way Python's f-strings
  do. `ParseNat` reads them back.
- `duration.dfy` (module `Duration`) holds `format_duration` as
  `FormatDuration`. `ParseDuration` is its inverse, used to prove that the
  text encodes the number exactly.
- `presence.dfy` (module `Presence`) holds the substring check
  `any(pat in html for pat in CHECK_PATTERNS)`.
- `tracking.dfy` (module `Tracking`) holds the per-tick transition as a
  function `Step`. The class `Tracker` has fields `available` and `startTs`
  and updates them in place through `Observe` and `Poll`. A tick is either a
  page read (`Page(html, now)`) or a failed content read (`ReadError`). The
  clock reading `now` is a parameter, in whole seconds.
- `monitor.py`'s polling loop is in `monitor.dfy` (module `Monitor`). The
  method `Run` drives a `Tracker` over a finite sequence of ticks. It records
  each tick's event and the deliveries: the start-up notice first, then one
  per transition. `After` and `Events` are the specification of that loop.
  The lemmas about them give convergence, messages only on edges, and the
  duration measured from the online edge.

## Model

| member | source | states |
|---|---|---|
| `Decimal.NatToString` | monitor.py:32 | the rendering of a non-negative count is a non-empty string of digits, and starts with `0` exactly when the count is zero (no leading zeros) |
| `Decimal.IntToString` | monitor.py:32 | a negative count is rendered as a minus sign followed by a canonical numeral whose value is the magnitude; a non-negative count is rendered as the canonical numeral whose value is the count |
| `Decimal.IntToStringUnique` | monitor.py:32 | the rendering is the only such text: any canonical numeral with the count's value (after a minus sign, for a negative count) is exactly what `IntToString` writes |
| `Decimal.ValueOfNatToString` | monitor.py:32 | reading the digits back gives the same number |
| `Decimal.NatToStringOfValue` | monitor.py:32 | every canonical numeral is the rendering of its own value, so the rendering is onto the canonical numerals |
| `Decimal.ParseNatToString` | monitor.py:36-37 | a numeral followed by a non-digit is read back exactly, and the text after it is returned unchanged |
| `Duration.FormatDuration` | monitor.py:30-37 | below 60 the text is exactly the rendered count followed by ` second(s)`, with a minus sign exactly for a negative count; the text is never empty, and it starts with a digit for a non-negative count; the text from 60 on is given by `FormatDurationMinutes` |
| `Duration.FormatDurationRoundTrip` | monitor.py:30-37 | for every int, `ParseDuration` reads the rendered duration back to the original number of seconds, so the rendering loses no information |
| `Duration.FormatDurationInjective` | monitor.py:30-37 | two different numbers of seconds are never rendered as the same text |
| `Duration.FormatDurationMinutes` | monitor.py:33-37 | from 60 on, `M = s / 60` and `S = s % 60` satisfy `M * 60 + S == s`, `M >= 1` and `0 <= S < 60`; the text is `"M minute(s)"` when `S == 0`, and `"M minute(s) S second(s)"` with `1 <= S <= 59` otherwise |
| `Duration.FormatDurationExamples` | monitor.py:30-37 | 0, 59, 60, 90, 3600 and 15 seconds are rendered as `0 second(s)`, `59 second(s)`, `1 minute(s)`, `1 minute(s) 30 second(s)`, `60 minute(s)` and `15 second(s)` |
| `Presence.Contains` | monitor.py:78 | `pat in html`: the empty pattern is always found, and a pattern is only found in a text at least as long as it; `ContainsIff` states it exactly |
| `Presence.ContainsIff` | monitor.py:78 | the search for a pattern succeeds exactly when the pattern occurs in the HTML as a contiguous piece of text |
| `Presence.AnyOccursIff` | monitor.py:78 | the check over a list of patterns holds exactly when some pattern in the list occurs in the HTML |
| `Presence.PresentIff` | monitor.py:78 | a page counts as present exactly when `Available now` or `Seen seconds ago` occurs in it, matched case-sensitively |
| `Presence.IsPresent` | monitor.py:78 | a page is present exactly when the search finds `Available now` or `Seen seconds ago`, so only a page at least as long as the shorter pattern can be present; `PresentIff` restates it over occurrences |
| `Tracking.Step` | monitor.py:80-105 | one successful tick keeps "a start time is recorded iff online"; afterwards `available` equals the sample; an edge event happens exactly when `available` changes; staying online keeps the start time; offline to online records `now` and reports `WentOnline(now)`; online to online keeps the state and reports `StillOnline(start, now - start)`; online to offline clears the start time and reports `WentOffline(start, now, now - start)`; offline to offline keeps the state and reports `StillOffline` |
| `Tracking.TickStep` | monitor.py:71-78 | a tick keeps the invariant and reports an event exactly when its content read succeeded; a failed read leaves the state unchanged, and a successful one leaves `available` equal to the page's detection result |
| `Tracking.Tracker.constructor` | monitor.py:50-51 | the tracker starts offline with no start time, and the invariant holds |
| `Tracking.Tracker.Observe` | monitor.py:80-105 | the four-way transition updates the fields in place, with the new fields and the event given by `Step` |
| `Tracking.Tracker.Poll` | monitor.py:71-78 | a failed content read leaves both fields alone and reports nothing; otherwise the page is checked for the patterns and observed |
| `Monitor.After` | monitor.py:70-105 | after any sequence of ticks the invariant holds, and `available` equals the last successfully read sample, or the starting value if no read succeeded |
| `Monitor.LastSampleIsLast` | monitor.py:72-80 | `LastSample`, which `After` is specified against, is absent exactly when every read failed, and otherwise is the detection result of a successful read after which every read failed |
| `Monitor.Events` | monitor.py:70-105 | one entry per tick, `None` exactly when that tick's content read failed |
| `Monitor.EventAt` | monitor.py:70-107 | tick `k` is stepped from the state that the ticks before it left |
| `Monitor.EdgeIffChange` | monitor.py:80-105 | a tick reports a transition exactly when it changes whether the target is online |
| `Monitor.OnlineSinceEdge` | monitor.py:81-82 | while online, the recorded start is the clock reading of an earlier tick that went online, and every tick since then kept the target online |
| `Monitor.ElapsedSinceOnlineEdge` | monitor.py:88-95 | a page read made while online is `StillOnline(start, now - start)` when the page shows a pattern and `WentOffline(start, now, now - start)` when it does not; `start` is the clock reading of the preceding online edge, with only online ticks in between; the elapsed time is non-negative when the clock never goes backwards |
| `Monitor.NoticeOf` | monitor.py:84-101 | a notice comes out of an event exactly when the event is one of the two transitions; repeat samples and failed reads produce only log lines |
| `Monitor.Deliver` | monitor.py:39-42 | a notice is posted exactly when a webhook is configured; with an empty webhook it is only logged; the notice itself is kept |
| `Monitor.Outbox` | monitor.py:84-101 | the deliveries caused by a sequence of events are never more than the events; `OutboxFollowsEdges` gives their exact number and kind |
| `Monitor.OutboxFollowsEdges` | monitor.py:40-42 | there is one delivery per transition event; all deliveries are logged only when the webhook is empty, and all are posted when it is not |
| `Monitor.OnlineNotice` | monitor.py:80-86 | a page read showing a pattern while offline reports `WentOnline(now)`, records `now` as the start time, and adds exactly the online notice for `now` to the deliveries |
| `Monitor.OfflineNotice` | monitor.py:92-101 | a page read without a pattern while online adds exactly the offline notice to the deliveries: its time is `now`, and its duration is `FormatDuration(now - start)`, where `start` is the clock reading of the preceding online edge |
| `Monitor.Run` | monitor.py:49-107 | the start-up notice is delivered first; driving the in-place tracker over the ticks yields exactly the events of `Events` and, after the start-up notice, the deliveries of `Outbox` |
| `Monitor.Scenario` | monitor.py:80-105 | samples offline, online, online, online, offline at t = 0, 5, 10, 15, 20 give StillOffline, WentOnline(5), StillOnline(5, 5), StillOnline(5, 10), WentOffline(5, 20, 15); exactly two notices go out, and the offline one reports `15 second(s)` |

## Left out

- The headless browser is not modelled: launch, navigation, `page.content()` and closing (monitor.py:57-67, 72, 109-115). Only the result of a read enters the model: HTML text, or `ReadError` for a failed read.
- The HTTP post to the webhook, its status code and the exception logging are not modelled (monitor.py:43-47). A delivery records only whether the notice is posted or only logged. A failed post cannot affect tracking in the model, because no delivery result flows back into the state.
- The health-check HTTP server and its daemon thread are not modelled (monitor.py:18-25, 119). They are I/O and concurrency.
- Wall-clock reading, time zones and ISO-8601 timestamp text are not modelled (monitor.py:27-28, 82, 89, 93). A tick carries an integer clock reading in seconds, and notices carry that number instead of the rendered timestamp.
- Sub-second precision is not modelled: `int(total_seconds())` truncates a fractional difference, but clock readings here are already whole seconds.
- The text of the notices and log lines is not rendered, apart from the duration. This includes the target URL, the host in the start-up notice and the log prefixes. A notice is structured data holding its timestamp and, for the offline notice, the `FormatDuration` text.
- Environment-variable configuration is not modelled (monitor.py:11-15). That includes stripping whitespace from the webhook URL: the webhook is a parameter, already stripped.
- `time.sleep`, the endless loop and the handling of `KeyboardInterrupt` are not modelled (monitor.py:70, 75, 107, 109). They are scheduling and process control.
- `Monitor.Run`: covers a finite sequence of ticks, while the source loops until it is interrupted. Every property is stated for every finite prefix.
- The pattern match is case-sensitive, as the code's `pat in html` is. A case-insensitive match is not modelled.
