# Audio state monitor — Dafny model

`audio-state-monitor/monitor.py` is a small agent that polls the host's PulseAudio
server with `pactl list sinks short`, reads the playback state of one sink (the
device named by `AUDIO_DEVICE`) and posts a Home Assistant event through the
Supervisor API each time that state changes between `playing` and `idle`.

This project models the two pieces of sequential logic in that file and proves
their properties:

- **The sink-listing parser** (`get_audio_state`, module `Probe`). The listing is
  split into lines with Python's `str.splitlines()`. The first line that contains the
  device name as a substring and splits (`str.split()`) into at least six columns
  decides the result: a last column of `RUNNING` gives `playing`, and any other
  keyword gives `idle`. A line that mentions the device but has fewer columns is
  passed over, and the search goes on. When no line qualifies, the result is `None`.
  What `pactl` printed is an `Option<string>`: a run that raises (a timeout, a
  missing binary, undecodable output) is `None`, which also gives `None`; a run
  that exits with a non-zero status still returns normally, and its standard
  output is parsed like any other. Module `PyStr` models the three `str` operations on
  Unicode characters: Python's whitespace set, its line boundaries (with `\r\n`
  as one boundary), and the empty string occurring in every string.
- **The change detection of `main`** (module `Monitor`). `last_state` starts as
  `None`. A probe result is reported when it is known and differs from
  `last_state`, and `last_state` then becomes that result. `Run` is the loop over a
  finite sequence of ticks, given what `pactl` printed on each. Its `fired` output
  lists the states `fire_event` is called with. `fire_event` catches every error and
  returns nothing. So the outcome of the HTTP post never reaches the loop, and
  `last_state` moves on whether or not the event was delivered.

The spec functions `LastState` and `Fired` are the loop's tick rule unrolled over a
sequence of readings. Each has an independent reference definition, and lemmas
prove the two agree:
- `LastKnown`: the most recent known reading.
- `Dedup(Known(...))`: the known readings with runs of equal states collapsed.

A line that names the device but splits into fewer than six columns does not end
the search; the loop goes on to later lines (lines 36-39), and the model does the
same (`ShortMatchIsSkipped`).

## Model

| member | source | states |
|---|---|---|
| `PyStr.SplitLines` | audio-state-monitor/monitor.py:36 | no line of `s.splitlines()` holds a line boundary, and only the empty text has no lines |
| `PyStr.SplitJoinLines` | audio-state-monitor/monitor.py:36 | lines free of boundaries, each ended by `\n`, come back unchanged from `splitlines` |
| `PyStr.Split` | audio-state-monitor/monitor.py:38 | every field of `line.split()` is non-empty and free of whitespace |
| `PyStr.SplitJoinFields` | audio-state-monitor/monitor.py:38 | fields joined by any non-empty runs of whitespace (tabs, spaces, mixed) come back unchanged from `split` |
| `PyStr.SplitFieldThenGap` | audio-state-monitor/monitor.py:38 | a field followed by whitespace is the first column of the line, and the rest of the line gives the remaining columns |
| `PyStr.SplitSingleField` | audio-state-monitor/monitor.py:38 | a text without whitespace splits into just itself |
| `PyStr.JoinFieldsNoBreak` | audio-state-monitor/monitor.py:36-38 | columns joined by tabs or spaces form a single line for `splitlines` |
| `PyStr.SplitIgnoresLeadingSpace` | audio-state-monitor/monitor.py:38 | leading whitespace never changes the fields of a line |
| `PyStr.Contains` | audio-state-monitor/monitor.py:37 | the model of `device in line`; its partner lemma `ContainsIffOccurs` states what it means |
| `PyStr.ContainsIffOccurs` | audio-state-monitor/monitor.py:37 | `device in line` holds exactly when `device` occurs at some index of `line` (so the empty name matches every line) |
| `Probe.Name` | audio-state-monitor/monitor.py:42-46 | a known state is reported as `'playing'` or `'idle'` and as nothing else, and `'playing'` means Playing |
| `Probe.Qualifies` | audio-state-monitor/monitor.py:37-39 | the two guards a line has to pass; `FindStateIsFirstQualifying` and `ShortMatchIsSkipped` state their effect |
| `Probe.LineState` | audio-state-monitor/monitor.py:40-46 | a qualifying line is Playing exactly when its last column is `RUNNING` and Idle exactly when it is anything else, `IDLE` included |
| `Probe.FindState` | audio-state-monitor/monitor.py:36-49 | the scan over the lines; `FindStateIsFirstQualifying` states that it returns the first qualifying line's state, and `None` when there is none |
| `Probe.ParseListing` | audio-state-monitor/monitor.py:36-49 | the scan over `stdout.splitlines()`; `FirstQualifyingLineDecides` and `NotFoundIsUnknown` state its result |
| `Probe.GetAudioState` | audio-state-monitor/monitor.py:21-56 | the whole probe on what `pactl` printed; `UnknownCases` and `AudioStateValue` state its results |
| `Probe.AudioStateValue` | audio-state-monitor/monitor.py:42-49 | the string result is `'playing'`, `'idle'` or `None`, each exactly when the probe reads Playing, Idle or nothing |
| `Probe.FindStateIsFirstQualifying` | audio-state-monitor/monitor.py:36-49 | the result is `None` exactly when no line qualifies; otherwise it is the state of a qualifying line with no qualifying line before it |
| `Probe.FindFirst` | audio-state-monitor/monitor.py:36-46 | over the listing's lines, a qualifying line preceded only by non-qualifying lines gives its own state |
| `Probe.FirstQualifyingLineDecides` | audio-state-monitor/monitor.py:36-46 | in a listing, the first line that names the device and has six columns fixes the result, whatever follows |
| `Probe.RunningIsPlaying` | audio-state-monitor/monitor.py:40-42 | in any listing, the first qualifying line (any whitespace between its columns) yields `'playing'` when its last column is `RUNNING` |
| `Probe.OtherStateIsIdle` | audio-state-monitor/monitor.py:43-46 | in any listing, the first qualifying line with any other last column (`IDLE`, `SUSPENDED` or another keyword) yields `'idle'`, never `None` |
| `Probe.PactlLineFields` | audio-state-monitor/monitor.py:38 | a sink line in `pactl`'s short format, tabs between its columns and spaces inside the sample specification, splits into its seven columns and is one line |
| `Probe.PactlLineState` | audio-state-monitor/monitor.py:36-46 | a listing of one such line, read for its sink name, is Playing when the state column is `RUNNING` and Idle otherwise |
| `Probe.ShortMatchIsSkipped` | audio-state-monitor/monitor.py:37-39 | a line that names the device but has fewer than six columns changes nothing: the result is as if it were absent |
| `Probe.FindSkips` | audio-state-monitor/monitor.py:37-39 | over the listing's lines, removing a line that does not qualify never changes the result |
| `Probe.LaterLinesCannotOverride` | audio-state-monitor/monitor.py:36-46 | once a line has qualified, appending lines after it never changes the result |
| `Probe.NotFoundIsUnknown` | audio-state-monitor/monitor.py:48-49 | a listing with no line that names the device and has six columns yields `None` |
| `Probe.UnknownCases` | audio-state-monitor/monitor.py:36-49 | an empty listing yields `None`, and a listing yields `None` exactly when none of its lines qualifies |
| `Monitor.ShouldFire` | audio-state-monitor/monitor.py:99 | the test `current_state and current_state != last_state`; `TickFires` states when a tick reports |
| `Monitor.Advance` | audio-state-monitor/monitor.py:99-102 | after a tick, `last_state` is the reading when it is known and is unchanged when it is not |
| `Monitor.LastState` | audio-state-monitor/monitor.py:92-102 | `last_state` after the readings is, when known, one of the readings; `LastStateIsLastKnown` states that it is the most recent known one |
| `Monitor.Fired` | audio-state-monitor/monitor.py:92-102 | there are never more reports than ticks; `FiredIsDedupOfKnown` states which they are |
| `Monitor.Run` | audio-state-monitor/monitor.py:92-102 | the loop reports exactly `Fired` of the readings, ends with `last_state` the most recent known reading, reports the known readings with repeats collapsed, and never reports the same state twice in a row |
| `Monitor.Readings` | audio-state-monitor/monitor.py:96 | one probe result per tick, the probe of that tick's output |
| `Monitor.LastStateIsLastKnown` | audio-state-monitor/monitor.py:99-102 | `last_state` is always the most recent known reading: an unknown reading never overwrites it |
| `Monitor.TickFires` | audio-state-monitor/monitor.py:99-102 | a tick reports exactly when its reading is known and differs from the last known state; after it, `last_state` is that reading if known, and unchanged otherwise, reported or not |
| `Monitor.LastFiredIsLastState` | audio-state-monitor/monitor.py:101-102 | the last reported state is `last_state`; before any report `last_state` is still `None` |
| `Monitor.FiredHasNoRepeats` | audio-state-monitor/monitor.py:96-102 | no two consecutive reports carry the same state |
| `Monitor.LastKnownIsLastOfKnown` | audio-state-monitor/monitor.py:99-102 | the most recent known reading is the last of the known readings, and `None` when there is none |
| `Monitor.FiredIsDedupOfKnown` | audio-state-monitor/monitor.py:96-102 | the reports are the known readings with runs of equal states collapsed |
| `Monitor.UnknownIsTransparent` | audio-state-monitor/monitor.py:99-102 | removing an unknown reading changes neither the reports nor `last_state`: a later reading is compared with the last known good state |
| `Monitor.RepeatedReadingFiresOnce` | audio-state-monitor/monitor.py:99-102 | a run of identical known readings reports at most once, on its first tick, and only when it differs from `last_state` |
| `Monitor.FirstKnownReadingFires` | audio-state-monitor/monitor.py:92-101 | since `last_state` starts as `None`, the first known reading is always reported |

## Left out

- Running `pactl` (`subprocess.run`, its 5-second timeout, and the `TimeoutExpired` and generic exception handlers, lines 28-33 and 51-56): external process I/O. A run that raises for any of these reasons is an output of `None`. The exit status of `pactl` is never checked, so a run that exits with an error still has its standard output parsed.
- The decoding of `pactl`'s bytes and the newline translation of text mode: the model starts from the decoded text. Turning `\r\n` and `\r` into `\n` does not change what `splitlines` returns.
- An unset `AUDIO_DEVICE`: `None in line` raises `TypeError`, which the generic handler turns into `None`. The model takes the device as a string.
- `fire_event` (lines 58-86): it builds headers and a JSON body, posts them, and logs whether the status was 200. All of this is network I/O and logging. The function returns nothing and catches every error, so the loop only records which state it was called with.
- The logging calls, the configuration read from the environment and the endpoint string (lines 9-19): configuration plumbing.
- `time.sleep`, the `KeyboardInterrupt` shutdown and the catch-all handler that keeps the loop going (lines 104-111): timing and signal handling. `Run` models the loop body over a finite sequence of ticks, not the endless loop.
