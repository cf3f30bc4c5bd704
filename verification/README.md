# Telegram code monitor: duplicate window and code extraction

This project models the two pieces of sequential logic in the Telegram code
monitor (`telegram_monitor.py`, and its near-identical copy stored as
`server.js`, which despite its name is the same Python program). The monitor
watches Telegram chats, pulls a short "code" out of each message with a
regular expression, and forwards it over a WebSocket connection. It refuses
to forward the same code twice within `DUPLICATE_CODE_TIMEOUT_SECONDS` (300).

- `dedup.dfy` (module `Dedup`): one call of `send_code_via_websocket` as a
  pure function `Step` on the `sent_codes` dictionary (`map<string, int>`).
  It prunes entries older than 300 s, returns early for a remembered code,
  tries the send only on an open connection, and records the code with the
  current time only when the send succeeded.
- `trace.dfy` (module `Trace`): histories of such calls. It proves the window
  promise over whole histories. Starting from an empty dictionary and with a
  clock that does not go back, a call is suppressed exactly when the same
  code was sent successfully at most 300 s earlier. With such a clock, two
  successful sends of one code are more than 300 s apart. When the clock
  steps back, two sends can be closer, and a lemma exhibits such a history.
- `code_pattern.dfy` (module `CodePattern`): `CODE_REGEX`, that is
  `\bcode:\s*([a-zA-Z0-9\-_]+)\b` with `re.IGNORECASE`, together with
  `search`. `ValidMatch`, `PreferredAt` and `FirstMatch` say declaratively
  which match Python's backtracking engine reports. `Find` is a scanner: it
  tries the leftmost start first, skips whitespace greedily, takes the longest
  run of code characters, then backs off until a word boundary follows.
  `ExtractCode` (the handler's `if not message_text` test plus `match.group(1)`)
  is proved to agree with the declarative first match in both directions.
- `monitor.dfy` (module `Monitor`): `new_message_handler`, which feeds the
  extracted code into the duplicate window.
- `wrappers.dfy` (module `Wrappers`): the `Option` type.

Time is an integer number of seconds passed in by the caller. The connection
state (`None`, closed, open) and the outcome of the send (returned or raised)
are inputs to `Step`. Each call is treated as atomic.

`CODE_REGEX` anchors `code:` with `\b` on both sides (server.js:24). So
`promocode: X` carries no code, and a trailing `-` with no word boundary after
it is dropped.

## Model

| member | source | states |
|---|---|---|
| Dedup.Prune | server.js:92-99 | pruning keeps a code exactly when its age `now - ts` is at most 300 and leaves the kept timestamps unchanged |
| Dedup.Step | server.js:85-122 | the four exits of one call: duplicate iff the code survives pruning; sent iff it does not, the connection is open and the send returns; send-failed and inactive likewise; only a successful send records `now`; every other key is exactly as pruning left it; afterwards every entry is at most 300 s old |
| Dedup.StepKeepsFresh | server.js:93-105 | a remembered code that has not expired survives any call with its timestamp unchanged |
| Dedup.PruneIdempotent | telegram_monitor.py:78-83 | pruning twice at the same time removes nothing more |
| Dedup.PruneFreshIsIdentity | telegram_monitor.py:78-83 | pruning a dictionary whose entries are all within the window removes nothing |
| Dedup.PruneLater | server.js:93 | pruning at `now` and then at a later time equals pruning at the later time alone |
| Dedup.WindowAfterSend | server.js:93-116 | after a successful send at `t`, a call for the same code at `t2` is a duplicate exactly when `t2 - t <= 300`, so the boundary second still suppresses |
| Dedup.RepeatIsDuplicate | telegram_monitor.py:84-93 | repeating a call at the same time after it sent or suppressed the code is a duplicate and leaves the dictionary unchanged (no timestamp refresh) |
| Dedup.FailureAllowsRetry | telegram_monitor.py:88-97 | after a raised send or an inactive connection the code is not remembered, and a later call with an open connection and a working send sends it |
| Trace.AfterIsFresh | telegram_monitor.py:78-93 | after any history every remembered code is at most 300 s old relative to the last call's clock |
| Trace.SentRecords | server.js:116 | a successful send records its code with that call's time |
| Trace.KeptThroughCall | server.js:93-105 | a remembered code the next call does not find expired is still remembered, with the same time, after that call |
| Trace.SentPersists | server.js:93-116 | a code sent by call `i` stays remembered with call `i`'s time through every later call within 300 s of it |
| Trace.Provenance | server.js:109-116 | starting from an empty dictionary, every remembered code was put there by an earlier successful send of that code, and carries that send's time |
| Trace.SuppressedInWindow | server.js:102-105 | with a clock that does not go back, a call for a code sent successfully at most 300 s earlier is a duplicate |
| Trace.DuplicateIffRecentlySent | server.js:93-116 | from an empty dictionary and with a clock that does not go back, a call is suppressed if and only if its code was sent successfully by an earlier call at most 300 s before |
| Trace.SendsAreSpaced | server.js:33 | with a clock that does not go back, two successful sends of the same code are more than 300 s apart |
| Trace.ClockBackAllowsEarlyResend | server.js:89-116 | without that hypothesis the spacing fails: from an empty dictionary, the history `a@1000, b@2000, a@1100`, all open and delivered, sends `a` twice 100 s apart, because the call at 2000 prunes `a` |
| CodePattern.SkipSpace | server.js:24 | greedy `\s*`: the end of the maximal whitespace run |
| CodePattern.CodeRunEnd | server.js:24 | greedy `[a-zA-Z0-9\-_]+`: the end of the maximal run of code characters |
| CodePattern.LastBoundary | server.js:24 | backtracking of the greedy run: the last position in the run's range where `\b` holds, or none when there is none |
| CodePattern.MatchShape | server.js:24 | any match starting at `p` has its group start where the whitespace after `code:` ends, and its end inside the maximal run of code characters |
| CodePattern.MatchAt | server.js:24 | the engine's attempt at one start position returns the match the backtracking order prefers, and fails only when no match starts there |
| CodePattern.Find | server.js:145 | `search` from a position returns a preferred match at the leftmost start that has one, and nothing only when no start has a match |
| CodePattern.ExtractCode | server.js:143-147 | empty text gives no code; a code is found exactly when some start matches; the code is group 1 of the first match, non-empty and made only of `[A-Za-z0-9_-]` |
| CodePattern.ExtractAgreesWithFirstMatch | telegram_monitor.py:112-114 | conversely, the declaratively first match is the code extracted, so a message yields at most one code |
| CodePattern.FirstMatchUnique | telegram_monitor.py:112-114 | the leftmost, preferred match is unique |
| CodePattern.PromocodeHasNoCode | server.js:24 | `promocode: X` yields nothing, for lack of a word boundary before `code:` |
| CodePattern.TrailingDashIsDropped | server.js:24 | `code: abc-` at the end of a message yields `abc`, because the boundary after `-` fails |
| CodePattern.OnlyFirstMatchCounts | server.js:145-147 | `Code:<tab>XyZ_9 code: b` yields `XyZ_9`: case is ignored and only the first match counts |
| Monitor.HandleMessage | server.js:143-150 | a message is forwarded exactly when the pattern matches somewhere (never for empty text), and the forwarded code is group 1 of the first match |
| Monitor.OnlyTheMessageCodeIsAdded | telegram_monitor.py:111-116 | the only entry a message can add or change is its own extracted code, and only through a successful send at the message's time |
| Monitor.NoCodeNoChange | telegram_monitor.py:111-113 | a message without a code leaves the dictionary untouched (it is not even pruned) |

## Left out

- The WebSocket connect/reconnect loop and the reading of server replies (server.js:48-82, telegram_monitor.py:43-73): network I/O. Their only effect here is whether the connection is `None`, closed or open, which is an input to `Step`.
- The Telethon client setup, the chat-title lookup, `main` and the process entry point: calls into a library whose behaviour is not part of this model.
- `asyncio.create_task` (server.js:150): each send is treated as one atomic step. In the source, two tasks for the same code can both pass the membership test before either records the code after `await send`, so both are sent. That race is not modelled.
- The history theorems (Trace.SuppressedInWindow, Trace.DuplicateIffRecentlySent, Trace.SendsAreSpaced) assume a clock that does not go back. `time.time()` (server.js:89) is a wall clock and does not guarantee that; Trace.ClockBackAllowsEarlyResend shows what can happen when it steps back.
- Wall-clock time from `time.time()` is a float; the model uses whole seconds supplied by the caller.
- Logging and the JSON encoding of the outgoing message.
- The two exception branches of the send (server.js:117-120) are merged into one `Raised` outcome, because they differ only in what they log.
- Character classes: `\w`, `\s` and the `re.IGNORECASE` class agree with Python only for code points below 128. Python also treats non-ASCII letters and digits as word characters and Unicode spaces such as U+00A0 as whitespace. Under `re.IGNORECASE` it also lets U+0130, U+0131, U+017F and U+212A match the code class. The model treats every character at or above 128 as neither.
- The Node.js server the monitor connects to and identifies itself to (server.js:49, 58-63): its source is not part of this model.
