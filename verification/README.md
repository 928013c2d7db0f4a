# Kedge: what its sync protocol and bookkeeping guarantee

Kedge serves the state of a BitTorrent session to browsers. Each websocket session first gets the whole
state as one JSON document and from then on, once a second, a JSON Patch (RFC 6902) from the previous
document to the current one. This project models that path from end to end and proves what a client
holds at any moment, together with the other stateful parts of the server.

| file | what it models |
|---|---|
| `Json.dfy`, `Pointer.dfy`, `Patch.dfy` | documents; JSON Pointer (RFC 6901) on strings; what a client does with a patch |
| `JsonDiff.dfy` | `json_diff` as loops over strings and operations, and the relation of all patches it may return |
| `DiffMeaning.dfy` | the effect of such a patch, on a document holding the source and on one already holding the target |
| `DiffTheorems.dfy`, `DiffPaths.dfy` | where the patch leads, what the append loop loses, which paths it touches |
| `UnescapedPaths.dfy`, `DirtyKeys.dfy` | how a client reads unescaped member names, and exactly when a patch leads to its target |
| `SendQueue.dfy` | `on_send` and `on_write` of a websocket session |
| `Sync.dfy`, `SyncRuns.dfy` | `join`, `leave`, `broadcast`, `doLoop` as atomic steps, and composed with the send queues |
| `SyncMicro.dfy`, `MicroVersions.dfy` | `join` and `doLoop` split at their statements and interleaved: which clients a tick leaves current, and how versions compare |
| `MicroRuns.dfy` | the small steps composed with the send queues |
| `MicroAtomic.dfy` | the atomic steps as runs of the small ones, and single schedules |
| `Alerts.dfy`, `Sheath.dfy` | torrent index, accounting of resume saves, drain at shutdown, sync document |
| `FileListing.dfy`, `SessionValues.dfy`, `UrlDecode.dfy` | file rows with open states, transfer rates, percent-decoding |

## Modelling decisions

- An object is a map: Boost equality ignores member order. The order in which members are enumerated is
  left open, so `IsDiff` is a relation and every theorem about a patch holds for every order.
- Signed and unsigned integers are one kind, as Boost compares them numerically. Doubles are reals, used
  for nothing but equality (JSON has no NaN).
- Paths are strings, built as the code builds them; the client parses them as RFC 6901 says.
- The append loop advances its index in its body and in its header (`include/json_diff.hpp:40` and `:43`).
  `AppendLoop` selects that loop (`AsWritten`) or one with a single increment (`Repaired`). The repository's
  README promises a JSON Patch of the state.
- Member names are put into paths without escaping. A name enters a path only when its member is new, lost
  or changed (`Touched`), at an object the recursion reaches; `TouchedKeysClean` says that no such name
  contains '/' or '~'. The code keeps its promise exactly for pairs of documents with clean touched keys in
  which no array reached grows by two or more (`DiffReachesTargetIff`). The document that `getSyncStats`
  makes has clean keys throughout when the fields of its torrents have (`GetSyncStats`), and the models of
  the server ask for that (`Payload`).
- What `getSyncStats` returns at a join or a tick is an input of that step. A session joins once and a
  left session does not come back: the session object is destroyed when it leaves.
- The posted `on_send` calls of one session run in the order of posting, as a strand runs them.
- In the small-step model these are one step each: the test for sessions; an increment or a reading of
  `sync_ver`; the null test of `curr_stats` in `join`; an assignment to `curr_stats`; the reading of the
  documents when a message is made; the copy of the sessions; one send. Each state records which snapshots
  took their version and their document when in the current tick (`History`); no step depends on that record.
- `join` calls `getSyncStats` between its null test and its assignment (`src/handlers.cpp:186`), and `doLoop`
  writes `curr_stats` without the mutex. So the first session's `join` can overwrite the document that the
  first tick has already made its message from (`NullTestRunEndsBadly`); `Verdict` accounts for it.
- libtorrent is an environment object that queues alerts as it likes, answers each save request with
  exactly one alert, and has finitely many other alerts and empty waits left.
- The rates are computed exactly and truncated toward zero. Timestamps start at zero; the code leaves
  them without an initial value (`include/session_values.hpp:18`).

## Model

| member | source | states |
|---|---|---|
| JsonDiff.JsonDiff | include/json_diff.hpp:11-88 | Whatever order members are enumerated in, the result is a patch of the relation `IsDiff`, which all the theorems below start from. |
| JsonDiff.DiffArrays | include/json_diff.hpp:24-46 | For arrays: the diffs of the common elements in order, then the removes, then the appends. |
| JsonDiff.RemoveSurplus | include/json_diff.hpp:35-38 | The surplus indices are removed from the highest down. |
| JsonDiff.AppendMissing | include/json_diff.hpp:40-44 | The append loop emits "/-" adds of the elements n, n+2, n+4, ... of the target as written, of all from n on when repaired, where n is the old length. |
| JsonDiff.DiffObjects | include/json_diff.hpp:47-74 | For objects: diffs or removes for all source members, then one add for each new member. |
| DiffMeaning.PatchEffect | include/json_diff.hpp:11-88 | With clean touched keys, for every document holding the source or the target at the patch's path, the patch fails or rewrites exactly that subtree, to a value computed from the two documents alone. |
| DiffMeaning.RemovesPhase | include/json_diff.hpp:35-38 | Descending removes all find their element and leave the prefix; on an array that is already short the first one fails. |
| DiffTheorems.EffectOnSource | include/json_diff.hpp:11-88 | The effect computed from the two documents is always defined on the source, and is the target without the elements the append loop skips; it is what the patch does when the touched keys are clean (`PatchEffect`). |
| DiffTheorems.DiffMeansExpected | include/json_diff.hpp:28-44 | With clean touched keys, every operation of the patch succeeds, the subtree becomes the expected value, and every place beside the path keeps its content. |
| JsonDiff.EverySecondElement | include/json_diff.hpp:40-44 | As written, exactly the target elements n, n+2, n+4, ... are appended, where n is the old length: half of the new ones, rounded up. |
| DiffTheorems.DiffAsWrittenIsExactIff | include/json_diff.hpp:11-88 | As written and with clean touched keys, the patch leads to the target if and only if no array reached by the recursion grows by two or more. |
| DiffTheorems.RepairedDiffRoundTrip | include/json_diff.hpp:11-88 | With one increment per round and clean touched keys, applying the diff to its source gives the target. |
| DiffTheorems.TwoNewElementsLoseOne | include/json_diff.hpp:40-44 | Two elements added to any array between two diffs: the patched array gets the first only, whatever the elements contain. |
| DiffTheorems.AsWrittenAppendsEverySecond | include/json_diff.hpp:40-44 | Of any elements added to any array, the patched array gets exactly the first, the third, the fifth and so on. |
| DiffTheorems.RepairedAppendsAll | include/json_diff.hpp:40-44 | With one increment per round it gets all of them. |
| DiffTheorems.UnescapedKeyFails | include/json_diff.hpp:52 | The patch from `{"a/b": 1}` to `{"a/b": 2}` fails on its own source. |
| DirtyKeys.DiffReachesTargetIff | include/json_diff.hpp:11-88 | For every patch and every document that holds its source at its path: the patch leads to the target if and only if the touched keys are clean and, with the loop as written, no array reached grows by two or more. |
| DirtyKeys.DirtyNeverArrives | include/json_diff.hpp:48-72 | With a touched key that needs escaping, at any depth and in any enumeration order, the patch fails or leaves something other than the target. |
| DirtyKeys.OrderMattersWhenDirty | include/json_diff.hpp:51-56 | From `{"a/b": 1, "a": {"b": 1}}` to `{"a/b": 2, "a": {"b": 3}}` two operations have one path: the patch succeeds in either order, with different results, neither of them the target. |
| UnescapedPaths.FirstTokenShrinks | include/json_diff.hpp:52 | The first token that a client decodes from an unescaped key is the key itself when it is clean, and otherwise something shorter or nothing. |
| UnescapedPaths.DiffStaysInside | include/json_diff.hpp:28-72 | Whatever the keys are, the path of every operation is the patch's path, and then the operation is a replace, or continues it with "/". |
| Pointer.EscapedKeyIsRead | include/json_diff.hpp:52 | If keys were escaped as RFC 6901 says, which the code leaves out, a client would read every key as itself. |
| DiffTheorems.EnumerationOrderIsIrrelevant | include/json_diff.hpp:51-72 | With clean touched keys, patches from different enumeration orders have the same result on every document holding source or target. |
| DiffTheorems.ReapplyIsHarmlessIff | include/json_diff.hpp:28-72 | With clean touched keys, on a document that already is the target the patch changes nothing if and only if no array reached changes length and no object loses a member. |
| DiffTheorems.DiffIsEmptyIff | include/json_diff.hpp:16-82 | The patch is empty if and only if source equals target. |
| DiffPaths.DiffPathsApart | include/json_diff.hpp:28-72 | With clean touched keys, all paths extend the patch's path, and no path contains another, except for the appends of one array. |
| Pointer.ParseExtended | include/json_diff.hpp:52 | Appending "/" and a clean key to a path appends exactly that token to what a client parses. |
| Pointer.IndexRoundTrip | include/json_diff.hpp:29 | Every array index survives printing and parsing. |
| Pointer.IndexTokenIsCanonical | include/json_diff.hpp:37 | No other token is parsed as that index. |
| Patch.PutElsewhere | include/json_diff.hpp:52-56 | Rewriting a subtree leaves every incomparable place as it was. |
| SendQueue.WebsocketSession.OnSend | src/http_websocket.cpp:110-127 | The message is always queued, and its write is started only if nothing else was queued; no write is started while one is in flight. |
| SendQueue.WebsocketSession.OnWrite | src/http_websocket.cpp:129-153 | A successful write leaves the queue and starts the write of the next message; a closed or failed one changes nothing and starts nothing. |
| SendQueue.QueueIsFifo | src/http_websocket.cpp:110-153 | In every run, written then queued messages are the accepted ones in order; until a failure the queue is non-empty exactly when the write of its front is in flight. |
| SendQueue.WireIsSuccesses | src/http_websocket.cpp:129-153 | In every run the wire holds exactly as many messages as writes have succeeded, and they are the first ones accepted. |
| SendQueue.CompletionMovesOne | src/http_websocket.cpp:129-153 | In every run a successful completion moves the message in flight to the wire and puts the next one in flight; a failed one moves nothing. |
| SendQueue.NoWriteAfterFailure | src/http_websocket.cpp:131-152 | After a failed write no write is started and nothing more reaches the wire, in any continuation. |
| Sync.HttpCaller.Join | src/handlers.cpp:177-194 | The server's whole new state after a join, with the snapshot posted to the new session. |
| Sync.HttpCaller.Leave | src/handlers.cpp:196-203 | The server's whole new state after a leave, which `LeaveIsFinal` and `LeaveChangesNothingElse` describe. |
| Sync.HttpCaller.Broadcast | src/handlers.cpp:206-229 | The message is posted once to each session of the set and to no other. |
| Sync.HttpCaller.DoLoop | src/handlers.cpp:247-268 | Without sessions nothing changes; otherwise one numbered delta from the previous to the new document is posted to all. |
| Sync.TickPatch | src/handlers.cpp:257-266 | A tick's patch brings a client holding the previous document to the new one, and any client at all when there was no previous document. |
| Sync.StepKeepsInvariant | src/handlers.cpp:177-268 | Joins, leaves and exact ticks keep: previous equals current or is null, and each connected client that drained its inbox holds the current document, after one snapshot and strictly increasing versions. |
| Sync.TickReachesClientsIff | src/handlers.cpp:257-266 | A tick brings a connected client to the new document if and only if its diff is exact. |
| SyncRuns.RunKeepsInvariant | src/handlers.cpp:177-268 | The invariant of server and queues holds after every run whose ticks are exact. |
| SyncRuns.RunsTrackIff | src/handlers.cpp:177-268 | Over every run: at the start and after each of its steps what was posted to every connected client leads to `curr_stats`, if and only if every tick of the run has an exact diff. |
| SyncRuns.RepairedRunsAlwaysCurrent | src/handlers.cpp:177-268 | With the repaired append loop every possible run keeps all connected clients current after each of its steps. |
| SyncRuns.LossyRunIsNotCurrent | src/handlers.cpp:247-268 | With the loop as written, a join and two ticks between which an array gets two elements are a possible run that leaves its client behind. |
| SyncRuns.EndToEnd | src/handlers.cpp:177-268 | In every reachable state of server and send queues, a client that applied what was written to its wire holds the `curr_stats` of the one join or tick that made the last message; the wire is a prefix of what was posted, starts with the only snapshot, and has strictly increasing versions. |
| SyncRuns.LogIsHistory | src/handlers.cpp:183-264 | A version number stands for exactly one join or tick of the run and its `curr_stats`. |
| SyncRuns.DrainedClientIsCurrent | src/handlers.cpp:205-266 | A connected client whose messages have all been written holds the server's current document. |
| SyncRuns.LeaveIsFinal | src/handlers.cpp:196-228 | A session that leaves is out of the set and is never sent anything again, in any continuation of any run. |
| SyncRuns.LeaveChangesNothingElse | src/handlers.cpp:196-203 | A leave keeps every other session connected, and every inbox, queue, document and number as it was. |
| SyncRuns.SessionsAreHistory | src/handlers.cpp:177-203 | Over every run the set holds exactly the sessions that have joined and have not left since. |
| SyncRuns.DocumentsAreHistory | src/handlers.cpp:183-266 | Over every run the version is the number of joins and ticks, `prev_stats` the document of the last tick, and `curr_stats` that document or, before the first tick, that of the first join. |
| SyncRuns.PostedIsHistory | src/handlers.cpp:187-264 | Over every run a session was sent exactly its snapshot, with its id, at its join and one delta for each tick while it was connected, each with its number. |
| SyncRuns.LinkProgress | src/http_websocket.cpp:97-153 | Over every run each session's queue has taken as many messages as its sends have run, and its wire holds as many as its writes have succeeded. |
| SyncMicro.StepKeepsHolds | src/handlers.cpp:177-268 | In every interleaving each small step, the end of a tick under a good verdict, keeps what is known of a client: outside ticks it holds the current document; before the tick reaches it, the previous one, or already the new one if its snapshot took its document in the window from the write of `curr_stats` to the copy of the sessions; afterwards the new one if and only if its verdict is good. |
| SyncMicro.TickLeavesCurrentIff | src/handlers.cpp:177-268 | Whatever was interleaved with a tick, at its end a connected client that drained its inbox holds `curr_stats` if and only if its snapshot took its document after the copy of the sessions, or `curr_stats` is still what the patch was made from and: the snapshot took its document in the window and the two documents have the same shape, or before the window and their diff is exact. |
| SyncMicro.InSyncIffGoodTicks | src/handlers.cpp:177-268 | Over every run of small steps, the connected clients hold `curr_stats` whenever no tick is under way, if and only if at the end of every tick that condition holds for each of them. |
| MicroVersions.DeltasIncrease | src/handlers.cpp:183-264 | In every interleaving a session gets its snapshot first, then only deltas, whose versions strictly increase. |
| MicroVersions.DeltaVersionIff | src/handlers.cpp:183-264 | In every interleaving a delta's version equals that of the session's last message exactly when that is a snapshot that read its version after the tick's `sync_ver ++` with no increment by a join between that and the tick's own reading, and is lower exactly when the snapshot read it after the tick's reading and such an increment. |
| MicroVersions.CalmRunsConverge | src/handlers.cpp:177-268 | In every interleaving in which no snapshot takes its document in the window and diffs are exact, connected clients that drained their inbox hold `curr_stats` between ticks; versions never decrease, and those of the deltas strictly increase. |
| MicroRuns.EveryWireStands | src/handlers.cpp:177-268 | With the send queues, in every interleaving whose ticks end with good verdicts: each wire is in order and leads to the document its last message stands for, except the last message of a tick still being sent or of a session that left; a connected client with everything written holds `curr_stats` between ticks, and once a tick has reached it if and only if its verdict is good. |
| MicroRuns.GoalIsHistory | src/handlers.cpp:257-264 | The document a delta stands for is the `curr_stats` from which exactly one tick of the run made the patch with that version. |
| MicroRuns.LeaveIsFinal | src/handlers.cpp:196-228 | In every interleaving a session that left is not sent anything more, also not by a tick that copied the set of sessions before. |
| MicroRuns.LinkProgress | src/http_websocket.cpp:97-153 | In every interleaving the queues and wires hold as many messages as sends have run and writes have succeeded. |
| MicroAtomic.NullTestRunEndsBadly | src/handlers.cpp:181-264 | A run from the start, for any two documents and either append loop: the first tick writes and makes its message between the null test and the assignment of the first `join`; at its end the client holds the one document, `curr_stats` is the other, and the verdict is bad. |
| MicroAtomic.JoinBeforeBuild | src/handlers.cpp:181-263 | One schedule: a whole join between the write and the making of the message leaves its session current if and only if the two documents have the same shape. |
| MicroAtomic.JoinBeforeCopy | src/handlers.cpp:181-264 | One schedule: the same for a whole join between the making of the message and the copy of the sessions; there the client's versions decrease. |
| MicroAtomic.VersionsMayTie | src/handlers.cpp:183-260 | One schedule: a session that joins between `sync_ver ++` and the write of `curr_stats` sees one version number twice. |
| MicroAtomic.WholeTickIsTick | src/handlers.cpp:247-268 | Run without interruption, the statements of `doLoop`, sending in any order, are the atomic tick. |
| MicroAtomic.WholeJoinIsJoin | src/handlers.cpp:177-194 | Run without interruption, the statements of `join` are the atomic join. |
| MicroAtomic.LeaveIsLeave | src/handlers.cpp:196-203 | Wherever a tick is, the small step of a leave is the atomic leave. |
| Alerts.IndexIsLastWord | src/sheath.cpp:332-340 | After any history of alerts a handle is indexed with a status if and only if the last alert naming it was a state update whose last status for it was that one. |
| Alerts.RequestsByKind | src/sheath.cpp:264-331 | Over any alerts, a torrent's resume data is asked for once for each alert that its metadata came, that it was added without error, that it finished or that it was paused, and for no other. |
| Alerts.AnswersByKind | src/sheath.cpp:310-325 | A request is answered once for each alert that the resume data is there or failed. |
| Sheath.Sheath.SetAllTorrents | src/sheath.cpp:812-830 | Every reported status is stored, the last one for a handle winning. |
| Sheath.Sheath.RemoveTorrentWithHandle | src/sheath.cpp:832-840 | Only the named torrent leaves the index. |
| Sheath.Sheath.HandleAlert | src/sheath.cpp:229-344 | The new index, rate window and save books for every kind of alert, and exactly which alerts stay out of the log. |
| Sheath.BooksStayBalanced | src/sheath.cpp:264-331 | Handling an alert keeps the counter equal to the number of save requests without a handled answer. |
| Sheath.Sheath.PopAlerts | src/sheath.cpp:346-358 | Handling all queued alerts keeps the books balanced and the counter non-negative, and lowers the drain's measure by at least their number. |
| Sheath.Sheath.RequestAll | src/sheath.cpp:583-596 | Each selected torrent is asked for once, and alerts are popped after every 32 requests. |
| Sheath.Sheath.SaveAllResume | src/sheath.cpp:570-605 | The drain terminates; then nothing is outstanding; the requests ever made are those of the selections and those that handled alerts led to, all are answered, and so is that of every torrent that needed a save. |
| Sheath.SelectedNeedSave | src/sheath.cpp:575-581 | Exactly the valid torrents with metadata and unsaved state are selected. |
| Sheath.SelectedOnce | src/sheath.cpp:575-581 | Of distinct torrents each is selected once. |
| Sheath.Sheath.GetSyncStats | src/sheath.cpp:842-855 | The sync document lists exactly the torrents on which some alert had the last word, each once and with that status, and is a payload for the protocol. |
| FileListing.ListFiles | src/sheath.cpp:679-713 | One row per file with its thousandths done, completeness, priority and the state the cursor gives it. |
| FileListing.ProgressIsThousandths | src/sheath.cpp:687-688 | Progress is the number of thousandths done, cut off, and 1000 for an empty file. |
| FileListing.AllConsumedIff | src/sheath.cpp:679-709 | One pass consumes every open-file entry if and only if the entries are strictly ascending and name existing files. |
| FileListing.ShownStateIsOwn | src/sheath.cpp:701-709 | On such entries each row shows the state of its own entry, and none without one. |
| FileListing.StateOf | src/sheath.cpp:703-707 | The three modes show as "read", "write" and "read/write"; the random-access and sparse flags show only when the mode bits name no mode: the first `emplace` wins. |
| FileListing.ProgressIsFullIff | src/sheath.cpp:687-691 | Progress lies within 0 and 1000 and is 1000 if and only if the file is complete, also for empty files. |
| SessionValues.Values.UpdateCounters | include/session_values.hpp:78-91 | The new sample is stored; the older one is replaced by the last one exactly when its age, modulo 2^64, is over two seconds. |
| SessionValues.WindowOverRun | include/session_values.hpp:79-91 | Over every run each counter vector is the sample of its own timestamp; the window is positive, and at most two seconds or exactly the last gap. |
| SessionValues.OlderSampleMoves | include/session_values.hpp:79-91 | Over every run, a new sample at most 2000000 microseconds after the older sample leaves it in place; a later one puts the last sample in its place. |
| SessionValues.OlderSampleMovesIff | include/session_values.hpp:82-86 | From any state and for any clock: a clock that went back counts as more than two seconds, unless it went back by almost 2^64. |
| SessionValues.RateOfGrowingCounter | include/session_values.hpp:114-123 | A counter that never decreases has a non-negative rate that accounts for its growth up to less than one per second. |
| SessionValues.RateIsCutTowardZero | include/session_values.hpp:116-120 | The rate of any two samples, also of a falling counter, is the change per second cut off toward zero. |
| UrlDecode.UrlDecode | include/http_util.hpp:102-130 | The loop computes the decoded text and ends with no more bytes than it read. |
| UrlDecode.DecodeAfterEncoded | include/http_util.hpp:108-127 | Decoding an encoded text followed by anything gives the text and then decodes the rest. |
| UrlDecode.DecodeUndoesEncode | include/http_util.hpp:102-130 | Decoding undoes the percent-encoding of every byte string. |
| UrlDecode.PlusIsSpace | include/http_util.hpp:116-119 | A plus sign anywhere between texts decodes to a space. |
| UrlDecode.EscapeInEitherCase | include/http_util.hpp:108-114 | An escape with two hexadecimal digits in either letter case decodes to its byte. |
| UrlDecode.MalformedEscape | include/http_util.hpp:110-112 | Any other escape decodes to one byte as `strtol` reads it: a first digit alone, a second one after white space or a sign, and otherwise zero. |
| UrlDecode.LatePercent | include/http_util.hpp:108 | A percent sign with fewer than two characters after it stands for itself. |

## Left out

- Sockets, the HTTP and websocket libraries, accepting and reading: not part of this model. Text that a client sends and `on_read` broadcasts again (src/http_websocket.cpp:82) is treated as absent.
- The rendering of an operation and of a message as JSON text: messages are values.
- `sync_ver` is unbounded: its wrap-around after 2^64 joins and ticks is not modelled.
- The rendering of a torrent status field by field (src/sheath.cpp:56-129) and of the session statistics: their results are inputs.
- What the save handlers write to disk, and the connection and storage calls made beside a save request.
- DiffMeaning.PatchEffect: asks for clean touched keys; without them the code misses its target (`DirtyNeverArrives`), at a place that depends on the other keys of the document.
- DiffTheorems.EnumerationOrderIsIrrelevant: asks for clean touched keys; `OrderMattersWhenDirty` shows two orders with different results otherwise.
- DiffTheorems.ReapplyIsHarmlessIff: asks for clean touched keys; otherwise an operation may rewrite some other place with the value that happens to be there.
- DiffPaths.DiffPathsApart: asks for clean touched keys; in `OrderMattersWhenDirty` two operations have one path.
- MicroVersions.CalmRunsConverge: excludes snapshots made in the window from the write of `curr_stats` to the copy of the sessions, and inexact diffs; `InSyncIffGoodTicks` and `DeltaVersionIff` cover every run.
- MicroRuns.EveryWireStands: says nothing about the last message of a session that has left, whose tick ends without a verdict on it.
- An assignment to `curr_stats` and a reading of it are one step each: that `doLoop` assigns while a `join` copies is not modelled.
- SessionValues.Values.GetRates: asks for a sample; before the first one the code divides zero by zero and converts the result to `int` (include/session_values.hpp:116-120). Also float rounding and the narrowing casts of the rates; the size tests around them, which compare with one index only.
- FileListing.ListFiles: the overflow of `done * 1000` in 64 bits for files beyond nine petabytes.
- `query_arg_one`, routing, options, logging, directory preparation, pause and resume: single-branch facts.
