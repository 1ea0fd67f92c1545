# Agent-conductor, verified

A Dafny model of the parts of agent-conductor whose promises span whole runs: the live
event stream and its pollers, the sample table behind `/metrics`, the windowed transcript
reader, the reminder bridge, the audit log, path conflicts between sessions, the tmux
ancestor walk, graceful shutdown and the argument parser. `dafny verify dfyconfig.toml`
checks everything. Nothing was executed.

## How it is organised

Code that changes state step by step (pollers, broadcaster, store, audit queue, shutdown,
every loop) is a class or a method with a loop, proved against a small specification
function. The theorems are about those functions, over every run. Code that is an
expression (the metadata printer, the label escape) is a function.

| file | what it models |
|---|---|
| Broadcast.dfy | the subscriber set and `emit`, against a global event log |
| SessionDiff.dfy | ticks of the session poller: the diff, the fold a client computes, runs of overlapping ticks of several pollers |
| ReminderDiff.dfy | the same for the reminder loop with its module variables |
| Pollers.dfy | the pollers as objects over broadcaster, store and counter; the books of samples written, kept and pruned |
| PolledTable.dfy | the rows that ticks write one after another, and what the table then answers |
| Lifecycle.dfy | connections, disconnections and close; both loops together as one system |
| Clients.dfy | what one client can show, wherever in the stream it joined |
| Store.dfy | the SQLite table as a row sequence: batches, retention, the latest-per-pid query |
| Prometheus.dfy, MetricFigures.dfy | aggregation, label escaping, the text body, and a scraper that reads it back |
| ScrapedTick.dfy | from what a tick observed to the numbers of /metrics |
| JsonlLines.dfy, Transcript.dfy | which lines a byte window holds, and what the extractors make of them |
| ReminderMetadata.dfy | the metadata line: its regular expression as a relation, a matcher, a printer |
| Audit.dfy | the promise queue, one file operation at a time, with failures and rotation |
| PathLock.dfy | path prefixes against the directory tree, the git root walk, the conflict map |
| TmuxMap.dfy | the bounded ancestor walk, with and without the snapshot's cache |
| Shutdown.dfy, Daemon.dfy | draining HTTP, waiting for WebSockets, the daemon's one ordered close and its books |
| Args.dfy | the argument loop |

Inputs the model does not compute are parameters: what discovery or `refinedStatusFor`
returned, what `listTodos` returned, whether a statement or file operation failed and at
which position, clock values, `realpath` and `.git` look-ups, the parent a `ps` call
reported, how a line parses.

## Where the code and its documentation differ

The code was followed. Each of these is a theorem with the exact condition, or a concrete
run that shows the difference.

- A tick that is in flight when its poller is stopped still emits. Each poller's own
  events always fold to its map, but one client sees the events of all of them:
  `SharedStreamIsFaithfulExactlyWhen` says for which runs the mix always mirrors the newest
  poller, `ClientIsRightExactlyWhen` says the same of a client that joins at any moment, and
  `LateTickMisleadsForever` is a run after which no later tick ever corrects the client.
- The `previous` of an event is the emitting poller's own earlier status. It is what clients
  show exactly when every tick was truthful at its moment
  (`SharedStreamIsWellReportedExactlyWhen`).
- `stopReminderPolling` is documented to clear the cached state. It stays clear until the
  next start exactly when no tick was in flight (`StopClearsExactlyWhen`); a late tick fills
  it again, and the restarted loop then announces nothing (`LateTickSwallowsAnnouncements`).
- A todo that is reopened without any text change is reported by no event
  (`OpenStaysRightExactlyWhen`, over a run `OpenIsRightExactlyWhen`, and
  `ReopenedTodoShowsCompleted`).
- The latest-per-pid query is described as the latest sample per pid. It returns every row
  with the greatest timestamp, so a tie returns several and a clock that steps back returns
  an old one (`LatestPerPidIsLastWritten`, `TiedTimestampsAnswerTwice`). The poller's rows
  rule that out exactly when the clock moves on between ticks that list a pid in common
  (`RowsAdvanceExactlyWhen`).
- The session gauge is documented to count live sessions. It counts every pid that still has
  a row, so its numbers are those of the last tick exactly when no session that has ended was
  last seen with that provider and status (`TickIsScraped`, `GoneSessionIsCounted`).
- The metadata line is documented as the last line of the notes. The parser takes the
  first line that matches (`ComposedNotesParse`), so a todo reads back its metadata exactly
  when the repo is non-empty and free of white space and its prose holds no other metadata
  (`AddedTodoParsesExactlyWhen`, `QuotedLineWins`).
- `gracefulClose` puts its listeners on the responses that are in flight when it starts. A
  request that arrives later and overlaps the last of them makes it wait for the deadline
  and report an undrained server (`DrainedExactlyWhen`, `ArrivalHidesTheDrain`).
- `gracefulClose` and the daemon's `close` are documented as idempotent. A second
  `gracefulClose` answers at once with `drained: true` and `inflightAtEnd: 0`, whatever is
  still in flight; the first call will not contradict it exactly when the wait has already
  ended with a drain (`SecondCallIsRightExactlyWhen`, `SecondReportAgreesExactlyWhen`). A
  repeated `close()` gives the final answer exactly when shutdown has completed, and its
  claim of a drain is safe exactly when the drain has ended well (`AnswerIsFinalExactlyWhen`,
  `DrainClaimHoldsExactlyWhen`, `EarlyRepeatMisreports`).
- A client whose `close()` throws is counted as done and may be counted again when it
  closes (`WaitIsForAllExactlyWhen`).
- The daemon's shutdown budget is split in two halves of at least 100 ms, so a timeout
  below 200 ms is exceeded (`FirstCallDecides`).
- Two rotations of the audit log in one millisecond use one archive name, and the first
  archive is lost (`RotationKeepsTextExactlyWhen`, over a run `TextIsKeptExactlyWhen`, and
  `SameStampLosesTheFirstArchive`).
- The ancestor walk looks at 50 processes. It misses no owner exactly when there are at
  most 50 ancestors above pid 1 (`WalkIsCompleteExactlyWhen`, `WalkGivesUp`).
- When tmux lists one pane pid twice, the snapshot's map keeps the last row and the
  uncached walk takes the first (`SnapshotAgreesExactlyWhen`, `PaneListedTwice`).
- A session whose directory is the file system root never conflicts with a directory below
  it, because the prefix tested is `//` (`ConflictMeans`, `RootConflictsWithNothingBelow`).

## Model

| member | source | states |
|---|---|---|
| Broadcast.SubscriptionReceivesItsSlice | src/http/ws.ts:61-83 | between subscribe and unsubscribe a callback receives exactly the contiguous slice of the global log, in order, and nothing outside it |
| Broadcast.ReceivedWhileSubscribed | src/http/ws.ts:64-82 | a callback that stays subscribed receives every event emitted, whatever others do |
| Broadcast.NothingWhileUnsubscribed | src/http/ws.ts:64-82 | a callback that is not subscribed receives nothing |
| Broadcast.WsBroadcaster.Subscribe | src/http/ws.ts:64-67 | the set gains one member; every callback's received events stay what the history says |
| Broadcast.WsBroadcaster.Unsubscribe | src/http/ws.ts:64-67 | exactly that callback leaves |
| Broadcast.WsBroadcaster.Emit | src/http/ws.ts:73-82 | every subscriber is called once even after one throws; the log grows by the event |
| SessionDiff.EveryGenerationIsFaithful | src/http/ws.ts:117-176 | for every interleaving of overlapping, late and failed ticks, one poller's events fold to its map, and each event reports a real change from what the fold showed |
| SessionDiff.TickAdvancesMirror | src/http/ws.ts:141-172 | one tick's events take a faithful mirror to the new map and touch no other pid |
| SessionDiff.StoppedPollerFallsSilent | src/http/ws.ts:121-121 | after stop no tick starts; once the last one in flight is over the poller never emits or changes again |
| SessionDiff.StreamMirrorsNewestPoller | src/http/ws.ts:112-186 | without late ticks the shared stream mirrors the running poller across restarts |
| SessionDiff.LateTickIsHarmlessExactlyWhen | src/http/ws.ts:117-185 | a late tick of an old poller keeps the shared stream faithful if and only if it changes no pid the running poller knows to another status |
| SessionDiff.StepKeepsStreamExactlyWhen | src/http/ws.ts:112-186 | any step of any poller keeps a faithful shared stream faithful if and only if it is no harmful late tick |
| SessionDiff.StreamIsFaithfulExactlyWhen | src/http/ws.ts:112-186 | over a run the shared stream mirrors the newest poller at every moment if and only if every late tick is harmless at its moment |
| SessionDiff.LateTickMisleadsForever | src/http/ws.ts:117-185 | a run after which clients show a wrong status however many further ticks see the right one |
| SessionDiff.DiffReportedExactlyWhen | src/http/ws.ts:141-148 | after any stream, a tick's events report real changes from what the stream shows if and only if the stream shows the old status of every known pid the tick changes |
| SessionDiff.StepReportsExactlyWhen | src/http/ws.ts:112-186 | the same for any step of any poller |
| SessionDiff.StreamIsWellReportedExactlyWhen | src/http/ws.ts:112-186 | over a run every event of the shared stream has a right `previous` if and only if every completed tick was truthful at its moment |
| SessionDiff.LateClientAgrees | src/http/ws.ts:270-293 | a client that joins in the middle shows exactly the pids with an event since, and for each what a client from the start shows |
| SessionDiff.StepKeepsClientExactlyWhen | src/http/ws.ts:112-186 | wherever a client joined, a step of any poller leaves what it shows right if and only if it is no harmful late tick |
| Clients.LateClientShowsExactly | src/http/ws.ts:270-293 | for any run of the daemon: a client shows exactly the sessions with an event since it subscribed; what it shows of the newest poller's sessions is right at every moment since if and only if each late tick since is harmless at its moment |
| Clients.LateClientShowsTodosExactly | src/http/ws.ts:230-293 | a client shows exactly the todos announced since it subscribed; those still cached with the cached texts and never open when completed |
| Clients.ConnectedClientShowsSessions | src/http/ws.ts:270-293 | the same of the object the handlers have moved, from the events the callback was called with: these sessions are shown, and rightly if the late ticks since were harmless |
| Clients.ConnectedClientShowsTodos | src/http/ws.ts:230-293 | and these todos, with the cached texts |
| SessionDiff.FoldOfDiff | src/http/ws.ts:141-148 | what a tick's events do to any mirror, pid by pid |
| SessionDiff.DiffMeans | src/http/ws.ts:141-148 | a tick reports a pid if and only if it has another status than the poller had for it, with that as `previous`, null if it had none |
| ReminderDiff.DiffTodos | src/reminders/poll.ts:29-48 | the loop computes the specified events; over lists with unique ids an event is among them if and only if the lists call for it: added if the id is new, completed if it was open under that id, else updated if title, notes or due date differ |
| ReminderDiff.DiffMeans | src/reminders/poll.ts:29-48 | the same of the specification the runs below use |
| ReminderDiff.DiffInOrder | src/reminders/poll.ts:35-46 | at most one event for each todo, in list order |
| ReminderDiff.TickAdvancesMirror | src/reminders/poll.ts:77-87 | a tick's events take the mirror to the new list: same texts, nothing completed shown open |
| ReminderDiff.StreamMirrorsPolledList | src/reminders/poll.ts:55-112 | over any run of ticks, failures, stops, restarts and late ticks, the folded events mirror the cached list |
| ReminderDiff.OpenStaysRightExactlyWhen | src/reminders/poll.ts:38-44 | the mirror's open todos stay right if and only if no todo is reopened with unchanged texts |
| ReminderDiff.OpenIsRightExactlyWhen | src/reminders/poll.ts:29-112 | over a run the open todos are right at every moment if and only if no completed tick reopens a todo silently |
| ReminderDiff.ReopenedTodoShowsCompleted | src/reminders/poll.ts:38-44 | a run in which a reopened todo is shown completed |
| ReminderDiff.AnnouncesAllExactlyWhen | src/reminders/poll.ts:32-37 | a tick announces its whole list as added if and only if no id was cached |
| ReminderDiff.CacheStaysClear | src/reminders/poll.ts:105-112 | after stop the cache stays clear until some tick completes |
| ReminderDiff.CacheIsLastList | src/reminders/poll.ts:71-112 | over any run the cache is the list of the last tick that completed, empty if a stop came after it; failures and starts leave it alone |
| ReminderDiff.StopClearsExactlyWhen | src/reminders/poll.ts:105-112 | whatever happens until the next start, the cache stays clear after stop if and only if no tick was in flight |
| ReminderDiff.FirstTickAfterStopAnnouncesAll | src/reminders/poll.ts:71-112 | the first tick to complete after a stop announces everything |
| ReminderDiff.LateTickSwallowsAnnouncements | src/reminders/poll.ts:75-111 | if that tick belongs to the stopped loop, the restarted loop announces nothing |
| Pollers.BooksBalance | src/http/ws.ts:161-172 | over any run: rows = rows at open + samples counted - rows pruned, the counter is the samples written, and a tick whose store calls succeed leaves the table within its cap |
| Pollers.SessionsDiffPoller.RecordSamples | src/http/ws.ts:161-171 | a refused batch changes neither table nor counter; a written one is counted in full even if pruning then fails |
| Pollers.SessionsDiffPoller.EmitAndSample | src/http/ws.ts:139-160 | the loop emits exactly the diff, and samples each entry in turn with its pid, its status, the clock, and the provider that discovered it, else "unknown" |
| Pollers.SessionsDiffPoller.CompleteTick | src/http/ws.ts:138-172 | the whole section after the last await refines one step of the specification; with an open store and no failing insert the table ends in one row for each entry, as observed, behind the newest earlier rows, and the counter grows by as many; else neither changes |
| Pollers.RecordedAppends | src/http/ws.ts:161-168 | that is what the books' own account of a tick means |
| Pollers.SessionsDiffPoller.StartTick | src/http/ws.ts:120-121 | a stopped poller does not proceed |
| Pollers.SessionsDiffPoller.Stop | src/http/ws.ts:182-185 | stopping keeps the map and the ticks in flight |
| Pollers.ReminderPoller.Start | src/reminders/poll.ts:71-103 | no second interval while one runs |
| Pollers.ReminderPoller.Stop | src/reminders/poll.ts:106-112 | the one live interval is cleared and the cache emptied |
| Pollers.ReminderPoller.StartTick | src/reminders/poll.ts:99-99 | the interval starts a tick only while it is alive |
| Pollers.ReminderPoller.FailTick | src/reminders/poll.ts:88-96 | a failed tick leaves cache and stream alone |
| Pollers.ReminderPoller.CompleteTick | src/reminders/poll.ts:77-87 | the tick's events reach the broadcaster in order and the list is cached |
| Lifecycle.PollersRunOnDemand | src/http/ws.ts:230-298 | in every reachable state both loops run if and only if somebody is connected before close, with at most one live interval of each kind |
| Lifecycle.NothingRunsAfterClose | src/http/ws.ts:331-336 | after close no loop runs again and no tick starts, whatever close events and late ticks arrive |
| Lifecycle.LoopsOfSystem | src/http/ws.ts:217-298 | connections and disconnections only ever take steps of the two loops |
| Lifecycle.LoopsStayFaithful | src/http/ws.ts:217-298 | for every order of connects, disconnects, ticks and close each poller's own events fold to its map, and the todo stream mirrors the cached list |
| Lifecycle.EventKeepsStreamExactlyWhen | src/http/ws.ts:217-298 | one event of the daemon keeps the shared session stream faithful if and only if it is no harmful late tick |
| Lifecycle.SharedStreamIsFaithfulExactlyWhen | src/http/ws.ts:217-298 | the session stream clients share mirrors the newest poller at every moment of a run if and only if every late tick in it is harmless at its moment |
| Lifecycle.HandoverSpoilsTheStream | src/http/ws.ts:270-293 | a connect, a disconnect and a connect with one late tick suffice to mislead the client |
| Lifecycle.EventKeepsClientExactlyWhen | src/http/ws.ts:217-298 | one event of the daemon leaves what a client shows right if and only if it is no harmful late tick, wherever the client joined |
| Lifecycle.ClientIsRightExactlyWhen | src/http/ws.ts:217-298 | from any state on, what a client that joins there shows is right at every moment if and only if every late tick since is harmless at its moment |
| Lifecycle.EventReportsExactlyWhen | src/http/ws.ts:217-298 | one event of the daemon keeps `previous` right in the shared stream if and only if it is no untruthful tick |
| Lifecycle.SharedStreamIsWellReportedExactlyWhen | src/http/ws.ts:217-298 | over a run of the daemon `previous` is right in the shared stream at every moment if and only if every completed tick was truthful at its moment |
| Lifecycle.CarriesUpdates | src/http/ws.ts:141-148 | when a session tick emits its events, the broadcaster's log goes on holding exactly what the two loops emitted, each in its own order |
| Lifecycle.CarriesNews | src/http/ws.ts:236-238 | the same when a reminder tick forwards its events |
| Lifecycle.AttachedWs.EnsurePollersRunning | src/http/ws.ts:230-256 | starts what is missing if somebody is subscribed, and never a second loop; the loops' own states move with it |
| Lifecycle.AttachedWs.MaybeStopPollers | src/http/ws.ts:258-268 | stops both loops exactly when nobody is subscribed; the loops' own states move with it |
| Lifecycle.AttachedWs.Connect | src/http/ws.ts:272-289 | subscribes, then runs the pollers: an object that stands where the system stands, its log holding what the loops emitted, stands after it where the system stands after the event |
| Lifecycle.AttachedWs.Disconnect | src/http/ws.ts:290-293 | unsubscribes, then stops what nobody needs; the same |
| Lifecycle.AttachedWs.BeginClose | src/http/ws.ts:331-336 | no client can join and both loops are stopped; the same |
| Lifecycle.AttachedWs.SessionTickStarts | src/http/ws.ts:120-121 | any poller ever started begins a tick unless stopped; the same |
| Lifecycle.AttachedWs.SessionTickFails | src/http/ws.ts:173-175 | any poller's tick fails; the same |
| Lifecycle.AttachedWs.SessionTickCompletes | src/http/ws.ts:138-172 | any poller's tick, also a late one, diffs, emits, records and keeps its map; the same |
| Lifecycle.AttachedWs.ReminderTickStarts | src/reminders/poll.ts:99-99 | the interval starts a reminder tick; the same |
| Lifecycle.AttachedWs.ReminderTickFails | src/reminders/poll.ts:88-96 | a reminder tick fails; the same |
| Lifecycle.AttachedWs.ReminderTickCompletes | src/reminders/poll.ts:77-87 | a reminder tick, also a late one, caches the list and broadcasts its events; the same |
| Timeseries.TimeseriesStore.WriteMany | src/timeseries/store.ts:153-160 | all samples become rows with the next ids, or nothing changes |
| Timeseries.TimeseriesStore.Prune | src/timeseries/store.ts:177-190 | terminates; the table becomes its newest maxRows rows in the specified number of batches; a statement that throws leaves a suffix no smaller than the cap |
| Timeseries.TimeseriesStore.DeleteBatch | src/timeseries/store.ts:181-187 | one batch deletes from the oldest end and never more than the overflow |
| Timeseries.BatchesDeleteTheOverflow | src/timeseries/store.ts:177-190 | the batches sum to exactly the overflow, each at most 1000 rows, and are as few as that allows |
| Timeseries.LatestPerPidIsLastWritten | src/timeseries/store.ts:134-142 | the max-ts join is the last row written per pid if and only if every pid's last row is strictly its newest |
| Timeseries.TimeseriesStore.LatestPerPid | src/timeseries/store.ts:134-142 | the answer is exactly the rows of which no row of the same pid has a later timestamp, each once |
| Timeseries.TiedTimestampsAnswerTwice | src/timeseries/store.ts:134-142 | two rows with one timestamp are both returned |
| Timeseries.TableFollowsHistory | src/timeseries/store.ts:153-190 | what a write or a prune does to the rows is one step of the history the next row speaks of |
| Timeseries.RetentionNeverChangesTheAnswer | src/timeseries/store.ts:153-198 | across any writes and prunes a pid that still has a row is answered by its last sample ever written, if timestamps advance per pid |
| PolledTable.RowsAdvanceExactlyWhen | src/http/ws.ts:140-163 | the rows ticks write have timestamps that advance per pid if and only if the clock moved on between any two ticks that list a pid in common |
| PolledTable.PolledTableAnswersLastWritten | src/http/ws.ts:140-168 | so a table that ticks write and prune, over rows of an earlier daemon's ticks, answers every pid it still has a row of with the last sample ever written for it |
| ScrapedTick.TickIsScraped | src/timeseries/prometheus.ts:96-115 | after a tick whose samples reached the table, if the clock moved on for its pids, each row of /metrics is the number of the tick's entries with that provider and status plus the ended sessions last seen so; so it is the tick's number if and only if there is none |
| ScrapedTick.AppendedIsRecorded | src/http/ws.ts:161-168 | and that is the table CompleteTick leaves |
| ScrapedTick.GoneSessionIsCounted | src/timeseries/store.ts:134-142 | a session that has ended is still counted after a tick that does not see it |
| Timeseries.RetentionAnswersExactlyWhen | src/timeseries/store.ts:134-198 | without any assumption on the clock: after any writes and prunes every retained pid is answered by its last sample ever written if and only if each pid's last retained row is strictly its newest retained one |
| Timeseries.AnswerCountsPids | src/timeseries/store.ts:134-142 | at least one row per retained pid, and exactly one each if and only if no newest timestamp is tied |
| Prometheus.EscapeIsOnePass | src/timeseries/prometheus.ts:60-62 | the three replacements equal escaping each character once |
| Prometheus.EscapedLabelReadsBack | src/timeseries/prometheus.ts:56-62 | reading an escaped label up to its closing quote gives the value back, so no quote inside ends it early |
| Prometheus.EscapedLabelIsOneLine | src/timeseries/prometheus.ts:56-62 | no raw line feed remains |
| Prometheus.AggregateSessions | src/timeseries/prometheus.ts:68-79 | the nested map counts every sample under its provider and status and holds no other key |
| Prometheus.RowsAccountForEverySample | src/timeseries/prometheus.ts:92-115 | the rendered values sum to the number of samples |
| Prometheus.RowsAccountForEveryPid | src/timeseries/prometheus.ts:96-115 | over a table they sum to at least the retained pids, and to exactly that number if and only if no newest timestamp is tied, as when timestamps advance per pid |
| Prometheus.FiveRowsPerProvider | src/timeseries/prometheus.ts:103-113 | providers strictly ascend and each has five rows, in status order, with its counts |
| Prometheus.LessMeans | src/timeseries/prometheus.ts:104-104 | the order of providers is by the first character in which they differ, a prefix first |
| Prometheus.RowsIgnoreOrder | src/timeseries/prometheus.ts:96-114 | the rows do not depend on the order in which the query returns the samples |
| Prometheus.PushSessions | src/timeseries/prometheus.ts:96-114 | the two nested loops push exactly those rows; an empty answer pushes one zero row |
| Prometheus.RenderPrometheus | src/timeseries/prometheus.ts:84-141 | the body is the specified lines, joined and terminated by a line feed |
| Prometheus.RowReadsBack | src/timeseries/prometheus.ts:109-111 | a rendered row is read back as itself for every provider name |
| Prometheus.ScrapeReadsTheSessions | src/timeseries/prometheus.ts:84-141 | a scraper that reads the whole body finds exactly the session rows, and one zero row if the store is empty: no provider name or version text can add, hide or alter one |
| MetricFigures.ScrapeReadsTheFigures | src/timeseries/prometheus.ts:118-137 | it finds the sample counter, the audit size and the open and completed todos each once under its own name if it was given, and nowhere else |
| MetricFigures.VersionReadsBack | src/timeseries/prometheus.ts:87-90 | the build line gives the version back, whatever characters it holds |
| JsonlLines.WindowHoldsLastLines | src/jsonl/parser.ts:35-54 | for any file and window: at most one strict suffix of a line, then exactly the last k non-blank lines; all of them when the window covers the file |
| JsonlLines.TailHoldsLinesThatStartInIt | src/jsonl/parser.ts:35-54 | which lines these are: the non-blank ones of those that start in the last maxBytes bytes, behind what is left of the line before if the window cuts it |
| JsonlLines.SplitIsExactly | src/jsonl/parser.ts:48-48 | splitting gives the one list of lines without line feeds that gives the text back when joined by line feeds |
| JsonlLines.NonBlankKeeps | src/jsonl/parser.ts:48-48 | the filter keeps exactly the lines that are not blank, in order |
| JsonlLines.SplitConcat | src/jsonl/parser.ts:47-48 | splitting a file joins the lines of what precedes the window and of the window |
| Transcript.WindowHoldsLastRecords | src/jsonl/parser.ts:35-54 | if cut lines do not parse, the window gives the file's last k records |
| Transcript.ExtractPendingToolUses | src/jsonl/parser.ts:238-280 | the loops compute the pending tool uses: those that no user record answers, with the name and input of the last block of an assistant record that uses the id |
| Transcript.PendingListMeans | src/jsonl/parser.ts:238-280 | the same of the specification that the window theorems use |
| Transcript.PendingListIsPending | src/jsonl/parser.ts:279-279 | the list holds exactly the unanswered ids with their latest payload |
| Transcript.PendingAgreesExactlyWhen | src/jsonl/parser.ts:229-280 | the window agrees with the full transcript on the ids it uses if and only if none of them was answered only before it |
| Transcript.CausalOrderSuffices | src/jsonl/parser.ts:229-280 | which cannot happen when no result precedes a use of its id |
| Transcript.TailPendingMatchesFullRead | src/jsonl/parser.ts:238-280 | for any file in causal order and any window the pending tool uses are the full file's, restricted to ids used in the window |
| Transcript.PendingListEndsInFreshExactlyWhen | src/jsonl/parser.ts:279-279 | the full list is ids used before the window followed by the window's list less those ids, in order, if and only if none of the ids the window adds was answered only before it |
| Transcript.FreshPendingIsAll | src/jsonl/parser.ts:279-279 | when no id is used on both sides of the cut that end is the window's whole list |
| Transcript.ExtractLastAssistantTurn | src/jsonl/parser.ts:201-227 | the backward loop returns the fields of the last line that is an assistant turn, with no blocks where its content is missing, and null if and only if there is none |
| Transcript.LastTurnIsLast | src/jsonl/parser.ts:180-183 | it is the last assistant turn, and null only if there is none |
| Transcript.TailTurnMatchesFullRead | src/jsonl/parser.ts:189-227 | the window's last turn is the full file's whenever the window holds a turn, and null otherwise |
| Transcript.ExtractToolUseEvents | src/jsonl/parser.ts:89-120 | the loop and the filter give exactly the events of the named tool uses in the last turns, numbered by assistant line, or throw exactly if some turn's content cannot be iterated |
| Transcript.EventsMean | src/jsonl/parser.ts:89-120 | the same of the specification that the window theorems use |
| Transcript.SinceIsFrom | src/jsonl/parser.ts:118-119 | filtering by turn index keeps exactly the turns from the cutoff on |
| Transcript.RecentEventsOfSuffix | src/jsonl/parser.ts:84-120 | the events of a window are the full file's, renumbered, less the recent turns before the window |
| Transcript.TailEventsMatchFullRead | src/jsonl/parser.ts:89-120 | a window that holds lastNTurns turns gives the full file's recent events, turns renumbered from the window |
| Transcript.TailThrowsOnlyIfFullReadThrows | src/jsonl/parser.ts:89-120 | a window throws only where a full read throws |
| ReminderMetadata.MatcherIsExpression | src/reminders/metadata.ts:18-18 | the matcher finds captures at a position if and only if the regular expression matches there with those captures |
| ReminderMetadata.ParserFindsLeftmostMatch | src/reminders/metadata.ts:28-37 | parsing returns the captures of the leftmost match, and nothing if and only if there is no match |
| ReminderMetadata.ProseKeepsItsMatches | src/reminders/metadata.ts:18-18 | no match can straddle prose and metadata line, although white space spans line feeds |
| ReminderMetadata.ComposedNotesParse | src/reminders/cli.ts:216-218 | prose, blank line and printed line parse to the prose's own first match if it has one, else to the metadata |
| ReminderMetadata.FormattedLineParsesExactlyWhen | src/reminders/metadata.ts:43-45 | the printed line parses back if and only if the repo is non-empty and free of white space |
| ReminderMetadata.AddedTodoParsesExactlyWhen | src/reminders/cli.ts:216-218 | what addTodo composes parses back to its metadata if and only if the repo is non-empty and free of white space and the prose alone parses to nothing else |
| ReminderMetadata.QuotedLineWins | src/reminders/cli.ts:216-218 | prose that is another todo's metadata line takes over |
| ReminderMetadata.WrittenOut | src/reminders/metadata.ts:43-45 | the printed line to the letter, for each phase |
| ReminderMetadata.NotesWrittenOut | src/reminders/cli.ts:216-218 | the line follows the prose after an empty line, or stands alone |
| Common.DecimalRoundTrip | src/reminders/metadata.ts:33-44 | printing and parsing a pid undo each other |
| Audit.JobsNeverInterleave | src/tmux/audit.ts:36-54 | at most one job is between its operations; a job about to rename has seen an oversized file; every archive was oversized |
| Audit.EveryLineIsKept | src/tmux/audit.ts:36-54 | whatever fails, archives in order and then the file are the initial text plus the lines of exactly the successful appends in call order, if archive names differ |
| Audit.RotationKeepsTextExactlyWhen | src/tmux/audit.ts:44-46 | a rotation keeps the recorded text if and only if no archive has its timestamp; otherwise more than the limit is lost |
| Audit.TextIsKeptExactlyWhen | src/tmux/audit.ts:36-54 | over a run from a fresh state the recorded text is kept at every moment if and only if no rotation uses the timestamp of an earlier archive |
| Audit.SettlesUnwrittenExactlyWhen | src/tmux/audit.ts:36-54 | over a run a job settles unwritten if and only if its mkdir or its appendFile failed, whatever stat and rename returned and whether or not the file existed; and written if and only if its appendFile succeeded |
| Audit.NoLineIsLost | src/tmux/audit.ts:36-54 | so if those never fail the recorded text ends in the lines of all settled calls, if archive names differ |
| Audit.SameStampLosesTheFirstArchive | src/tmux/audit.ts:44-46 | a run of two successful calls after which the first archive is gone |
| Audit.AppendsFindSmallFile | src/tmux/audit.ts:42-51 | unless rotation fails, every append finds a file within the limit |
| Audit.FileStaysBounded | src/tmux/audit.ts:42-51 | so a successful append leaves at most the limit and its own line |
| Audit.FailuresNeverBlock | src/tmux/audit.ts:37-53 | while a job is unsettled one can run, and whatever it returns there is less left to do |
| Audit.AuditLog.AppendAudit | src/tmux/audit.ts:36-55 | a call chains one job behind the others |
| Audit.AuditLog.Resume | src/tmux/audit.ts:38-52 | one file operation of the running job refines one step |
| PathLock.PrefixTestIsTreeOrder | src/sessions/lock.ts:54-54 | for a directory other than the root the prefix test with the separator is exactly "strictly above" |
| PathLock.FindGitRoot | src/sessions/lock.ts:25-44 | the walk ends and returns the specified root, or null if realpath fails |
| PathLock.GitRootIsNearest | src/sessions/lock.ts:25-44 | it is the nearest directory at or above that has a .git, and null if and only if there is none below the root |
| PathLock.GitRootBelow | src/sessions/lock.ts:55-58 | going down, the git root changes if and only if a directory on the way has its own .git |
| PathLock.DetectConflict | src/sessions/lock.ts:46-62 | the branches compute the specified answer, unresolvable paths included |
| PathLock.ConflictMeans | src/sessions/lock.ts:46-62 | two directories conflict if and only if they are equal, or one (not the root) is strictly above the other, unless the upper lies in a git root and some directory below it, down to the lower, has its own .git |
| PathLock.RootConflictsWithNothingBelow | src/sessions/lock.ts:53-61 | the root is above every directory and conflicts with none below it |
| PathLock.ConflictSymmetric | src/sessions/lock.ts:46-62 | the answer does not depend on the order of the arguments |
| PathLock.ConflictMap | src/sessions/snapshot.ts:181-192 | the nested loops find each session's first conflicting session |
| PathLock.FirstConflictMeans | src/sessions/snapshot.ts:181-192 | that is the first in list order, and none if and only if no other session conflicts |
| PathLock.MarksAreMutual | src/sessions/snapshot.ts:181-192 | with distinct pids a session is marked if and only if another conflicts, and whoever it is marked with is marked too |
| TmuxMap.FindPaneForPid | src/tmux/tmuxMap.ts:84-111 | the walk ends and returns the pane of the specified owner |
| TmuxMap.NearestOwnerIsNearest | src/tmux/tmuxMap.ts:95-110 | the owner is an ancestor-or-self above pid 1 that owns a pane, and nothing nearer does |
| TmuxMap.VisitedAllOrMany | src/tmux/tmuxMap.ts:98-109 | after n steps the walk has seen n different processes or all ancestors, cycles allowed |
| TmuxMap.WalkIsComplete | src/tmux/tmuxMap.ts:96-110 | with at most 50 ancestors above pid 1 the walk finds nothing if and only if none owns a pane |
| TmuxMap.WalkIsCompleteExactlyWhen | src/tmux/tmuxMap.ts:95-110 | whatever the panes, the walk misses no owner if and only if the process has at most 50 ancestors above pid 1 |
| TmuxMap.WalkIsCompleteByCount | src/tmux/tmuxMap.ts:95-110 | the same for a known set of ancestors |
| TmuxMap.WalkGivesUp | src/tmux/tmuxMap.ts:98-98 | a line of processes on which it misses an owner |
| TmuxMap.SnapshotPane | src/sessions/snapshot.ts:197-207 | above pid 1 the answer is the map's entry for the nearest owner among the listed rows; at or below it the direct hit only |
| TmuxMap.SnapshotFindsTheSameOwner | src/sessions/snapshot.ts:194-207 | for a pid above 1 the snapshot reports the entry of the owner the uncached walk finds |
| TmuxMap.SnapshotAgreesExactlyWhen | src/sessions/snapshot.ts:194-207 | snapshot and uncached walk agree on every process above pid 1, whatever ps says, if and only if every listed pane pid above 1 has the same first and last row |
| TmuxMap.DistinctRowsAgree | src/sessions/snapshot.ts:194-207 | as when no pane pid is listed twice |
| TmuxMap.PaneListedTwice | src/sessions/snapshot.ts:194-207 | one pid with two panes: the snapshot reports the last, the walk the first |
| Shutdown.DrainedExactlyWhen | src/http/server.ts:448-470 | drained if and only if nothing was in flight or the last original closed before the deadline with nothing else in flight; timed out if and only if the deadline passed without that |
| Shutdown.DrainTracksLog | src/http/server.ts:408-412 | the in-flight set is what the event log says: pending, or arrived and not closed since |
| Shutdown.WithoutArrivals | src/http/server.ts:431-480 | with no arrivals, drained means every response in flight at the start closed before the deadline |
| Shutdown.ArrivalHidesTheDrain | src/http/server.ts:464-468 | an arrival can hide a drain that was complete in time |
| Shutdown.SecondCallIsRightExactlyWhen | src/http/server.ts:438-441 | whatever happens next, the first call will not contradict a second one's claim of a drain if and only if the wait has already ended with a drain |
| Shutdown.SecondReportAgreesExactlyWhen | src/http/server.ts:438-479 | the two reports are equal if and only if the first call drained, ends with nothing in flight, and as many responses were in flight at the second call as at the first |
| Shutdown.HttpServer.GracefulClose | src/http/server.ts:435-452 | the first call starts the wait for what is in flight; a later one answers at once and changes nothing |
| Shutdown.HttpServer.ResponseCloses | src/http/server.ts:412-463 | the two close listeners of a response refine one step |
| Shutdown.HttpServer.Settle | src/http/server.ts:472-479 | by what happened since the first call: its report says drained if and only if nothing was in flight then or the last original closed before the deadline with nothing else in flight, connections are cut if and only if the deadline passed without that, and the two counts are those of the responses then and now in flight |
| Shutdown.WaitEndsExactlyWhen | src/http/ws.ts:341-368 | the wait ends if and only if the timer fired or no more clients are open than had close() throw |
| Shutdown.WaitIsForAllExactlyWhen | src/http/ws.ts:341-368 | it waits for all clients, whatever they do, if and only if no close() throws |
| Shutdown.ClosingClients.constructor | src/http/ws.ts:338-368 | the loop closes every client and counts each throw as done |
| Shutdown.ClosingClients.ClientCloses | src/http/ws.ts:343-346 | a close event refines one step of the countdown |
| Shutdown.ClosingClients.TimerFires | src/http/ws.ts:347-359 | the hard stop terminates exactly the clients still open |
| Shutdown.TerminatedExactlyWhen | src/http/ws.ts:347-359 | over a run a client is terminated if and only if it has not closed when the timer fires |
| Daemon.ShutsDownInOrder | src/http/index.ts:129-166 | WebSockets, then HTTP, then the store, once each however often close is called; the cached report stays true of drain, samples, responses and clients; a drained shutdown closes the store only after the last response it found in flight |
| Daemon.RepeatedCloseIsIdempotent | src/http/index.ts:132-142 | after completion every call gets the same report and changes nothing, whatever happens in between |
| Daemon.AnswerIsFinalExactlyWhen | src/http/index.ts:129-144 | once closing, the answer of a repeated call is the answer of every later one if and only if shutdown has completed |
| Daemon.DrainClaimHoldsExactlyWhen | src/http/index.ts:134-150 | shutdown cannot end undrained any more if and only if the drain has already ended well |
| Daemon.EarlyRepeatMisreports | src/http/index.ts:132-142 | a run in which a call during the drain claims a drained server and the final report denies it |
| Daemon.ReportCountsTheBooks | src/http/index.ts:112-165 | in every reachable state of the daemon rows = rows at open + samples counted - rows pruned, the counter is what ticks got accepted, and every answer of close() says that number |
| Daemon.FirstCallDecides | src/http/index.ts:129-149 | only the first call's arguments matter; the waits granted add up to its timeout, to the even millisecond, but never to less than 200, and so fit it if and only if it is at least 200 ms |
| Daemon.StartedDaemon.Close | src/http/index.ts:129-147 | the part up to the first await, with its answer |
| Daemon.StartedDaemon.AfterHttpClose | src/http/index.ts:148-165 | the store is closed and the report cached and returned |
| Daemon.StartedDaemon.RecordTick | src/http/index.ts:114-127 | a tick of a poller moves store and counter as the books say |
| Args.ParseArgs | src/cli/args.ts:23-97 | the index loop computes the specified parse |
| Args.ParseDoubleDash | src/cli/args.ts:43-53 | what follows the first -- is appended verbatim, and nothing before it notices |
| Args.DoubleDashSplits | src/cli/args.ts:40-94 | the same from any state of the loop |
| Args.PrintedArgsParse | src/cli/args.ts:23-97 | words and flags of every form (--key=value, --key value, --key, -kvalue, -k value, -k), then --, then words parse back to the same words and, per key, the same values in order |
| Args.ItemsOf | src/cli/args.ts:40-94 | every command line without -- is such a line, so this says what each of them parses to |

## Left out

- HTTP routing, method and host checks, port scan, MCP dispatch, tool handlers, CLI commands, table rendering, `sendKeys`, `capturePane`, provider discovery: plumbing that one case settles.
- `deriveRefinedStatus` and `suggestNext`: flat decision tables. Only the five statuses are kept.
- The two second cache in src/sessions/refinedStatus.ts: a tick takes any map at all, so what the cache may return is covered.
- SQLite, the file system, `ps`, `tmux`, `git`, sockets and timers themselves: a table is a row sequence, a call that may fail is a position at which it fails, a timer is an event that may happen at any point.
- Timeseries.TimeseriesStore.LatestPerPid and Timeseries.TimeseriesStore.RowCount: after `close` the database would throw; the model still answers.
- UTF-8 decoding and JSON: lines are byte sequences and `parse` is any function; the theorems that need it assume that a line cut at its front does not parse. A transcript that changes while it is read and a short read are not modelled.
- Identifiers: reminder ids and tool-use ids are numbers standing for distinct strings; only equality of them is used.
- JavaScript strings as UTF-16: `Less` compares Dafny characters, which agrees with `Array.prototype.sort` below the surrogate range.
- Numbers beyond 2^53: integers are unbounded in the model, so `parseInt` of a longer pid, and counters that large, are exact here and rounded there.
- Prototype names as flags (`--constructor=x`): the flag map is a map, without inherited keys.
- HELP texts: the body theorem holds for any one-line texts, so the five fixed sentences are parameters.
- Callbacks that subscribe or unsubscribe while `emit` iterates, and an `onError` sink that throws.
- Several `attachWebSocket` instances in one process: they would share the reminder loop's module variables.
- `appendFile` that writes part of a line before it fails, and other writers of the audit directory.
- Processes that change parent, and directories that move, while a question is being answered.
- `countCompactions`, `sumTokens`, `countTurns`, `getStopReason`, `composeSnapshot`: single passes that would only add easy members.
- Broadcast.SubscriptionReceivesItsSlice: states one subscription; several are chained by `ReceivedWhileSubscribed` and `NothingWhileUnsubscribed`.
- SessionDiff.StreamMirrorsNewestPoller: assumes no late tick of an older poller; with late ticks the exact conditions are `StreamIsFaithfulExactlyWhen` for the mirror and `StreamIsWellReportedExactlyWhen` for the `previous` field.
- Timeseries.RetentionNeverChangesTheAnswer: assumes timestamps that advance per pid, which the code does not enforce; the exact condition on the rows is `RetentionAnswersExactlyWhen`, on the clock of the ticks `RowsAdvanceExactlyWhen`.
- Clients.ConnectedClientShowsSessions: gives one direction at the end of a run; both directions, at every moment, are `LateClientShowsExactly`.
- PolledTable.PolledTableAnswersLastWritten: gives one direction; the exact condition on the rows is `RetentionAnswersExactlyWhen`.
- Daemon.StartedDaemon.AfterHttpClose: total elapsed time is whatever the clock says; no bound on it is claimed, since the servers' own close callbacks have no deadline.
