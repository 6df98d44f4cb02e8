# File watcher: change detection and subscriber fan-out

This project models the core of a small Go program that polls a directory
tree and streams "File created / modified / deleted" notifications to every
browser connected over Server-Sent Events. The core is the `Watcher` of
`main.go`: its map from path to last-seen modification time, its slice of
subscriber channels, the scan `checkForChanges`, the broadcast
`notifyClients`, the polling loop `StartWatching`, and the registration and
removal of a channel in `HandleSSEConnection`.

Modules:

- `Wrappers` (`wrappers.dfy`): the `Option` type.
- `Events` (`events.dfy`): the three change events, the text sent for each
  (as the source writes it and as it is evidently meant), and a reference
  reader `Parse` that recovers an event from its text.
- `Scanner` (`scanner.dfy`): one scan as pure functions of the tracked map
  and of what the filesystem reports. The walk is an input sequence of
  visits, each either an entry (path, directory flag, modification time) or
  an error; the existence check of the deletion pass is a second input, the
  set of paths for which `os.Stat` does not report "does not exist".
  `Scan` is the reference definition of a whole call of `checkForChanges`.
- `Registry` (`registry.dfy`): the order-keeping removal of the first
  occurrence of a channel from the subscriber slice.
- `FileWatcher` (`watcher.dfy`): the `Watcher` class, whose methods update
  the map and the slice in place, and a `Client` class for one channel, whose
  outbox is the sequence of messages sent on it. The methods are proved
  against the `Scanner` and `Registry` functions. A ghost history `sent` of
  everything broadcast, with each channel's join point, gives the class
  invariant `Valid`: each registered channel has received exactly the
  messages broadcast since it joined.

Three behaviours of `main.go` shape the model:

- A walk error does not undo the scan: the entries the walk handed to the
  callback before the error are processed (events sent, map updated), the
  entries after it are not, the deletion pass still runs, and the error is
  returned.
- Deletion is decided by `os.Stat`, not by absence from the walk. A tracked
  file replaced by a directory of the same name therefore stays tracked at
  its old time and is not reported while the directory stands; once the
  directory is gone too, `os.Stat` fails and a Deleted is sent.
- The registry is not locked, the channels are unbuffered and there is no
  overflow policy; see "Left out".

## Model

| member | source | states |
|---|---|---|
| Events.ParseMessage | main.go:47-60 | every intended notification text reads back as the event it announces (round trip with the reference reader) |
| Events.MessageInjective | main.go:47-60 | two different events never produce the same notification text |
| Events.AsWrittenLosesPath | main.go:47 | the created text as formatted in the source reads back as a file named "&s%!(EXTRA string=<path>)", never as the created path |
| Events.AsWrittenModifiedLosesPath | main.go:49 | the same loss of the path for the modified text |
| Events.AsWrittenDeletedIsIntended | main.go:60 | the deleted text, formatted with %s, is the intended text and reads back as the deleted path |
| Scanner.WalkStopsAtFirstFailure | main.go:38-41 | the callback handles exactly the visits before the first error; the walk returns that error, and returns one iff some visit failed |
| Scanner.WalkMapOverrides | main.go:43-53 | after the walk the map is the old map overridden by every visited non-directory entry at its latest time; nothing else is added or changed |
| Scanner.FilesAt | main.go:44-52 | with each path visited once, a visited non-directory entry is recorded at the time the walk reported for it, whether or not an event was sent |
| Scanner.EventsOfEntry | main.go:43-53 | the events of a walk about one visited path are those its entry alone yields against the map of the previous scan: one Created if untracked, one Modified if strictly later, none otherwise and none for a directory |
| Scanner.WalkEventsAgainstStart | main.go:38-56 | since the walk visits each path once, the in-place updates never change a later verdict: every entry is judged against the previous scan's map |
| Scanner.DirectoriesIgnored | main.go:43 | directories neither produce events nor touch the map: the walk behaves as if it saw only the non-directory entries |
| Scanner.WalkEventsAreFileChanges | main.go:43-50 | the walk only emits Created and Modified events, and only for non-directory entries it visited |
| Scanner.StopsAtFailure | main.go:37-65 | with an error at visit k, the entries before k are processed, anything after k makes no difference, the error is returned, and every tracked path that no longer exists is still removed and reported |
| Scanner.UnseenPathIsSilent | main.go:37-66 | a file created and deleted between two scans, never visited, yields no event and is not tracked afterwards |
| Scanner.CleanScanTracksDisk | main.go:37-66 | after a scan that saw exactly the existing paths, the map holds every non-directory entry on disk at its current time, plus only tracked paths that now name a directory |
| Scanner.RescanIsQuiet | main.go:37-66 | scanning an unchanged tree a second time emits nothing, removes nothing and leaves the map as it was |
| Scanner.CreateModifyDelete | main.go:37-66 | create, touch and delete one file: the three scans report Created, Modified and Deleted, and the file is no longer tracked at the end |
| Scanner.FileReplacedByDirectoryStaysTracked | main.go:43-62 | a tracked file replaced by a directory of the same name stays tracked at its old time and yields no event |
| Registry.RemoveFirst | main.go:80-85 | removing a channel that is not registered leaves the slice as it is; removing one that is shortens it by one |
| Registry.RemoveFirstMultiset | main.go:80-85 | exactly one copy of the channel is removed and no other channel |
| Registry.RemoveFirstIsSplice | main.go:80-84 | the removal is the splice at the first matching index: the channels before and after it keep their order |
| Registry.SpliceKeepsDistinct | main.go:75-85 | cutting a channel out of a slice without duplicates leaves no trace of it and no duplicates |
| Registry.RemoveFirstUndoesAppend | main.go:75-85 | registering a new channel and then removing it restores the slice |
| FileWatcher.ErrorLog | main.go:25-31 | the polling loop logs at most one error per round |
| FileWatcher.ErrorLogConcat | main.go:25-31 | the log of a run of rounds is the log of its first part followed by the log of the rest |
| FileWatcher.ErrorLogSingle | main.go:29-31 | one round logs exactly the error its scan returns, and nothing when the scan returns none |
| FileWatcher.ErrorLogEmpty | main.go:25-31 | the log is empty iff no round's walk failed |
| FileWatcher.UnchangedTreeSettles | main.go:25-35 | polling an unchanged tree any number of rounds leaves the map as the first round made it |
| FileWatcher.SettledStays | main.go:25-35 | once the map reflects an unchanged tree, further rounds keep it |
| FileWatcher.SettledIsSilent | main.go:25-35 | after a round over a tree whose walk fails nowhere, visits each path once and finds exactly the paths os.Stat finds, further rounds over the same tree send nothing and log nothing, whatever order their deletion passes use |
| Events.MessagesExtend | main.go:68-72 | a history that grew by the messages of one batch of events and then another holds the messages of both batches, in order |
| FileWatcher.Client.constructor | main.go:75 | a new channel has had nothing sent on it |
| FileWatcher.Watcher.constructor | main.go:17-23 | NewWatcher: the given directory, an empty map and no subscribers |
| FileWatcher.Watcher.NotifyClients | main.go:68-72 | the message is appended to the outbox of every registered channel, in registry order, and to nothing else; the invariant is kept |
| FileWatcher.Watcher.FanOut | main.go:68-72 | between two valid states with the same registry, every registered channel has received exactly the messages broadcast in between, so all receive the same stream |
| FileWatcher.Watcher.HandleEntry | main.go:43-53 | the callback for one entry updates the map and sends the events of that entry, as the reference functions say |
| FileWatcher.Watcher.VisitAll | main.go:38-56 | the walk leaves the map and the sent events as the reference walk says, and returns the first error |
| FileWatcher.Watcher.RemoveVanished | main.go:58-63 | the deletion pass keeps exactly the tracked paths that still exist, with their times, and sends one Deleted for each removed path, each once |
| FileWatcher.Watcher.CheckForChanges | main.go:37-66 | one scan: the new map, the returned error and the removed paths are those of the reference scan, and every registered channel receives the scan's events followed by one Deleted per removed path |
| FileWatcher.Watcher.StartWatching | main.go:25-35 | a number of polling rounds: the map is the result of scanning round after round, the log holds each round's error in order, each round's ghost list of removed paths enumerates that round's removals exactly once, and every registered channel receives, round by round, that round's walk events followed by one Deleted per removed path |
| FileWatcher.Watcher.Subscribe | main.go:75-76 | a new channel with an empty outbox is appended at the end of the registry |
| FileWatcher.Watcher.FindClient | main.go:80-81 | finds the first index of the channel in the registry, or reports that it is not registered |
| FileWatcher.Watcher.Unsubscribe | main.go:78-85 | the registry loses the first occurrence of the channel and keeps the order of the others; the invariant is kept |

## Left out

- FileWatcher.Watcher.StartWatching: runs a given, finite sequence of rounds instead of looping forever; the two-second `time.Sleep` between rounds is not modelled and the logged error is a value, not console text.
- FileWatcher.Watcher.CheckForChanges: the order in which the deletion pass visits the map (Go's map iteration order) is not fixed; the model returns the order it used as a ghost sequence and proves it lists each removed path exactly once.
- The filesystem is an input: `filepath.Walk` becomes the sequence of visits it reports, in its order, and `os.Stat` becomes the set of paths it still finds. A Stat error other than "does not exist" counts as found, as in the source.
- `time.Time` is an integer; only its order is used (`After` is `>`).
- Channels are outboxes: a send never blocks and is never lost. Goroutines, the unsynchronised access of the polling goroutine and the HTTP handlers to the map and the slice, and any interleaving of operations are not modelled; each method is one atomic step.
- `close(clientChan)` in the deferred cleanup of `HandleSSEConnection` is not modelled; the channel is only removed from the registry.
- FileWatcher.Watcher.Unsubscribe: models the removal itself, not when it happens. In `main.go` the cleanup is deferred until the handler returns, which happens only when the range loop over the channel ends, and only the cleanup closes the channel; when a browser disconnects, nothing in the handler notices, so the channel stays registered. The model leaves the moment of the call to its caller.
- FileWatcher.Watcher.HandleEntry: the outboxes receive `Events.Message`, the intended text with the path, not `Events.AsWritten`, the text `main.go` formats with "&s"; the discrepancy is kept in "Findings".
- FileWatcher.Watcher.VisitAll: for the same reason its Created and Modified messages are the intended text, not the text `main.go` prints.
- FileWatcher.Watcher.CheckForChanges: for the same reason its Created and Modified messages are the intended text; the Deleted text is the one `main.go` prints.
- FileWatcher.Watcher.StartWatching: for the same reason every round's Created and Modified messages are the intended text.
- Scanner: every non-directory entry the walk reports is tracked, as `main.go` tests only `IsDir` on the walk's Lstat information, so symbolic links, sockets and devices are tracked like files.
- The SSE response (headers, `data:` framing, `Flush`), the read loop of `HandleSSEConnection`, `ServeHTML` and `main` (route set-up, `ListenAndServe`) are HTTP plumbing outside the core.
- Events.Parse is a reference reader for the notification text; the source has no reader (the browser page only displays the text).

## Findings

| source | as written | input that shows it | evidently intended | confidence | as-written member | corrected member |
|---|---|---|---|---|---|---|
| main.go:47 | the created message is formatted with the verb "&s", so Go prints "File created: &s%!(EXTRA string=<path>)" | any new file, e.g. path "d/x.txt" | "File created: d/x.txt" (verb "%s") | high; not executed | Events.AsWrittenLosesPath | Events.ParseMessage |
| main.go:49 | the modified message is formatted with the verb "&s", so Go prints "File modified: &s%!(EXTRA string=<path>)" | any file whose time advances, e.g. path "d/x.txt" | "File modified: d/x.txt" (verb "%s") | high; not executed | Events.AsWrittenModifiedLosesPath | Events.ParseMessage |
