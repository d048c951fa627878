# Sap record pipeline: model and proofs

Sap's spans emit lifecycle records; a hub fans them out to subscribers; a store
rebuilds the span forest from them; a web server and a terminal viewer keep
derived views of that forest. This project models that pipeline and states what
its parts promise each other.

How it is laid out:

- `Records`, `Attributes`, `Connection`, `Subsequence`, `Lines`: the record
  schema, attribute lists, connection states, and two small theories (subsequences,
  line scanning).
- `Forest`, `Locate`, `Pruning`, `StoreSpec`: the span forest as a value, and
  every store operation as a function on it. `Store` (module `StoreModel`) is the
  store itself: linked nodes, an index by id and stale marks, all updated in place,
  each method proved to have the effect of its function.
  `StoreEffects` says what those operations come to for each span, read off the records.
- `Timeline`, `SpanTimeline`, `TimelineOrder`: the chronological merge of a span's events
  and children, its stable sort, and what that is entry by entry.
- `WebView`, `Patching`, `WebServerSpec`, `WebMisses`, `WebServer`: cards addressed by
  span id, the patches, the browser as what applies them, the server as a state
  machine, runs in which an append is wrong, and the server in place with its
  subscribers' bounded queues. `WebRows` and `WebCards` say what the page shows of every
  span after any run, and what is sent for a record.
- `TuiRender`, `TuiSpec`, `TuiExact`, `TuiFresh`, `TuiPictures`, `TuiMissed`, `Tui`:
  drawing with and without the cache of closed trees, the viewer as a state machine,
  when exactly the cache stays right, when exactly the screen is right for any cache
  and in any run, what goes wrong, and the viewer in place. `TuiRows` and `TuiScreen` say
  what a drawing shows and when the screen is up to date. `Viewers` relates the two
  viewers: they track the same and show the same.
- `HubSpec`, `Streams`: the hub as a step relation in which publishers, subscribers,
  cancellations and the closer interleave at every lock and channel operation.
  `Hub` (module `HubModel`) is the hub in place, each method a run of those steps.
- `EmitterSpec`, `EmitterProof`, `RoundTrip`, `Confluence`: spans on top of the hub,
  with their mutexes, and what a subscriber can rebuild. `Span` (module `SpanModel`)
  is a span in place, each method an operation of the emitter and then steps of the hub.
- `WebFrames`, `RecordFrames`, `SseClient`: the two event-stream framings with
  their readers, and the reconnecting client.

Conventions: time is an integer count of nanoseconds since the Unix epoch, with
Go's zero time as the constant `ZERO_TIME`; a record's optional strings are "" when
absent. In the event streams (`Lines`, `WebFrames`, `RecordFrames`) a `char` is a
byte, so the limits count bytes. `allow` is the store's `AllowUnknownParents` option.
A hub publication has a *ticket*, its place in the order in which publishers got the
read lock.

Where the code and its comments, or what one might expect of it, differ, the model
follows the code:

- `state/timeline.go:18-20` says that entries without a timestamp sort last. A record
  without one reaches the store as a nil pointer inside a non-nil interface
  (`state/state.go:319-324`), so it becomes the epoch and sorts by it; only the
  zero time itself sorts last.
- An append patch is sent again for a record the store ignored
  (`viewer/sap-web/server.go:316-321`, `334-340`), and for one whose entry does not
  belong last. `Patching.Sound` is the exact condition under which a patch is right, and
  `WebMisses` has a run for each of the two ways to miss it.
- A child may start under a span that has ended (`state/state.go:260-265`). While it
  is open it is drawn, since open trees bypass the terminal viewer's cache; once it
  has ended too, the cache shows the old picture wherever it kept one.
  `TuiFresh.FreshScreen` says exactly when, for any cache whatever;
  `TuiPictures.PaintExactly` says it for every paint of every run with no id tracked
  twice and no end at the zero time, in terms of the spans missing from the kept
  pictures; and `TuiMissed.CacheIsVisible` says that it happens.
- A closed span that ended at the zero time is drawn as if it were still running
  (`viewer/sap-tui/render.go:204-215`), but the spinner's tick redraws only while a span is
  open (`viewer/sap-tui/tui.go:181-188`). `TuiScreen.ScreenExactly` and
  `TuiScreen.ScreenLate` say when the screen may be late for that reason.
- An error from closing a response body is never reported (`transport/sapsse/client.go:74-78`):
  by then there always is another one (`SseClient.Failure`).
- Publications of different spans that overlap may reach two subscribers in
  different orders (`HubSpec.OrdersDiffer`, `HubSpec.EitherOrder`).

## Model

| member | source | states |
|---|---|---|
| StoreSpec.RunKeepsValid | state/state.go:66-92 | After any sequence of records (self-parents, unknown parents, repeated ids, ids reused after eviction), markings, prunings and limits, under either parent policy: ids are non-empty and distinct, every child names its parent, only tracked spans are marked stale |
| StoreSpec.ApplyIds | state/state.go:239-266 | A record adds exactly the id of an accepted start to what is tracked, and removes nothing |
| StoreSpec.StepStays | state/state.go:239-317 | Across any one operation a span that stays tracked keeps its chain of ancestors, hence its depth; once ended its own record (attributes, events, terminal fields) never changes |
| StoreSpec.RunStays | state/state.go:239-317 | The same across whole runs throughout which the span stays tracked |
| StoreSpec.ClearOpenExact | state/state.go:180-209 | Clearing keeps exactly the spans that have ended together with all their ancestors, below the same ancestors and in the same relative order; stale marks of the rest go; nothing open is left; doing it again changes nothing |
| StoreEffects.StartExactly | state/state.go:239-266 | A start makes its span tracked, as it announces itself, as the last child of its parent or the last root, and leaves every other path alone; it changes nothing if it names no span, a tracked one or, where unknown parents are not allowed, a parent that is not tracked |
| StoreEffects.StartTracked | state/state.go:239-266 | After a start its span is tracked if and only if it was before, or the id is not empty and unknown parents are allowed, no parent is named, or the parent is tracked |
| StoreEffects.RootsNameNoParent | state/state.go:249-265 | Where unknown parents are not allowed, no run of operations ever leaves a root that names a parent |
| StoreEffects.RecordExactly | state/state.go:268-317 | Any other record leaves every span where it is, and changes what is known of its own span alone, if that is tracked and has not ended: merged attributes, the event at its end, or how and when it ended, with the epoch for a missing time and the default for a missing severity |
| StoreEffects.HasOpenExactly | state/state.go:124-146 | There is an open span exactly if the search finds one that has not ended |
| StoreEffects.MarkExactly | state/state.go:151-169 | Marking at a time: a span is marked afterwards if and only if it was or is tracked and open; marks that were there keep their time and new ones have the given one |
| StoreEffects.MarksExactly | state/state.go:151-169 | Over any run that keeps a span tracked, a mark is never lost or moved; an unmarked span is marked exactly if some marking finds it open, with the time of the first that does |
| StoreEffects.LimitExactly | state/state.go:213-226 | Limiting leaves exactly the last roots, everything below them found as before, and the marks of what is left unchanged |
| Pruning.PruneExact | state/state.go:193-209 | An id survives pruning if and only if its span and every ancestor have ended, and then on the same path |
| Pruning.PruneOrder | state/state.go:180-209 | The survivors, in depth-first order, are the old depth-first order with the others left out |
| Pruning.PruneCloses | state/state.go:124-146 | After pruning no span is open anywhere |
| Attributes.MergeOverrides | state/state.go:268-292 | An update overrides an ordered map under first-match lookup: last effective write per non-empty key wins, other keys keep their attribute, old keys keep their positions and new ones follow in order of appearance |
| Attributes.MergeSequence | state/state.go:268-292 | A sequence of updates is one update with all that they deliver, so the same holds of any number of them |
| Attributes.CloneAttributes | state/state.go:326-338 | Copying drops exactly the nil attributes and keeps the order |
| Locate.FindFinds | state/state.go:96-121 | The depth-first search succeeds exactly on tracked ids and finds the span with that id |
| Locate.FindAfterEdit | state/state.go:108-121 | After an edit anywhere, every span is found where it was, edited only if it was the target |
| StoreModel.Store.constructor | state/state.go:52-63 | A new store is the empty forest, its heap invariant established |
| StoreModel.Store.Apply | state/state.go:66-80 | On heap nodes: keeps the invariant that the nodes form an unshared acyclic forest whose ids the index maps to their own nodes, and has exactly the effect of the record on the abstract forest |
| StoreModel.Store.ApplyStarted | state/state.go:239-266 | Links a new node under its parent, or among the roots, or ignores the start, in place |
| StoreModel.Store.ApplyUpdated | state/state.go:268-292 | Merges attributes into the indexed node in place, unless it has ended or is unknown |
| StoreModel.Store.ApplyEnded | state/state.go:294-306 | Ends the indexed node in place, at most once |
| StoreModel.Store.ApplyEvent | state/state.go:308-317 | Appends the event to the indexed node in place, unless it has ended or is unknown |
| StoreModel.Store.FindSpan | state/state.go:96-106 | The search over the nodes returns the very node the index has for the id, with its depth in the tree; nil exactly when the id is untracked |
| StoreModel.Store.HasOpenSpans | state/state.go:124-131 | True exactly if some tracked span has not ended |
| StoreModel.Store.MarkOpenSpansStale | state/state.go:151-169 | Marks exactly the open spans; a span marked before keeps its first mark |
| StoreModel.Store.ClearOpenSpans | state/state.go:180-191 | In place, with index and stale marks updated on the way down, does what ClearOpenExact describes |
| StoreModel.Store.LimitRoots | state/state.go:213-226 | Keeps the last roots up to the limit with their subtrees; every other id leaves the index and the stale marks |
| StoreModel.Store.DeleteSpan | state/state.go:228-237 | Removes exactly the ids of a span's subtree from the index and from the stale marks |
| StoreModel.Store.Clear | state/state.go:88-92 | Leaves the empty forest |
| Timeline.TimelineStable | state/timeline.go:21-51 | The timeline lists every event and child exactly once, strictly increasing in (untimed, time, insertion index) |
| Timeline.IncreasingUnique | state/timeline.go:38-49 | No other list has these entries in that order |
| Timeline.EventLastExact | state/timeline.go:21-51 | A new event comes last if and only if no event is later and every child strictly sooner, and then the rest of the timeline is as it was |
| Timeline.ChildLastExact | state/timeline.go:21-51 | A new child comes last if and only if nothing is later |
| Timeline.SortStableFunc | state/timeline.go:38-49 | Sorting in place with the source's comparator yields the stable order |
| Timeline.TimelineItems | state/timeline.go:21-51 | Collecting events, then children, and sorting yields the timeline the lemmas describe |
| TimelineOrder.OrderExactly | state/timeline.go:21-51 | A span's timeline has exactly one entry for each event and each child, with that event's or child's time, in order of time: the zero time last, equal times in order of insertion, events first |
| Patching.PatchRefines | viewer/sap-web/server.go:187-211 | For every valid store and every record, accepted or not, that leaves the root ids alone: applying the chosen patch to the page of the old store gives the page of the new one if and only if the patch is not an append, or the record was accepted and its entry belongs at the end |
| Patching.AppendFindsList | viewer/sap-web/server.go:298-354 | An append, right or wrong, is only sent for a span that was tracked before with an entry in its timeline, so the list it targets exists |
| WebView.PatchForest | viewer/sap-web/components.templ:484-625 | A patch addressed to a span changes a rendered forest exactly as the edit changes the span's card, and no other card |
| WebRows.TimelineExactly | viewer/sap-web/components.templ:593-662 | A card's timeline has one item for each timeline entry, in order: the event itself with its span, place and offset (none if either time is zero, otherwise the time since the start, never negative), or the card of that child, one deeper |
| WebRows.PageShowsEvents | viewer/sap-web/components.templ:467-662 | The page shows every event of every tracked span, each exactly once |
| WebCards.ShownExactly | viewer/sap-web/components.templ:467-524 | A span has a card on the page exactly while it is tracked, found by its id, at the depth the search gives |
| WebCards.StoreFollows | viewer/sap-web/server.go:187-247 | In every run the server's store is what a run of the store's own operations builds, read off the messages, and the server is paused after an odd number of pauses |
| WebCards.StatusExactly | viewer/sap-web/server.go:267-284 | After any run the status bar shows as many roots as the page has root cards, the connection last reported (without an error if connected) and whether the pauses leave the server paused |
| WebCards.StartShown | viewer/sap-web/render.go:113-152 | After any run, a card that a message adds is that of a start: named and timed as announced, running, with no entry and no error |
| WebCards.CardStays | viewer/sap-web/render.go:113-165 | While a span is shown, each message does to its card what is told of it and nothing else: losing the connection makes a running span stale and stops its timer at that moment, its first end says how it ended and stops the timer there, an update merges its attributes, and the depth stays |
| WebCards.LossShown | viewer/sap-web/server.go:213-228 | After any run and a loss of the connection, no card says running, and the card of every tracked open span says stale |
| WebCards.LossMarks | viewer/sap-web/server.go:221-224 | After any run, a loss marks exactly the open spans that are not marked, at its time; marks from an earlier loss keep their time |
| WebCards.EndShown | viewer/sap-web/render.go:113-127 | After any run in which the server is not paused, the end of an open span makes its card say failed, with the error, if the record carries one, and complete otherwise |
| WebCards.CardOverRun | viewer/sap-web/render.go:113-127 | As long as it is shown, a running span's card says running until the first loss or the first end that reaches it, stale after a loss, and from its first end on how that ended |
| WebCards.RecordSent | viewer/sap-web/server.go:187-211 | For every record taken exactly one snapshot is sent, with the present status: a patch if the root ids stayed and the card concerned is on the page, carrying that card's attributes, summary, timeline or newest item, by the kind of record; otherwise the full page |
| WebServerSpec.SentRefines | viewer/sap-web/server.go:187-265 | For every handled message, what is sent turns a page showing the old state into one showing the new state if and only if any append in it is right |
| WebServerSpec.Converges | viewer/sap-web/server.go:164-284 | Over any run of records, connection changes, pauses and clears in which every append is right, a subscriber from any moment on that gets everything ends up showing a full rendering of the current state, stale marks included |
| WebServerSpec.LastAcceptedRoots | viewer/sap-web/server.go:187-211 | Absent pause and clear, the roots are exactly the last accepted ones up to the limit, in order |
| WebServerSpec.RootsInOrder | viewer/sap-web/server.go:187-247 | In every run the roots are in the order they were accepted |
| WebServerSpec.RunInvariant | viewer/sap-web/server.go:187-247 | In every run the root count respects the limit, and while paused nothing tracked is open |
| WebServer.Subscriber.Offer | viewer/sap-web/server.go:249-265 | With the consumer receiving between any two attempts: the broadcast never blocks, the newest snapshot ends up last, the queue is a suffix of what was ever sent and at most 8 long, and something is dropped only if the queue was full |
| WebServer.Server.ApplyRecord | viewer/sap-web/server.go:187-211 | Takes a record in place, chooses between full rendering and patch, and sends it to every subscriber; a subscriber's history amounts to the current page exactly as before, made right by a full rendering and wrong only by a wrong append |
| WebServer.Server.Serve | viewer/sap-web/server.go:43-64 | The server's whole run in place: every subscriber is sent the history of the run, and one whose appends since its last full rendering were right and whose queue never overflowed has, received and queued, what shows the state the run ends in |
| WebServerSpec.ExactSince | viewer/sap-web/server.go:187-265 | A subscriber that is up to date at some message and gets only right appends from then on stays so |
| WebMisses.LateEventMisplaced | viewer/sap-web/server.go:334-340 | There is a run in which every append was right until an event earlier than one its span already has is appended last |
| WebMisses.RepeatedStartDoubled | viewer/sap-web/server.go:316-321 | There is a run in which every append was right until the start of a tracked child is repeated: the store ignores it, and the child is appended again |
| WebServer.Server.RecordPatch | viewer/sap-web/server.go:298-354 | The patch computed from the nodes is the one the patch theorem is about |
| WebServer.ChildSpanByID | viewer/sap-web/server.go:356-366 | Finds the child with the id and its position, or nothing if there is none |
| WebServer.Server.SetConnectionState | viewer/sap-web/server.go:213-228 | Records the connection, marks open spans stale when it is lost, and keeps every subscriber's page right, or makes it so by a full rendering |
| WebServer.Server.TogglePaused | viewer/sap-web/server.go:230-240 | Pausing clears the open spans; the full rendering sent makes every subscriber's page right, whatever it was sent before |
| WebServer.Server.Clear | viewer/sap-web/server.go:242-247 | Empties the store; the full rendering sent makes every subscriber's page right, whatever it was sent before |
| WebServer.Server.Subscribe | viewer/sap-web/server.go:164-179 | A new subscriber's queue starts with a full rendering |
| WebServer.Server.Unsubscribe | viewer/sap-web/server.go:172-178 | Cancelling closes the queue and takes it off the list, once; what is buffered stays, and a second call changes nothing |
| WebServer.Server.Drained | viewer/sap-web/server.go:249-265 | A subscriber that drained a queue nothing was dropped from shows, if every append was right, a full rendering of the current state |
| TuiRender.CachedAgrees | viewer/sap-tui/render.go:80-131 | Drawing a span through a coherent cache gives what drawing without it gives, and leaves the cache coherent |
| TuiRender.RootsAgree | viewer/sap-tui/render.go:69-78 | The same for the whole screen |
| TuiRender.ClosedStable | viewer/sap-tui/render.go:137-160 | A closed tree with known end times draws the same whatever the spinner, the clock and the stale marks |
| TuiRender.GroupFlattens | viewer/sap-tui/render.go:108-124 | The grouping of event runs flattens back to exactly the timeline rows |
| TuiRender.GroupMaximal | viewer/sap-tui/render.go:108-124 | No run is empty and no two runs touch |
| TuiRows.RowsExactly | viewer/sap-tui/render.go:80-131 | Laid out flat, a drawn span has one row for each timeline entry, in order: the event itself with its offset, or the drawing of that child, one deeper and four narrower but not below 24 |
| TuiRows.OwnEventsDrawn | viewer/sap-tui/render.go:108-124 | The event rows of a drawn span are its events, each exactly once |
| TuiRows.ScreenEvents | viewer/sap-tui/render.go:69-78 | The screen shows every event of every span, at any depth, each exactly once |
| TuiRows.TimingExactly | viewer/sap-tui/render.go:204-226 | A span with a start shows how long it took, was followed or has been running, in whole milliseconds, never negative; one without shows nothing |
| TuiSpec.CacheIsInvisible | viewer/sap-tui/tui.go:139-272 | In every run in which no start is accepted under an ended parent, no id is tracked twice and no end is at the zero time, the viewer with the cache shows at every moment what the one without it shows |
| TuiSpec.RunInvariant | viewer/sap-tui/tui.go:157-261 | In every run at most 25 roots, and while paused nothing tracked is open |
| TuiScreen.ScreenExactly | viewer/sap-tui/tui.go:139-243 | In every run without the cache, whenever no repaint is pending the screen shows all roots as they are, marks included; with the present clock and spinner too, if something is open or the timings of all closed spans are known |
| TuiScreen.ScreenLate | viewer/sap-tui/tui.go:181-188 | In every other state, some next tick leaves the screen late: closed spans that ended at the zero time go on counting, and nothing redraws them |
| TuiScreen.ScreenUpToDate | viewer/sap-tui/tui.go:139-243 | So in every run in which no span ends at the zero time, the screen is exactly the drawing of the present state whenever no repaint is pending |
| TuiScreen.CachedUpToDate | viewer/sap-tui/tui.go:139-272 | The same of the viewer with the cache, in every run that meets the condition of CacheIsInvisible |
| TuiScreen.Repaired | viewer/sap-tui/tui.go:139-173 | In every run whatever, clearing, pausing and a new width bring the screen of the viewer with the cache up to date |
| TuiScreen.FieldsExactly | viewer/sap-tui/tui.go:139-243 | After any run a repaint is pending exactly if a record was taken since the last one, and the view sticks to the bottom exactly if one of those came while it was there; pause, readiness, width, connection, clock and spinner are what the messages last said |
| TuiExact.ClosedStableExactly | viewer/sap-tui/render.go:149-226 | A closed tree draws the same in all environments if and only if none of its timed spans ended at the zero time |
| TuiExact.StartCoherentExactly | viewer/sap-tui/render.go:63-131 | An accepted start keeps the cache's invariant (every entry is what its span looks like) if and only if no cached span is the one that starts or is at or above its parent |
| TuiExact.SteadyIsInvisible | viewer/sap-tui/tui.go:139-272 | The same as CacheIsInvisible under a weaker condition: every accepted start touches no cached span, and no end is at the zero time |
| TuiExact.DisciplinedSteady | viewer/sap-tui/tui.go:139-272 | A message that meets the condition of CacheIsInvisible meets the weaker one, in a viewer whose cache is right |
| TuiExact.DisciplinedRunSteady | viewer/sap-tui/tui.go:139-272 | So every run that meets the condition of CacheIsInvisible meets the weaker one |
| TuiFresh.FreshExactly | viewer/sap-tui/render.go:80-131 | Whatever the cache holds, a tree is drawn through it as it is drawn without it if and only if every entry that drawing it reaches shows what is there |
| TuiFresh.FreshScreen | viewer/sap-tui/render.go:69-131 | The same for the whole screen |
| TuiPictures.KeptExactly | viewer/sap-tui/render.go:69-131 | Let each entry be a picture of a closed tree that has only gained children since: the screen is right if and only if each picture that the drawing reaches has all the spans there are now; no drawing is compared |
| TuiPictures.RunPictures | viewer/sap-tui/tui.go:139-272 | In every run with no id tracked twice and no end at the zero time, whatever starts below ended spans, the cache holds such pictures only |
| TuiPictures.PaintExactly | viewer/sap-tui/tui.go:267-272 | So at every paint of every such run, the viewer shows what the one without a cache shows if and only if no span is missing from a picture that the drawing reaches |
| TuiPictures.PicturesUnique | viewer/sap-tui/render.go:80-131 | What an entry of a tracked span is a picture of is determined by the entry |
| TuiPictures.PictureStays | viewer/sap-tui/tui.go:139-272 | Once taken, a picture stays through any run that does not pause, clear or change the width |
| TuiPictures.OldPictureShown | viewer/sap-tui/render.go:80-131 | As long as its entry stays, a closed tree that has grown since its picture was taken is drawn as it was, and that is not how it is |
| TuiMissed.ShowsExactly | viewer/sap-tui/render.go:80-131 | One span added anywhere in a tree whose cache was right, nothing of it cached, is drawn right if and only if no closed span on the way from the tree's root down to its parent has an entry at its own depth and width |
| TuiMissed.ScreenExactly | viewer/sap-tui/render.go:69-131 | The same for the whole screen |
| TuiMissed.MissedChild | viewer/sap-tui/render.go:80-131 | Once a closed tree has been drawn, whatever has started and ended anywhere below it since is not shown, whatever was painted in between, as long as the entry stays |
| TuiMissed.CacheIsVisible | viewer/sap-tui/tui.go:139-272 | There is a run of messages after which the viewer with the cache and the one without it show different screens |
| Tui.Model.IsClosedSpanTree | viewer/sap-tui/render.go:137-147 | True exactly if the span and everything below it have ended |
| Tui.Model.RenderSpan | viewer/sap-tui/render.go:80-131 | Drawing from the nodes through the cache map in place yields the cached drawing of the abstract tree |
| Tui.Model.RenderRoots | viewer/sap-tui/render.go:69-78 | The same for all roots |
| Tui.Model.Update | viewer/sap-tui/tui.go:139-243 | Handling a message in place has exactly the effect of the state machine the run theorems are about |
| Viewers.SameForest | viewer/sap-tui/tui.go:157-209 | Given the same input and limit, the terminal viewer tracks the same forest, stale marks, connection and pause as the web server, in every run, with or without its cache |
| Viewers.TerminalRoots | viewer/sap-tui/tui.go:157-209 | The terminal viewer's roots are in acceptance order and, absent pause and clear, exactly the last 25 accepted |
| Viewers.Agrees | viewer/sap-tui/render.go:149-234 | For every tree in every environment, drawing and card show the same all the way down: depth, name, error, attributes, entries in the same order with the same offsets; a spinner, tick or cross exactly as the card says running, complete, or stale or failed; and stopped durations within a millisecond of each other |
| Viewers.ScreenMatchesPage | viewer/sap-tui/tui.go:139-243 | In every run without the cache, whenever no repaint is pending and nothing moves unseen, the terminal's screen shows in this sense what the page of a server with the same input and limit shows |
| Viewers.CachedMatchesPage | viewer/sap-tui/tui.go:139-272 | The same of the viewer with the cache, in every run that meets the condition of CacheIsInvisible |
| Confluence.ReplayFollows | state/state.go:66-80 | If every start follows its parent's, each rebuilt span is the fold of its own records alone and sits below its parent and nowhere else |
| Confluence.Confluent | state/state.go:239-317 | Two such logs with the same records per span rebuild the same spans below the same ancestors, whatever order mixes the spans |
| HubSpec.RunValid | hub.go:25-85 | Over all interleavings of publishers, subscribers, cancellations, receivers and Close: nothing is sent on or closed after close, a channel is open exactly while registered; each channel's receipts and buffer are, in order, what found room out of what was tried; every publication during its registration is tried once or about to be; and one that ended before another began is tried first |
| HubSpec.Complete | hub.go:53-68 | If the buffer was never full, then once nobody is sending a subscriber has each record published during its registration, as often as it was published |
| HubSpec.OrdersDiffer | hub.go:53-68 | Publications that overlap may reach two subscribers in opposite orders: there is a run in which they do |
| HubSpec.EitherOrder | hub.go:53-68 | In every state that keeps the hub's invariant, two publications that both have a channel still to try may try it in either order: only a publication that has ended is sure to come first |
| Streams.SubscriberStream | hub.go:53-68 | Of each span whose publications do not overlap, a subscriber gets a subsequence of its records in publication order; all of them if its buffer was never full and nobody is sending |
| HubModel.HubObject.Subscribe | hub.go:25-50 | Registers a new channel (256 when no size is given), or returns a closed one on a closed hub; exactly the protocol's step |
| HubModel.HubObject.Cancel | hub.go:43-49 | Closes and forgets the channel once; repeating it changes nothing |
| HubModel.HubObject.Publish | hub.go:53-68 | Each registered channel with room gets the record at its end, the others and a closed hub nothing; the protocol's steps lead to the new state |
| HubModel.HubObject.Close | hub.go:71-85 | Closes every registered channel once and the hub for good, losing nothing that is buffered; the protocol's steps lead there |
| HubModel.HubObject.Receive | hub.go:25-50 | A receiver takes the oldest record of its channel, if any; the protocol's step |
| EmitterProof.EmitterValid | sap.go:217-268 | In every concurrent run of span operations on one hub: no span has two publications under way, a parent's start is published before its child's begins to be, each span's log is what its callers issued, and folding it shows what they made of the span |
| RoundTrip.StreamGrammar | sap.go:97-268 | In every such run each span's published records are its start, then updates and events, then at most its end |
| RoundTrip.SubscriberGrammar | hub.go:53-68 | Each subscriber gets, of each span, a subsequence in that order of what was published while it was registered; all of it, once nobody is sending, if its buffer was never full |
| RoundTrip.SubscriberParentsFirst | sap.go:217-246 | Of every subscriber, whatever it loses and at any moment: a child's start is tried on it only after its parent's, if that was published while it was registered, and if it gets both it gets the parent's first |
| RoundTrip.ParentsStartFirst | sap.go:217-246 | Every child's start follows its parent's in the log, and shares its trace id |
| RoundTrip.SubscriberRebuilds | sap.go:97-268 | A subscriber from the start that missed nothing can replay its stream into an empty store and has exactly the emitter's spans: parents, trace, name, start, latest attribute per key, events in order, terminal state |
| EmitterProof.MergeCloned | attr.go:49-61 | Copying an attribute list drops nothing an update would apply |
| EmitterProof.TaggedLookup | state/state.go:268-292 | Merging an update and overriding the callers' tag map agree on every key |
| SpanModel.SpanObject.SetAttributes | sap.go:98-115 | Publishes the update unless the span is inert or ended or nothing is given; it is the emitter's operation, followed by the hub's steps |
| SpanModel.SpanObject.AddEvent | sap.go:161-194 | Publishes the event, at the current time if none is given and without the default severity, unless inert or ended; the emitter's operation, followed by the hub's steps |
| SpanModel.SpanObject.End | sap.go:248-268 | Ends the span once and publishes that once; the emitter's operation, followed by the hub's steps |
| SpanModel.StartWithHub | sap.go:217-246 | A started span inherits trace and parent from a parent with ids, has a fresh trace otherwise, and is inert without a hub; its start is published; on one hub it is the emitter's operation, followed by the hub's steps |
| SpanModel.Start | sap.go:41-47 | The package-level start stays on the parent's hub, and so does everything started from the context it returns |
| Lines.TooLongExactly | transport/sapsse/client.go:84-106 | Scanning fails if and only if some stretch as long as the limit has no newline |
| WebFrames.WriteSSE | viewer/sap-web/server.go:398-419 | Writes the framed message, and reports an error exactly if a line of the data reaches four mebibytes |
| WebFrames.FrameReadsExactly | viewer/sap-web/server.go:398-419 | Read by section 9.2.6 of the WHATWG HTML standard, a written message gives back the data less one trailing newline if and only if the data has no carriage return and no line too long |
| WebFrames.StreamReads | viewer/sap-web/server.go:119-138 | A whole stream of such messages is read back one by one |
| RecordFrames.Serve | transport/sapsse/sse.go:40-53 | The handler's loop writes the greeting and one frame for each record that marshals |
| RecordFrames.ScanFrames | transport/sapsse/client.go:84-106 | The client's loop yields the record of every data line whose payload decodes and nothing else, up to a line too long |
| RecordFrames.ScansExactly | transport/sapsse/client.go:84-103 | Scanning what the handler wrote gives exactly the payloads, in order, if and only if each is within the client's line limit, on one line, and does not end in a carriage return |
| RecordFrames.RecordsArrive | transport/sapsse/sse.go:40-53 | With a decoder that inverts the marshaller and texts the framing carries, the client has exactly the records that marshal, in order |
| SseClient.StreamOnce | transport/sapsse/client.go:65-108 | A connection always ends in an error, which is the first thing that went wrong and never the closing of the body, reports itself connected exactly if it got a body, and yields the records of that body's payloads that decode |
| SseClient.Stream | transport/sapsse/client.go:22-63 | The states reported form the trace language; disconnected is reported if and only if a cancellation was seen; attempt k is reported exactly if nothing before it was cancelled; its retry carries the error of that attempt and is due two seconds after it; nothing received is lost |
| SseClient.TraceShape | transport/sapsse/client.go:29-61 | In the trace language attempts count up by one from one, a retry and a connection carry their attempt's number, and only the last state says disconnected |

## Left out

- RoundTrip.SubscriberRebuilds: spans of one hub only; a parent that lives on another hub is not in its log. The ids drawn at random are taken to be new and non-empty.
- EmitterProof.EmitterValid: records handed to `Publish` directly, not by a span, are covered by the hub's own results and not by the spans'.
- WebServerSpec.Converges: in runs with a wrong append the page may be wrong until the next full rendering; `SentRefines` says exactly which messages cause it.
- TuiSpec.CacheIsInvisible: says nothing of runs outside its condition; `PaintExactly` does.
- TuiScreen.ScreenExactly: that a scheduled repaint comes, and when, is the framework's; the message is an input.
- TuiPictures.PaintExactly: when an id is tracked again after its eviction, or a span ends at the zero time, its entries need not be pictures of what is there; of those runs only `FreshScreen` speaks, which compares the entries with what is there.
- SpanModel.StartWithHub: that it is the emitter's operation is said only where the context's span, if it has a hub, is on the same one.
- Timeline.TimelineItems: takes the times of events and children that exist; the nil entries the code skips are excluded by the types, as below.
- RecordFrames.RecordsArrive: the JSON encoding is a parameter; that its texts are on one line, and decode back, is not modelled.
- SseClient.Stream: rounds are given as a finite list, so a client that is never cancelled is covered by its finite prefixes; the buffering of its two channels is not modelled.
- Nil entries inside the store's own slices of roots, children and events, and inside the attribute lists it stores: the nodes' field types exclude them. Nil attributes in records are modelled.
- Copying protocol messages so that the store does not share memory with its input: records are values.
- HTML, CSS, terminal styling and syntax highlighting: a card and a document carry the data shown, by span id; labels that depend on the current time for open spans, and the rounding of durations to text, are not part of a card. Shortened ids are kept whole.
- Element ids in the page: cards are addressed by span id, not by the sanitised string, which two ids may share.
- The fallback patch that renders a whole span: it would need the empty id to be found, which `FindSpan` never does.
- Terminal input other than pause, clear, help and resize; scrolling, help and the retry timer; the order of key handling in the Bubble Tea framework.
- The order in which Go ranges over a map: every loop over channels picks an arbitrary one next.
- Go's library sort: modelled as a stable insertion sort, with the code's comparator; by uniqueness any stable sort gives the same list.
- The blocking queue of a writer waiting for the hub's lock: it only rules out some of the interleavings allowed here.
- A nil hub, which behaves like a closed one, is modelled only as the missing hub of an inert span.
- HTTP requests, headers and status handling beyond the outcome of a connection; real timers; write errors of a response.
- Attribute constructors, the random id generator, command-line programs and the example.
