# ClipSync clipboard history — a Dafny model

ClipSync is a clipboard manager. Its main process polls the system
clipboard once a second. It records each new non-blank text as the newest
entry of a history: the older copy of the same text is removed, and the
history is cut to 50 entries. The history is written to a persistent store
after every change. A popup window shows the history and has a search box
that filters it. Clicking an entry, or pressing Enter on it, pastes it
through the clipboard. While such a paste is in flight, a suppression flag
keeps the monitor from capturing it.

The project models this core in six files:

- `Wrappers.dfy` holds the `Option` type, the result of a lookup that may
  find nothing.
- `Seqs.dfy` holds `Keep`, the order-preserving filter that both processes
  use (`Array.prototype.filter`). It also holds the subsequence relation and
  the lemmas about both.
- `Strings.dfy` holds the string operations the code relies on: `trim`,
  `toLowerCase`, `includes`, `String(id)` and `parseInt`.
- `History.dfy` is the history as a value:
  - `Added` is what `addToHistory` does to the sequence;
  - `WithoutId` is what the `delete-item` handler does;
  - `FindById` is the paste lookup.

  The lemmas state the capture policy: front, bump, uniqueness, eviction of
  the oldest, and the invariant "at most 50 entries, distinct contents".
- `MainProcess.dfy` is the class `Engine`. It holds the main process's
  module-level state and the monitor's closure variables:
  - the history and the copy in the store;
  - the system clipboard text;
  - `lastContent` and `isPastingFromManager`;
  - the window's visibility.

  It has one method per handler, tick and timer expiry.
- `Renderer.dfy` is the popup's class `ClipboardManager`. It covers
  filtering, the search box, the IPC-driven reloads, paste, delete,
  clear-all and keyboard navigation. It also holds the relative age label
  `GetTimeAgo`.

Notes on what the code does:

- `addToHistory` itself does not refuse blank text. Its two callers test
  `trim() !== ''` before calling it. So `AddToHistory` has no such guard,
  while `MonitorTick` and `TestClipboardMonitoring` do.
- A tick during the suppression window records nothing, not even the text
  as seen. This is modelled as written and listed under Findings.
- Deletion removes every entry with the given id, not only the first.
  Clearing from the popup needs the user's confirmation, which is a
  parameter here.

Time (`Date.now()`) and the user's answer to `confirm` are method
parameters. So are these failures:

- a failing store read empties the history;
- a failing clipboard read at the monitor's start leaves nothing seen;
- a failing clipboard read in a monitor tick or in the tray's test item
  changes nothing;
- a failing `get-clipboard-history`, `delete-item` or `clear-history`
  request from the popup changes nothing.

Timers are explicit transitions: `SuppressionExpired` is the 500 ms timer
and `MonitorTick` is one poll.

## Model

| member | source | states |
|---|---|---|
| Seqs.KeepSelects | src/main.js:49 | every element `filter` keeps comes from the input |
| Seqs.KeepRetains | src/main.js:49 | every input element that passes the callback is kept |
| Seqs.KeepIsSubsequence | src/main.js:49 | `filter` never reorders: its result is a subsequence of its input |
| Seqs.KeepMultiset | src/main.js:49 | counted with multiplicity, `filter` keeps every occurrence of a passing element and none of a failing one |
| Seqs.KeepIdempotent | src/main.js:285 | filtering twice with the same callback is filtering once |
| Strings.TrimEmptyIffBlank | src/main.js:109 | `trim() !== ''` holds exactly when the text has a non-whitespace character |
| Strings.ToLowerOfLower | src/renderer/renderer.js:26 | lower-casing an already lower-cased term changes nothing, so the stored term is a fixed point |
| Strings.ParseIntOfIntToString | src/renderer/renderer.js:222 | an id written into the row's `data-id` and read back with `parseInt` is the same id, negative ids included |
| History.Preview | src/main.js:45 | a text preview is the prefix of the content of length min(length, 100); a non-text preview is "Image" |
| History.Added | src/main.js:48-57 | a capture yields 1 to 50 entries with the new entry in front; its further meaning is in the Added lemmas below |
| History.WithoutId | src/main.js:285 | deletion never lengthens the history and leaves no entry with the id; DeleteRemovesExactly gives the rest |
| History.FindById | src/main.js:72 | no result exactly when no entry has the id; otherwise an entry with the id, and no earlier entry has it |
| History.FindByIdFirst | src/main.js:72 | the lookup returns the entry at the first position holding the id |
| History.AddedFront | src/main.js:39-52 | after a capture the front entry holds the content and kind, id and timestamp are both `now`, and the preview is as above |
| History.AddedUniqueContent | src/main.js:48-52 | after a capture exactly one entry holds the captured content: the front one |
| History.AddedEvictsOldest | src/main.js:54-57 | the result has between 1 and 50 entries; behind the front stands a prefix of the filtered old history, cut only when the result is full |
| History.AddedKeepsOrder | src/main.js:48-57 | the entries behind the front come from the old history, keep their relative order and all hold other contents |
| History.AddedKeepsOthersWhenRoom | src/main.js:48-57 | with fewer than 50 entries nothing is evicted: every old entry with other content is still present |
| History.AddedBumps | src/main.js:48-52 | re-capturing the content of entry j of a well-formed history moves it to the front and leaves all others in place |
| History.KeepDropsOne | src/main.js:49 | in a history with distinct contents, filtering out the content of entry j removes exactly entry j |
| History.AddedTwice | src/main.js:48-57 | capturing the same content twice in a row only renews the front entry; from empty the history has one entry |
| History.KeepOfAddedIsTail | src/main.js:48-57 | right after a capture, filtering out the captured content again leaves exactly the entries behind the front |
| History.AddedToEmpty | src/main.js:40-52 | capturing a short text into an empty history gives the one expected entry |
| History.AddedBehind | src/main.js:48-52 | a new short text captured into a history with room goes in front of the unchanged old history |
| History.AddedWellFormed | src/main.js:48-57 | capture keeps the invariant: at most 50 entries and pairwise distinct contents |
| History.DeleteRemovesExactly | src/main.js:285 | deletion keeps exactly the entries with other ids, in order and counted with multiplicity; it shortens the history when the id is present |
| History.DeleteUnknownIdIsNoop | src/main.js:285 | deleting an id no entry has leaves the history unchanged |
| History.DeleteIdempotent | src/main.js:285 | deleting the same id twice is deleting it once |
| History.DeleteWellFormed | src/main.js:285 | deletion keeps the invariant |
| MainProcess.Engine.constructor | src/main.js:10-11 | at start the history is empty, the window hidden, nothing seen and nothing suppressed |
| MainProcess.Engine.LoadClipboardHistory | src/main.js:18-25 | the history becomes what the store holds, or empty when the read fails |
| MainProcess.Engine.SaveClipboardHistory | src/main.js:28-34 | the store holds the current history |
| MainProcess.Engine.AddToHistory | src/main.js:37-68 | the history becomes `Added` of the old one and is saved; 1 to 50 entries with the new content in front; distinct contents stay distinct |
| MainProcess.Engine.HideWindow | src/main.js:193-197 | the window is hidden |
| MainProcess.Engine.PasteItemWithoutDuplicate | src/main.js:71-90 | it pastes exactly when some entry has the id; then the clipboard holds that entry's content and the window is hidden; the history and store never change |
| MainProcess.Engine.GetClipboardHistory | src/main.js:276-278 | answers with the current history |
| MainProcess.Engine.DeleteItem | src/main.js:284-288 | the history becomes `WithoutId` of the old one, is saved and returned; an unknown id changes nothing; the invariant is kept |
| MainProcess.Engine.ClearHistory | src/main.js:290-294 | history and store become empty; the answer is empty |
| MainProcess.Engine.TrayClearHistory | src/main.js:231-238 | history and store become empty |
| MainProcess.Engine.CopyExternally | src/main.js:108 | another application's copy replaces the clipboard text the monitor reads |
| MainProcess.Engine.StartClipboardMonitoring | src/main.js:93-104 | the current clipboard text counts as seen (nothing when the read fails); no paste is in flight |
| MainProcess.Engine.MonitorTick | src/main.js:106-117 | captures exactly when the read succeeds, the text changed since the last capture, is not blank and no paste is in flight; a capture records the text as seen and adds it; otherwise nothing changes |
| MainProcess.Engine.PasteFromManager | src/main.js:120-121 | the suppression flag is raised |
| MainProcess.Engine.SuppressionExpired | src/main.js:122-124 | the suppression flag drops |
| MainProcess.Engine.TestClipboardMonitoring | src/main.js:220-228 | captures exactly when the read succeeds and the clipboard text is not blank, whatever the monitor state; otherwise nothing changes |
| MainProcess.Engine.MonitorTickIntended | src/main.js:106-124 | the corrected tick: the same captures, but during a paste the clipboard text is still recorded as seen |
| MainProcess.CopyTwice | src/main.js:106-117 | copying "b" at 1000 ms and then "a" at 2000 ms gives the history [a, b] |
| MainProcess.PasteRecapturedAsWritten | src/main.js:106-124 | as written, pasting "b" from [a, b] ends with "b" captured again under a new id: [b@4000, a@2000] |
| MainProcess.PasteNotRecapturedIntended | src/main.js:106-124 | with the corrected tick the same steps leave the history unchanged |
| MainProcess.PasteNeverRecapturedIntended | src/main.js:106-124 | with the corrected tick, a paste followed by a tick inside the window and one after it never changes the history |
| Renderer.FilterHistory | src/renderer/renderer.js:61-68 | an empty term shows the whole history; otherwise a subsequence of the history that holds every entry whose lower-cased content contains the term, and only those (FilterHistoryCounts adds multiplicity) |
| Renderer.FilterHistoryCounts | src/renderer/renderer.js:61-68 | counted with multiplicity, the list shown holds every occurrence of a matching entry and no occurrence of any other |
| Renderer.GetTimeAgo | src/renderer/renderer.js:254-271 | the label is "Just now" exactly when less than a minute has passed (or the timestamp is in the future); TimeAgoBuckets gives the other labels |
| Renderer.TimeAgoBuckets | src/renderer/renderer.js:254-271 | the label names days from one full day on, else hours from one hour on, else minutes from one minute on, else "Just now"; the count is the number of whole units |
| Renderer.AgoPlural | src/renderer/renderer.js:263-268 | a label ends in "s ago" exactly when its count is above one |
| Renderer.ClipboardManager.constructor | src/renderer/renderer.js:4-8 | the popup starts with empty lists, no selection and an empty term |
| Renderer.ClipboardManager.FilterAndRender | src/renderer/renderer.js:61-71 | the list on screen becomes the filter of the history by the term |
| Renderer.ClipboardManager.OnSearchInput | src/renderer/renderer.js:25-28 | the term becomes the lower-cased input and the list is refiltered |
| Renderer.ClipboardManager.OnClipboardUpdated | src/renderer/renderer.js:46-49 | the pushed history replaces the local one and the list is refiltered |
| Renderer.ClipboardManager.LoadClipboardHistory | src/renderer/renderer.js:52-59 | the local history becomes the main process's and the list is refiltered; a failed request changes nothing |
| Renderer.ClipboardManager.PasteItem | src/renderer/renderer.js:146-155 | suppression is raised before the paste; the main process's history is not reordered |
| Renderer.ClipboardManager.DeleteItem | src/renderer/renderer.js:157-164 | the main process drops the id and saves; the answer becomes the local history, refiltered; a failed request changes nothing |
| Renderer.ClipboardManager.ClearAllHistory | src/renderer/renderer.js:166-193 | with confirmation and a successful request both histories, the list, the term and the search box are emptied and the window hidden; otherwise nothing changes |
| Renderer.ClipboardManager.HandleKeyboardNavigation | src/renderer/renderer.js:203-241 | the arrows move the selection within -1 and the last row; Escape clears it; Enter and Delete act on the selected row's id exactly when a row is selected and exists, and otherwise change nothing; Enter only pastes (no history, store or list changes); Delete only deletes and saves, or changes nothing when its request fails |

## Left out

- Window creation and positioning, the tray icon and menu wiring, the global
  shortcut, `toggleWindow`/`showWindow` and the application lifecycle are
  not modelled. They only place and show the window.
- The IPC transport is not modelled. Handlers are direct method calls, and
  the `clipboard-updated` pushes are modelled by letting the caller pass the
  history to `OnClipboardUpdated`.
- A failing store write (the `catch` at src/main.js:31-33) is not modelled.
  Writes always succeed.
- The `xdotool` keystroke and its 100 ms delay are not modelled, since they
  are an external process.
- Timers are explicit transitions. Clear-all's 1 s delayed `hide-window`
  becomes an immediate `HideWindow`.
- `hideWindow`'s early return when no window exists is not modelled. The
  window always exists here.
- `Date.now()` is a parameter.
- `trim` and `toLowerCase` are modelled on ASCII only. Unicode whitespace and
  case mapping are not modelled.
- History.Preview: the 100-character cut counts Unicode code points, while
  `substring(0, 100)` counts UTF-16 code units. For text with characters
  outside the Basic Multilingual Plane, such as emoji, the source's preview
  is shorter than the model's.
- History.AddedFront: states the front entry's preview with the same
  code-point cut as History.Preview, so the same difference applies.
- Ids, timestamps and time differences are unbounded integers, not
  JavaScript doubles.
- The DOM is not modelled: rendering, `escapeHtml`, the toast, the
  selection highlight (`updateSelection`) and the double-click copy through
  `navigator.clipboard`.
- Logging is not modelled.
- The popup's constructor and its first `loadClipboardHistory` call are two
  separate calls here.
- Renderer.ClipboardManager.PasteItem: an IPC failure is not modelled. The
  paste always reaches the main process.
- A failed popup request is modelled as one that never reached the main
  process. A request that took effect there but whose answer was lost is
  not modelled.
- MainProcess.PasteNeverRecapturedIntended: the guarantee needs one
  successful tick inside the 500 ms window. With a 1000 ms poll, that is not
  certain in the running program.

## Findings

| source | as written | input that shows it | evidently intended | confidence | as-written member | corrected member |
|---|---|---|---|---|---|---|
| src/main.js:106-124 | a tick during a paste neither captures the clipboard text nor records it as seen, so the first tick after the 500 ms timer captures the pasted text again and moves it to the front under a new id | copy "b" at 1000 ms, copy "a" at 2000 ms, paste the entry with id 1000, tick at 3000 ms inside the window, timer fires, tick at 4000 ms: the history becomes [b@4000, a@2000] instead of staying [a@2000, b@1000] | a paste from the manager never changes the history (the renderer's "Don't move the item to top" and the name `pasteItemWithoutDuplicate`) | medium, not executed | MainProcess.PasteRecapturedAsWritten | MainProcess.Engine.MonitorTickIntended |
