/** The main process of the clipboard manager: the module-level history
    and the handlers that replace it, the copy kept by the persistent
    store, the system clipboard, the polling monitor with its suppression
    flag, and the paste dispatcher. One `Engine` object holds what the
    process keeps in module-level variables and closures. */
module MainProcess {
  import opened Wrappers
  import opened Seqs
  import opened Strings
  import opened History

  /** Whether a monitor tick that reads `current` captures it: the value
      changed since the last capture, is not blank, and no paste from the
      manager is in flight. */
  predicate CapturesOnTick(current: string, lastContent: string, isPastingFromManager: bool)
  {
    current != lastContent && !IsBlank(current) && !isPastingFromManager
  }

  class Engine {
    /** The history, newest first. */
    var clipboardHistory: seq<Entry>
    /** What the persistent store holds under the key `clipboardHistory`. */
    var stored: seq<Entry>
    /** The text on the system clipboard. */
    var clipboard: string
    /** The last value the monitor captured. */
    var lastContent: string
    /** Set while a paste from the manager is in flight. */
    var isPastingFromManager: bool
    /** Whether the popup window is shown. */
    var isVisible: bool

    /** Process start: the store holds what an earlier run saved, the
        clipboard holds whatever it holds, the history is not loaded yet. */
    constructor(stored: seq<Entry>, clipboard: string)
      ensures this.stored == stored && this.clipboard == clipboard
      ensures clipboardHistory == [] && lastContent == ""
      ensures !isPastingFromManager && !isVisible
    {
      this.stored := stored;
      this.clipboard := clipboard;
      clipboardHistory := [];
      lastContent := "";
      isPastingFromManager := false;
      isVisible := false;
    }

    /** Reads the history from the store; a failed read leaves it empty. */
    method LoadClipboardHistory(readFails: bool)
      modifies this`clipboardHistory
      ensures clipboardHistory == if readFails then [] else stored
    {
      if readFails {
        clipboardHistory := [];
      } else {
        clipboardHistory := stored;
      }
    }

    /** Writes the whole history to the store. */
    method SaveClipboardHistory()
      modifies this`stored
      ensures stored == clipboardHistory
    {
      stored := clipboardHistory;
    }

    /** Records `content` as the newest entry: an older entry with the same
        content is removed, the history is cut to MAX_HISTORY_SIZE entries
        and saved. No blank check happens here; the callers make it. */
    method AddToHistory(content: string, kind: Kind, now: int)
      modifies this`clipboardHistory, this`stored
      ensures clipboardHistory == Added(old(clipboardHistory), content, kind, now)
      ensures stored == clipboardHistory
      ensures 1 <= |clipboardHistory| <= MAX_HISTORY_SIZE
      ensures clipboardHistory[0].content == content
      ensures clipboardHistory[0].id == clipboardHistory[0].timestamp == now
      ensures DistinctContents(old(clipboardHistory)) ==> WellFormed(clipboardHistory)
    {
      ghost var before := clipboardHistory;
      var item := NewEntry(content, kind, now);
      clipboardHistory := Keep(clipboardHistory, OtherContent(content));
      clipboardHistory := [item] + clipboardHistory;
      if |clipboardHistory| > MAX_HISTORY_SIZE {
        clipboardHistory := clipboardHistory[..MAX_HISTORY_SIZE];
      }
      SaveClipboardHistory();
      AddedEvictsOldest(before, content, kind, now);
      if DistinctContents(before) {
        AddedWellFormed(before, content, kind, now);
      }
    }

    /** Hides the popup window. */
    method HideWindow()
      modifies this`isVisible
      ensures !isVisible
    {
      isVisible := false;
    }

    /** Puts the content of the first entry with id `itemId` on the
        clipboard and hides the window; an unknown id does nothing. The
        history is never reordered by a paste. */
    method PasteItemWithoutDuplicate(itemId: int) returns (pasted: bool)
      modifies this`clipboard, this`isVisible
      ensures clipboardHistory == old(clipboardHistory) && stored == old(stored)
      ensures pasted <==> exists i :: 0 <= i < |clipboardHistory| && clipboardHistory[i].id == itemId
      ensures pasted ==> clipboard == FindById(clipboardHistory, itemId).value.content && !isVisible
      ensures !pasted ==> clipboard == old(clipboard) && isVisible == old(isVisible)
    {
      var item := FindById(clipboardHistory, itemId);
      pasted := item.Some?;
      if item.Some? {
        clipboard := item.value.content;
        HideWindow();
      }
    }

    /** The `get-clipboard-history` handler: the current history. */
    method GetClipboardHistory() returns (h: seq<Entry>)
      ensures h == clipboardHistory
    {
      h := clipboardHistory;
    }

    /** The `delete-item` handler: drops the entries with id `itemId`, saves
        and answers with the new history. */
    method DeleteItem(itemId: int) returns (h: seq<Entry>)
      modifies this`clipboardHistory, this`stored
      ensures clipboardHistory == WithoutId(old(clipboardHistory), itemId)
      ensures stored == clipboardHistory && h == clipboardHistory
      ensures (forall i :: 0 <= i < |old(clipboardHistory)| ==> old(clipboardHistory)[i].id != itemId) ==>
        clipboardHistory == old(clipboardHistory)
      ensures WellFormed(old(clipboardHistory)) ==> WellFormed(clipboardHistory)
    {
      ghost var before := clipboardHistory;
      clipboardHistory := Keep(clipboardHistory, OtherId(itemId));
      SaveClipboardHistory();
      h := clipboardHistory;
      if forall i :: 0 <= i < |before| ==> before[i].id != itemId {
        DeleteUnknownIdIsNoop(before, itemId);
      }
      if WellFormed(before) {
        DeleteWellFormed(before, itemId);
      }
    }

    /** The `clear-history` handler: empties the history and saves it. */
    method ClearHistory() returns (h: seq<Entry>)
      modifies this`clipboardHistory, this`stored
      ensures clipboardHistory == [] && stored == [] && h == []
    {
      clipboardHistory := [];
      SaveClipboardHistory();
      h := clipboardHistory;
    }

    /** The tray menu's "Clear History": the same effect, no answer. */
    method TrayClearHistory()
      modifies this`clipboardHistory, this`stored
      ensures clipboardHistory == [] && stored == []
    {
      var _ := ClearHistory();
    }

    /** Another application copies `text`: the system clipboard changes. */
    method CopyExternally(text: string)
      modifies this`clipboard
      ensures clipboard == text
    {
      clipboard := text;
    }

    /** Start of monitoring: the current clipboard text is taken as already
        seen (nothing is seen when the read fails), and no paste is in
        flight. */
    method StartClipboardMonitoring(readFails: bool)
      modifies this`lastContent, this`isPastingFromManager
      ensures lastContent == if readFails then "" else clipboard
      ensures !isPastingFromManager
    {
      lastContent := "";
      isPastingFromManager := false;
      if !readFails {
        lastContent := clipboard;
      }
    }

    /** One tick of the monitor. A failed read changes nothing. Otherwise
        the clipboard text is captured, and remembered as the last value,
        exactly when it differs from the last value, is not blank and no
        paste is in flight; while a paste is in flight the last value is
        left as it was. */
    method MonitorTick(readFails: bool, now: int) returns (captured: bool)
      modifies this`clipboardHistory, this`stored, this`lastContent
      ensures captured <==> !readFails && CapturesOnTick(clipboard, old(lastContent), isPastingFromManager)
      ensures captured ==> lastContent == clipboard
      ensures captured ==> clipboardHistory == Added(old(clipboardHistory), clipboard, Text, now) && stored == clipboardHistory
      ensures !captured ==> lastContent == old(lastContent)
      ensures !captured ==> clipboardHistory == old(clipboardHistory) && stored == old(stored)
    {
      captured := false;
      if !readFails {
        var currentContent := clipboard;
        TrimEmptyIffBlank(currentContent);
        if currentContent != lastContent && Trim(currentContent) != "" && !isPastingFromManager {
          lastContent := currentContent;
          AddToHistory(currentContent, Text, now);
          captured := true;
        }
      }
    }

    /** The `paste-from-manager` signal: a paste is in flight. */
    method PasteFromManager()
      modifies this`isPastingFromManager
      ensures isPastingFromManager
    {
      isPastingFromManager := true;
    }

    /** The 500 ms timer set by `paste-from-manager` fires. */
    method SuppressionExpired()
      modifies this`isPastingFromManager
      ensures !isPastingFromManager
    {
      isPastingFromManager := false;
    }

    /** The tray menu's "Test Clipboard Monitoring": captures the clipboard
        text if it is not blank, whatever the monitor state, and without
        touching the monitor's last value. The read is not guarded, so a
        failing read ends the handler before anything changes. */
    method TestClipboardMonitoring(readFails: bool, now: int) returns (captured: bool)
      modifies this`clipboardHistory, this`stored
      ensures captured <==> !readFails && !IsBlank(clipboard)
      ensures captured ==> clipboardHistory == Added(old(clipboardHistory), clipboard, Text, now) && stored == clipboardHistory
      ensures !captured ==> clipboardHistory == old(clipboardHistory) && stored == old(stored)
    {
      captured := false;
      if !readFails {
        var currentContent := clipboard;
        TrimEmptyIffBlank(currentContent);
        captured := Trim(currentContent) != "";
        if captured {
          AddToHistory(currentContent, Text, now);
        }
      }
    }

    /** A monitor tick that, while a paste is in flight, still remembers the
        clipboard text as seen, so the pasted value is not captured once the
        flag drops. Otherwise it behaves as MonitorTick. */
    method MonitorTickIntended(readFails: bool, now: int) returns (captured: bool)
      modifies this`clipboardHistory, this`stored, this`lastContent
      ensures captured <==> !readFails && CapturesOnTick(clipboard, old(lastContent), isPastingFromManager)
      ensures captured ==> clipboardHistory == Added(old(clipboardHistory), clipboard, Text, now) && stored == clipboardHistory
      ensures !captured ==> clipboardHistory == old(clipboardHistory) && stored == old(stored)
      ensures lastContent == if !readFails && (captured || isPastingFromManager) then clipboard else old(lastContent)
    {
      captured := MonitorTick(readFails, now);
      if !readFails && isPastingFromManager {
        lastContent := clipboard;
      }
    }
  }

  /** A fresh process whose monitor has seen "b" copied at 1000 ms and
      then "a" at 2000 ms; no paste was in flight, so both ticks act alike. */
  method CopyTwice() returns (e: Engine)
    ensures fresh(e)
    ensures e.clipboardHistory == [Entry(2000, "a", Text, 2000, "a"), Entry(1000, "b", Text, 1000, "b")]
    ensures e.clipboard == "a" && e.lastContent == "a" && !e.isPastingFromManager
  {
    e := new Engine([], "");
    e.StartClipboardMonitoring(false);
    var b, a := Entry(1000, "b", Text, 1000, "b"), Entry(2000, "a", Text, 2000, "a");
    e.CopyExternally("b");
    assert CapturesOnTick("b", "", false) by { assert !IsWhitespace("b"[0]); }
    var _ := e.MonitorTick(false, 1000);
    assert e.clipboardHistory == [b] by { AddedToEmpty("b", 1000); }
    e.CopyExternally("a");
    assert CapturesOnTick("a", "b", false) by { assert !IsWhitespace("a"[0]); }
    var _ := e.MonitorTick(false, 2000);
    assert e.clipboardHistory == [a, b] by { AddedBehind([b], "a", 2000); }
  }

  /** As written, a paste from the manager is captured again once the
      suppression flag drops: with "b" then "a" copied, pasting "b" and
      letting one tick fall inside the window and one after it moves "b"
      back to the front under a new id. */
  method PasteRecapturedAsWritten() returns (before: seq<Entry>, after: seq<Entry>)
    ensures before == [Entry(2000, "a", Text, 2000, "a"), Entry(1000, "b", Text, 1000, "b")]
    ensures after == [Entry(4000, "b", Text, 4000, "b"), Entry(2000, "a", Text, 2000, "a")]
  {
    var e := CopyTwice();
    before := e.clipboardHistory;
    e.PasteFromManager();
    var _ := e.PasteItemWithoutDuplicate(1000);
    assert e.clipboard == "b" by { FindByIdFirst(before, 1000, 1); }
    var _ := e.MonitorTick(false, 3000);
    e.SuppressionExpired();
    assert CapturesOnTick("b", "a", false) by { assert !IsWhitespace("b"[0]); }
    var _ := e.MonitorTick(false, 4000);
    assert e.clipboardHistory == [Entry(4000, "b", Text, 4000, "b"), before[0]] by {
      AddedBumps(before, 1, Text, 4000);
    }
    after := e.clipboardHistory;
  }

  /** With the intended tick the same sequence leaves the history as it was. */
  method PasteNotRecapturedIntended() returns (before: seq<Entry>, after: seq<Entry>)
    ensures before == [Entry(2000, "a", Text, 2000, "a"), Entry(1000, "b", Text, 1000, "b")]
    ensures after == before
  {
    var e := CopyTwice();
    before := e.clipboardHistory;
    e.PasteFromManager();
    var _ := e.PasteItemWithoutDuplicate(1000);
    var _ := e.MonitorTickIntended(false, 3000);
    e.SuppressionExpired();
    var _ := e.MonitorTickIntended(false, 4000);
    after := e.clipboardHistory;
  }

  /** With the intended tick, a paste from the manager never changes the
      history, whatever its state, provided one successful tick falls
      inside the suppression window and nobody copies in between. */
  method PasteNeverRecapturedIntended(e: Engine, itemId: int, t1: int, t2: int)
    modifies e
    ensures e.clipboardHistory == old(e.clipboardHistory)
  {
    e.PasteFromManager();
    var _ := e.PasteItemWithoutDuplicate(itemId);
    var _ := e.MonitorTickIntended(false, t1);
    e.SuppressionExpired();
    var _ := e.MonitorTickIntended(false, t2);
  }
}
