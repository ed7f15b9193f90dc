/** The popup window's logic: the search filter over the history it was
    sent, keyboard selection, the relative-age label of an entry, and the
    clear-all action. The IPC calls to the main process become calls on a
    `MainProcess.Engine`. */
module Renderer {
  import opened Wrappers
  import opened Seqs
  import opened Strings
  import opened History
  import MainProcess

  // ---------------------------------------------------------------------
  // Search filter

  /** The filter callback `item => item.content.toLowerCase().includes(term)`. */
  function MatchesTerm(term: string): Entry -> bool
  {
    (e: Entry) => Contains(ToLower(e.content), term)
  }

  /** The list shown for a search term: the whole history, in order, when
      the term is empty; otherwise the entries whose lower-cased content
      contains the term, in their history order, and no others. */
  function FilterHistory(h: seq<Entry>, term: string): (r: seq<Entry>)
    ensures term == "" ==> r == h
    ensures SubsequenceOf(r, h)
    ensures forall i :: 0 <= i < |r| ==> r[i] in h && Contains(ToLower(r[i].content), term)
    ensures forall i :: 0 <= i < |h| && Contains(ToLower(h[i].content), term) ==> h[i] in r
  {
    if term != "" then
      KeepIsSubsequence(h, MatchesTerm(term));
      KeepSelects(h, MatchesTerm(term));
      KeepRetains(h, MatchesTerm(term));
      Keep(h, MatchesTerm(term))
    else
      EveryEntryMatchesEmptyTerm(h);
      SubsequenceReflexive(h);
      h
  }

  /** Counted with multiplicity, the list shown holds every occurrence of a
      matching entry of the history and no occurrence of any other entry. */
  lemma FilterHistoryCounts(h: seq<Entry>, term: string)
    ensures var r := FilterHistory(h, term);
      forall x :: multiset(r)[x] == if Contains(ToLower(x.content), term) then multiset(h)[x] else 0
  {
    if term != "" {
      KeepMultiset(h, MatchesTerm(term));
    } else {
      forall x: Entry ensures Contains(ToLower(x.content), "") {
        var s := ToLower(x.content);
        assert "" <= s[0..];
      }
    }
  }

  /** Every string includes the empty string. */
  lemma EveryEntryMatchesEmptyTerm(h: seq<Entry>)
    ensures forall i :: 0 <= i < |h| ==> Contains(ToLower(h[i].content), "")
  {
    forall i | 0 <= i < |h| ensures Contains(ToLower(h[i].content), "") {
      var s := ToLower(h[i].content);
      assert "" <= s[0..];
    }
  }

  // ---------------------------------------------------------------------
  // Relative age

  const MS_PER_SECOND: int := 1000
  const MS_PER_MINUTE: int := 60 * MS_PER_SECOND
  const MS_PER_HOUR: int := 60 * MS_PER_MINUTE
  const MS_PER_DAY: int := 24 * MS_PER_HOUR

  /** "<count> <unit> ago", with a plural "s" for counts above one. */
  function Ago(count: nat, unit: string): (r: string)
    ensures |r| >= 4 && r[|r| - 4..] == " ago"
  {
    Decimal(count) + " " + unit + (if count > 1 then "s" else "") + " ago"
  }

  /** The age label of an entry captured at `timestamp`, at time `now`:
      whole seconds, minutes, hours and days by successive floor division,
      the largest non-zero unit named. */
  function GetTimeAgo(timestamp: int, now: int): (r: string)
    ensures r == "Just now" <==> now - timestamp < MS_PER_MINUTE
  {
    var diff := now - timestamp;
    NestedDivisions(diff);
    var seconds := diff / 1000;
    var minutes := seconds / 60;
    var hours := minutes / 60;
    var days := hours / 24;
    if days > 0 then Ago(days, "day")
    else if hours > 0 then Ago(hours, "hour")
    else if minutes > 0 then Ago(minutes, "minute")
    else "Just now"
  }

  /** Successive floor divisions by 1000, 60, 60 and 24 are floor divisions
      of the whole difference by a minute, an hour and a day. */
  lemma NestedDivisions(diff: int)
    ensures diff / 1000 / 60 == diff / MS_PER_MINUTE
    ensures diff / 1000 / 60 / 60 == diff / MS_PER_HOUR
    ensures diff / 1000 / 60 / 60 / 24 == diff / MS_PER_DAY
  {
  }

  /** The label names days from one full day on, hours from one full hour
      on, minutes from one full minute on, and says "Just now" below a
      minute (and for a timestamp in the future); the count is the number
      of whole units elapsed. */
  lemma TimeAgoBuckets(timestamp: int, now: int)
    ensures var diff := now - timestamp;
      GetTimeAgo(timestamp, now) ==
        if diff >= MS_PER_DAY then Ago(diff / MS_PER_DAY, "day")
        else if diff >= MS_PER_HOUR then Ago(diff / MS_PER_HOUR, "hour")
        else if diff >= MS_PER_MINUTE then Ago(diff / MS_PER_MINUTE, "minute")
        else "Just now"
  {
    NestedDivisions(now - timestamp);
  }

  /** A label ends in "s ago" exactly when its count is above one, for the
      three unit names, none of which ends in "s". */
  lemma AgoPlural(count: nat, unit: string)
    requires unit == "day" || unit == "hour" || unit == "minute"
    ensures var r := Ago(count, unit);
      |r| >= 5 && (r[|r| - 5..] == "s ago" <==> count > 1)
  {
    var r := Ago(count, unit);
    var stem := Decimal(count) + " " + unit;
    assert stem[|stem| - 1] == unit[|unit| - 1] != 's';
    if count > 1 {
      assert r == stem + "s ago";
    } else {
      assert r == stem + " ago";
      assert r[|r| - 5] == stem[|stem| - 1];
    }
  }

  // ---------------------------------------------------------------------
  // Keyboard navigation

  datatype Key = ArrowDown | ArrowUp | Enter | Escape | Delete | OtherKey

  function Max(a: int, b: int): int
  {
    if a >= b then a else b
  }

  /** The popup's state: the history last sent by the main process, the
      filtered list on screen, the selected row (-1 for none), the search
      term and the text of the search box. */
  class ClipboardManager {
    var clipboardHistory: seq<Entry>
    var filteredHistory: seq<Entry>
    var selectedIndex: int
    var searchTerm: string
    var searchInput: string

    /** The term is stored lower-cased, the list on screen is always the
        filter of the history by the term, and the selection never goes
        below -1. */
    ghost predicate Valid()
      reads this
    {
      IsLower(searchTerm) &&
      filteredHistory == FilterHistory(clipboardHistory, searchTerm) &&
      selectedIndex >= -1
    }

    constructor()
      ensures Valid()
      ensures clipboardHistory == [] && filteredHistory == [] && selectedIndex == -1
      ensures searchTerm == "" && searchInput == ""
    {
      clipboardHistory := [];
      filteredHistory := [];
      selectedIndex := -1;
      searchTerm := "";
      searchInput := "";
    }

    /** Recomputes the list on screen from the history and the term. */
    method FilterAndRender()
      modifies this`filteredHistory
      ensures filteredHistory == FilterHistory(clipboardHistory, searchTerm)
    {
      if searchTerm != "" {
        filteredHistory := Keep(clipboardHistory, MatchesTerm(searchTerm));
      } else {
        filteredHistory := clipboardHistory;
      }
    }

    /** Typing in the search box: the term becomes the lower-cased text. */
    method OnSearchInput(value: string)
      requires Valid()
      modifies this`searchInput, this`searchTerm, this`filteredHistory
      ensures Valid()
      ensures searchInput == value && searchTerm == ToLower(value)
      ensures filteredHistory == FilterHistory(clipboardHistory, ToLower(value))
    {
      searchInput := value;
      searchTerm := ToLower(value);
      FilterAndRender();
    }

    /** A `clipboard-updated` message: the main process sent a new history. */
    method OnClipboardUpdated(history: seq<Entry>)
      requires Valid()
      modifies this`clipboardHistory, this`filteredHistory
      ensures Valid()
      ensures clipboardHistory == history
      ensures filteredHistory == FilterHistory(history, searchTerm)
    {
      clipboardHistory := history;
      FilterAndRender();
    }

    /** Fetches the history from the main process. When the request fails
        the error is only logged and nothing changes. */
    method LoadClipboardHistory(e: MainProcess.Engine, requestFails: bool)
      requires Valid()
      modifies this`clipboardHistory, this`filteredHistory
      ensures Valid()
      ensures !requestFails ==>
        clipboardHistory == e.clipboardHistory &&
        filteredHistory == FilterHistory(e.clipboardHistory, searchTerm)
      ensures requestFails ==>
        clipboardHistory == old(clipboardHistory) && filteredHistory == old(filteredHistory)
    {
      if !requestFails {
        var history := e.GetClipboardHistory();
        OnClipboardUpdated(history);
      }
    }

    /** Pasting an entry: first the suppression signal, then the paste
        request; the history is not reordered. */
    method PasteItem(e: MainProcess.Engine, itemId: int) returns (pasted: bool)
      modifies e`isPastingFromManager, e`clipboard, e`isVisible
      ensures e.isPastingFromManager
      ensures e.clipboardHistory == old(e.clipboardHistory) && e.stored == old(e.stored)
      ensures e.lastContent == old(e.lastContent)
      ensures pasted <==> exists i :: 0 <= i < |e.clipboardHistory| && e.clipboardHistory[i].id == itemId
      ensures pasted ==> e.clipboard == FindById(e.clipboardHistory, itemId).value.content && !e.isVisible
      ensures !pasted ==> e.clipboard == old(e.clipboard) && e.isVisible == old(e.isVisible)
    {
      e.PasteFromManager();
      pasted := e.PasteItemWithoutDuplicate(itemId);
    }

    /** Deleting an entry: the main process drops it, saves and answers with
        the new history, which is then shown. When the request fails the
        error is only logged and nothing changes. */
    method DeleteItem(e: MainProcess.Engine, itemId: int, requestFails: bool)
      requires Valid()
      modifies this`clipboardHistory, this`filteredHistory, e`clipboardHistory, e`stored
      ensures Valid()
      ensures !requestFails ==>
        e.clipboardHistory == WithoutId(old(e.clipboardHistory), itemId) &&
        e.stored == e.clipboardHistory && clipboardHistory == e.clipboardHistory &&
        filteredHistory == FilterHistory(e.clipboardHistory, searchTerm)
      ensures requestFails ==>
        e.clipboardHistory == old(e.clipboardHistory) && e.stored == old(e.stored) &&
        clipboardHistory == old(clipboardHistory) && filteredHistory == old(filteredHistory)
    {
      if !requestFails {
        var history := e.DeleteItem(itemId);
        OnClipboardUpdated(history);
      }
    }

    /** The clear-all button. Nothing happens unless the user confirms; when
        the main process cleared its history, the local history, the list on
        screen and the search term and box are reset too, and the window is
        hidden. When the request fails, nothing changes. */
    method ClearAllHistory(e: MainProcess.Engine, confirmed: bool, requestFails: bool)
      requires Valid()
      modifies this`clipboardHistory, this`filteredHistory, this`searchTerm, this`searchInput
      modifies e`clipboardHistory, e`stored, e`isVisible
      ensures Valid()
      ensures confirmed && !requestFails ==>
        clipboardHistory == [] && filteredHistory == [] && searchTerm == "" && searchInput == "" &&
        e.clipboardHistory == [] && e.stored == [] && !e.isVisible
      ensures !(confirmed && !requestFails) ==>
        clipboardHistory == old(clipboardHistory) && filteredHistory == old(filteredHistory) &&
        searchTerm == old(searchTerm) && searchInput == old(searchInput) &&
        e.clipboardHistory == old(e.clipboardHistory) && e.stored == old(e.stored) &&
        e.isVisible == old(e.isVisible)
      ensures selectedIndex == old(selectedIndex)
    {
      if confirmed && !requestFails {
        var _ := e.ClearHistory();
        clipboardHistory := [];
        filteredHistory := [];
        searchTerm := "";
        searchInput := "";
        e.HideWindow();
      }
    }

    /** A key press in the popup. The rows on screen are the filtered list.
        Arrow keys move the selection one row, never above -1 (no row) and,
        going down, never past the last row; Escape clears it. Enter pastes
        and Delete deletes the selected entry, only when a row is selected
        and exists; its id goes through the row's `data-id` attribute. A
        failed delete request changes nothing. */
    method HandleKeyboardNavigation(e: MainProcess.Engine, key: Key, requestFails: bool) returns (acted: bool)
      requires Valid()
      modifies this`selectedIndex, this`clipboardHistory, this`filteredHistory
      modifies e`clipboard, e`isVisible, e`isPastingFromManager, e`clipboardHistory, e`stored
      ensures Valid()
      ensures key == ArrowDown ==> selectedIndex == Min(old(selectedIndex) + 1, |old(filteredHistory)| - 1)
      ensures key == ArrowUp ==> selectedIndex == Max(old(selectedIndex) - 1, -1)
      ensures key == Escape ==> selectedIndex == -1
      ensures key != ArrowDown && key != ArrowUp && key != Escape ==> selectedIndex == old(selectedIndex)
      ensures -1 <= old(selectedIndex) < |old(filteredHistory)| && (key == ArrowDown || key == ArrowUp || key == Escape) ==>
        -1 <= selectedIndex < |filteredHistory|
      ensures acted <==> (key == Enter || key == Delete) && 0 <= old(selectedIndex) < |old(filteredHistory)|
      ensures !acted ==> unchanged(e) && clipboardHistory == old(clipboardHistory) && filteredHistory == old(filteredHistory)
      ensures e.lastContent == old(e.lastContent)
      ensures acted && key == Enter ==>
        var id := old(filteredHistory)[old(selectedIndex)].id;
        e.isPastingFromManager &&
        e.clipboardHistory == old(e.clipboardHistory) && e.stored == old(e.stored) &&
        clipboardHistory == old(clipboardHistory) && filteredHistory == old(filteredHistory) &&
        ((exists i :: 0 <= i < |e.clipboardHistory| && e.clipboardHistory[i].id == id) ==>
          e.clipboard == FindById(e.clipboardHistory, id).value.content && !e.isVisible) &&
        ((forall i :: 0 <= i < |e.clipboardHistory| ==> e.clipboardHistory[i].id != id) ==>
          e.clipboard == old(e.clipboard) && e.isVisible == old(e.isVisible))
      ensures acted && key == Delete ==>
        e.clipboard == old(e.clipboard) && e.isVisible == old(e.isVisible) &&
        e.isPastingFromManager == old(e.isPastingFromManager)
      ensures acted && key == Delete && !requestFails ==>
        var id := old(filteredHistory)[old(selectedIndex)].id;
        e.clipboardHistory == WithoutId(old(e.clipboardHistory), id) && e.stored == e.clipboardHistory &&
        clipboardHistory == e.clipboardHistory && filteredHistory == FilterHistory(e.clipboardHistory, searchTerm)
      ensures acted && key == Delete && requestFails ==>
        e.clipboardHistory == old(e.clipboardHistory) && e.stored == old(e.stored) &&
        clipboardHistory == old(clipboardHistory) && filteredHistory == old(filteredHistory)
    {
      var items := filteredHistory;
      acted := false;
      match key {
        case ArrowDown =>
          selectedIndex := Min(selectedIndex + 1, |items| - 1);
        case ArrowUp =>
          selectedIndex := Max(selectedIndex - 1, -1);
        case Enter =>
          if selectedIndex >= 0 && selectedIndex < |items| {
            var itemId := ParseInt(IntToString(items[selectedIndex].id));
            ParseIntOfIntToString(items[selectedIndex].id);
            var _ := PasteItem(e, itemId.value);
            acted := true;
          }
        case Escape =>
          selectedIndex := -1;
        case Delete =>
          if selectedIndex >= 0 && selectedIndex < |items| {
            var itemId := ParseInt(IntToString(items[selectedIndex].id));
            ParseIntOfIntToString(items[selectedIndex].id);
            DeleteItem(e, itemId.value, requestFails);
            acted := true;
          }
        case OtherKey =>
      }
    }
  }
}
