/** The clipboard history as a value: its entries, the policy by which a
    capture enters it (remove the older copy of the same content, put the
    new entry in front, keep at most MAX_HISTORY_SIZE entries), removal by
    id, and lookup by id. The main process keeps one such sequence and
    replaces it by these functions' results. */
module History {
  import opened Wrappers
  import opened Seqs

  /** Number of entries the history keeps. */
  const MAX_HISTORY_SIZE: nat := 50
  /** Number of leading characters of a text entry shown as its preview. */
  const PREVIEW_LENGTH: nat := 100
  /** Preview shown for an entry that is not text. */
  const IMAGE_PREVIEW: string := "Image"

  /** The `type` field of an entry: `'text'` or anything else. */
  datatype Kind = Text | Image

  /** One captured clipboard value. `id` and `timestamp` are both the
      capture time in milliseconds; `preview` is computed once, at capture. */
  datatype Entry = Entry(id: int, content: string, kind: Kind, timestamp: int, preview: string)

  function Min(a: int, b: int): int
  {
    if a <= b then a else b
  }

  /** `content.substring(0, 100)` for text, the fixed placeholder otherwise. */
  function Preview(content: string, kind: Kind): (p: string)
    ensures kind == Text ==> p <= content && |p| == Min(|content|, PREVIEW_LENGTH)
    ensures kind == Image ==> p == IMAGE_PREVIEW
  {
    if kind == Image then IMAGE_PREVIEW
    else if |content| <= PREVIEW_LENGTH then content
    else content[..PREVIEW_LENGTH]
  }

  /** The entry a capture at time `now` creates. */
  function NewEntry(content: string, kind: Kind, now: int): Entry
  {
    Entry(now, content, kind, now, Preview(content, kind))
  }

  /** The filter callback `item => item.content !== content`. */
  function OtherContent(content: string): Entry -> bool
  {
    (e: Entry) => e.content != content
  }

  /** The filter callback `item => item.id !== itemId`. */
  function OtherId(id: int): Entry -> bool
  {
    (e: Entry) => e.id != id
  }

  /** No two entries share their content. */
  ghost predicate DistinctContents(h: seq<Entry>)
  {
    forall i, j :: 0 <= i < j < |h| ==> h[i].content != h[j].content
  }

  /** The invariant the history store is designed to keep. */
  ghost predicate WellFormed(h: seq<Entry>)
  {
    |h| <= MAX_HISTORY_SIZE && DistinctContents(h)
  }

  /** The history after capturing `content` at time `now`: older entries with
      the same content are removed, the new entry goes in front and the
      sequence is cut to MAX_HISTORY_SIZE from the oldest end. */
  function Added(h: seq<Entry>, content: string, kind: Kind, now: int): (r: seq<Entry>)
    ensures 1 <= |r| <= MAX_HISTORY_SIZE && r[0] == NewEntry(content, kind, now)
  {
    var bumped := [NewEntry(content, kind, now)] + Keep(h, OtherContent(content));
    if |bumped| > MAX_HISTORY_SIZE then bumped[..MAX_HISTORY_SIZE] else bumped
  }

  /** The history after deleting the entries with id `id`. */
  function WithoutId(h: seq<Entry>, id: int): (r: seq<Entry>)
    ensures |r| <= |h|
    ensures forall i :: 0 <= i < |r| ==> r[i].id != id
  {
    Keep(h, OtherId(id))
  }

  /** `clipboardHistory.find(item => item.id === itemId)`: the first entry
      with that id, or nothing when no entry has it. */
  function FindById(h: seq<Entry>, id: int): (r: Option<Entry>)
    ensures r.None? <==> forall i :: 0 <= i < |h| ==> h[i].id != id
    ensures r.Some? ==> r.value.id == id
    ensures r.Some? ==>
      exists i :: 0 <= i < |h| && h[i] == r.value && forall j :: 0 <= j < i ==> h[j].id != id
  {
    if h == [] then None
    else if h[0].id == id then Some(h[0])
    else
      var r := FindById(h[1..], id);
      if r.Some? then
        var k :| 0 <= k < |h[1..]| && h[1..][k] == r.value && forall j :: 0 <= j < k ==> h[1..][j].id != id;
        assert h[k + 1] == r.value && forall j :: 0 <= j < k + 1 ==> h[j].id != id;
        r
      else r
  }

  /** The lookup answers with the entry at the first position holding the
      id, and only that one. */
  lemma {:induction false} FindByIdFirst(h: seq<Entry>, id: int, i: nat)
    requires i < |h| && h[i].id == id
    requires forall j :: 0 <= j < i ==> h[j].id != id
    ensures FindById(h, id) == Some(h[i])
  {
    if i > 0 {
      FindByIdFirst(h[1..], id, i - 1);
    }
  }

  // ---------------------------------------------------------------------
  // Capture

  /** The captured value is in front, with id and timestamp both `now` and
      the preview its first 100 characters (or the image placeholder). */
  lemma AddedFront(h: seq<Entry>, content: string, kind: Kind, now: int)
    ensures var r := Added(h, content, kind, now);
      |r| >= 1 && r[0].content == content && r[0].kind == kind &&
      r[0].id == now && r[0].timestamp == now &&
      r[0].preview == if kind == Text then content[..Min(|content|, PREVIEW_LENGTH)] else "Image"
  {
  }

  /** Exactly one entry holds the captured content: the front one. A value
      captured again is bumped, never repeated. */
  lemma AddedUniqueContent(h: seq<Entry>, content: string, kind: Kind, now: int)
    ensures var r := Added(h, content, kind, now);
      forall i :: 0 <= i < |r| ==> (r[i].content == content <==> i == 0)
  {
    var r := Added(h, content, kind, now);
    var k := Keep(h, OtherContent(content));
    forall i | 0 < i < |r| ensures r[i].content != content {
      assert r[i] == k[i - 1];
      assert OtherContent(content)(k[i - 1]);
    }
  }

  /** The length never exceeds MAX_HISTORY_SIZE, and only the oldest entries
      are dropped: behind the new entry stand the surviving older entries
      with other content, newest first, cut at the oldest end only when the
      history is full. */
  lemma AddedEvictsOldest(h: seq<Entry>, content: string, kind: Kind, now: int)
    ensures var r := Added(h, content, kind, now);
      var others := Keep(h, OtherContent(content));
      1 <= |r| <= MAX_HISTORY_SIZE &&
      r[1..] <= others &&
      |r| == Min(|others| + 1, MAX_HISTORY_SIZE)
  {
    var r := Added(h, content, kind, now);
    var others := Keep(h, OtherContent(content));
    assert r[1..] == ([NewEntry(content, kind, now)] + others)[1..|r|];
  }

  /** The entries behind the new one appear in `h`, in the same relative
      order, and none of them holds the captured content. */
  lemma AddedKeepsOrder(h: seq<Entry>, content: string, kind: Kind, now: int)
    ensures var r := Added(h, content, kind, now);
      SubsequenceOf(r[1..], h) &&
      forall i :: 1 <= i < |r| ==> r[i] in h && r[i].content != content
  {
    var r := Added(h, content, kind, now);
    var others := Keep(h, OtherContent(content));
    AddedEvictsOldest(h, content, kind, now);
    PrefixIsSubsequence(r[1..], others);
    KeepIsSubsequence(h, OtherContent(content));
    SubsequenceTransitive(r[1..], others, h);
    AddedUniqueContent(h, content, kind, now);
    SubsequenceMembers(r[1..], h);
    forall i | 1 <= i < |r| ensures r[i] in h {
      assert r[i] == r[1..][i - 1];
    }
  }

  /** While the history is not full, nothing but the older copy of the
      captured content leaves it. */
  lemma AddedKeepsOthersWhenRoom(h: seq<Entry>, content: string, kind: Kind, now: int)
    requires |h| < MAX_HISTORY_SIZE
    ensures var r := Added(h, content, kind, now);
      r == [NewEntry(content, kind, now)] + Keep(h, OtherContent(content)) &&
      forall i :: 0 <= i < |h| && h[i].content != content ==> h[i] in r
  {
    var others := Keep(h, OtherContent(content));
    var r := Added(h, content, kind, now);
    assert r == [NewEntry(content, kind, now)] + others;
    KeepRetains(h, OtherContent(content));
    forall i | 0 <= i < |h| && h[i].content != content ensures h[i] in r {
      assert h[i] in others;
    }
  }

  /** Capturing a value already present moves it to the front and leaves the
      other entries where they were: `[A, B, C]` with `B` captured again
      becomes `[B', A, C]`. */
  lemma AddedBumps(h: seq<Entry>, j: nat, kind: Kind, now: int)
    requires j < |h| && WellFormed(h)
    ensures Added(h, h[j].content, kind, now) ==
      [NewEntry(h[j].content, kind, now)] + h[..j] + h[j + 1..]
  {
    var c := h[j].content;
    KeepDropsOne(h, j);
    assert |Keep(h, OtherContent(c))| == |h| - 1;
  }

  /** Removing the content of entry `j` from a history with distinct
      contents removes entry `j` and nothing else. */
  lemma KeepDropsOne(h: seq<Entry>, j: nat)
    requires j < |h| && DistinctContents(h)
    ensures Keep(h, OtherContent(h[j].content)) == h[..j] + h[j + 1..]
  {
    var p := OtherContent(h[j].content);
    var before, after := h[..j], h[j + 1..];
    forall i | 0 <= i < |before| ensures p(before[i]) {
      assert before[i] == h[i];
    }
    forall i | 0 <= i < |after| ensures p(after[i]) {
      assert after[i] == h[j + 1 + i];
    }
    assert h == before + [h[j]] + after;
    KeepDropsMiddle(before, h[j], after, p);
  }

  /** Capturing the same value twice in a row leaves one entry for it:
      the second capture only renews the front entry. From an empty history
      the result has length 1. */
  lemma AddedTwice(h: seq<Entry>, content: string, kind: Kind, t1: int, t2: int)
    ensures var once := Added(h, content, kind, t1);
      Added(once, content, kind, t2) == [NewEntry(content, kind, t2)] + once[1..]
    ensures |Added(Added([], content, kind, t1), content, kind, t2)| == 1
  {
    var once := Added(h, content, kind, t1);
    KeepOfAddedIsTail(h, content, kind, t1);
    AddedEvictsOldest(h, content, kind, t1);
  }

  /** Right after a capture, removing the captured content again leaves the
      entries behind the new one. */
  lemma KeepOfAddedIsTail(h: seq<Entry>, content: string, kind: Kind, now: int)
    ensures var once := Added(h, content, kind, now);
      Keep(once, OtherContent(content)) == once[1..]
  {
    var once := Added(h, content, kind, now);
    var p := OtherContent(content);
    AddedUniqueContent(h, content, kind, now);
    assert once == [once[0]] + once[1..];
    KeepConcat([once[0]], once[1..], p);
    assert Keep([once[0]], p) == [];
    forall i | 0 <= i < |once[1..]| ensures p(once[1..][i]) {
      assert once[1..][i] == once[i + 1];
    }
    KeepAll(once[1..], p);
  }

  /** Capturing a short text into an empty history. */
  lemma AddedToEmpty(content: string, now: int)
    requires |content| <= PREVIEW_LENGTH
    ensures Added([], content, Text, now) == [Entry(now, content, Text, now, content)]
  {
  }

  /** Capturing a new short text in front of a history that has room. */
  lemma AddedBehind(h: seq<Entry>, content: string, now: int)
    requires |content| <= PREVIEW_LENGTH && |h| < MAX_HISTORY_SIZE
    requires forall i :: 0 <= i < |h| ==> h[i].content != content
    ensures Added(h, content, Text, now) == [Entry(now, content, Text, now, content)] + h
  {
    KeepAll(h, OtherContent(content));
  }

  /** A subsequence of a history with distinct contents has distinct contents. */
  lemma {:induction false} SubsequenceDistinct(r: seq<Entry>, s: seq<Entry>)
    requires SubsequenceOf(r, s) && DistinctContents(s)
    ensures DistinctContents(r)
    decreases |s|
  {
    if r != [] {
      assert DistinctContents(s[1..]) by {
        forall i, j | 0 <= i < j < |s[1..]| ensures s[1..][i].content != s[1..][j].content {
          assert s[1..][i] == s[i + 1] && s[1..][j] == s[j + 1];
        }
      }
      if r[0] == s[0] && SubsequenceOf(r[1..], s[1..]) {
        SubsequenceDistinct(r[1..], s[1..]);
        SubsequenceMembers(r[1..], s[1..]);
        forall i, j | 0 <= i < j < |r| ensures r[i].content != r[j].content {
          if i == 0 {
            assert r[j] == r[1..][j - 1];
            var m :| 0 <= m < |s[1..]| && s[1..][m] == r[j];
            assert s[m + 1] == r[j];
          } else {
            assert r[i] == r[1..][i - 1] && r[j] == r[1..][j - 1];
          }
        }
      } else {
        SubsequenceDistinct(r, s[1..]);
      }
    }
  }

  /** Capture keeps the store invariant: the length bound always holds
      afterwards, and contents stay pairwise distinct if they were. */
  lemma AddedWellFormed(h: seq<Entry>, content: string, kind: Kind, now: int)
    requires DistinctContents(h)
    ensures WellFormed(Added(h, content, kind, now))
  {
    var r := Added(h, content, kind, now);
    AddedKeepsOrder(h, content, kind, now);
    AddedEvictsOldest(h, content, kind, now);
    SubsequenceDistinct(r[1..], h);
    forall i, j | 0 <= i < j < |r| ensures r[i].content != r[j].content {
      if i > 0 {
        assert r[i] == r[1..][i - 1] && r[j] == r[1..][j - 1];
      }
    }
  }

  // ---------------------------------------------------------------------
  // Deletion

  /** Deletion removes exactly the entries with the given id and keeps the
      others in their order; when some entry has the id, the history
      becomes shorter. */
  lemma DeleteRemovesExactly(h: seq<Entry>, id: int)
    ensures var r := WithoutId(h, id);
      SubsequenceOf(r, h) &&
      (forall i :: 0 <= i < |r| ==> r[i] in h && r[i].id != id) &&
      (forall i :: 0 <= i < |h| && h[i].id != id ==> h[i] in r) &&
      (forall x :: multiset(r)[x] == if x.id != id then multiset(h)[x] else 0) &&
      ((exists i :: 0 <= i < |h| && h[i].id == id) ==> |r| < |h|)
  {
    var p := OtherId(id);
    KeepIsSubsequence(h, p);
    KeepSelects(h, p);
    KeepRetains(h, p);
    KeepMultiset(h, p);
    forall i | 0 <= i < |WithoutId(h, id)| ensures WithoutId(h, id)[i].id != id {
      assert p(WithoutId(h, id)[i]);
    }
    if exists i :: 0 <= i < |h| && h[i].id == id {
      var i :| 0 <= i < |h| && h[i].id == id;
      KeepShorter(h, p, i);
    }
  }

  /** Deleting an id no entry has leaves the history unchanged. */
  lemma DeleteUnknownIdIsNoop(h: seq<Entry>, id: int)
    requires forall i :: 0 <= i < |h| ==> h[i].id != id
    ensures WithoutId(h, id) == h
  {
    KeepAll(h, OtherId(id));
  }

  /** Deleting the same id twice is deleting it once. */
  lemma DeleteIdempotent(h: seq<Entry>, id: int)
    ensures WithoutId(WithoutId(h, id), id) == WithoutId(h, id)
  {
    KeepIdempotent(h, OtherId(id));
  }

  /** Deletion keeps the store invariant. */
  lemma DeleteWellFormed(h: seq<Entry>, id: int)
    requires WellFormed(h)
    ensures WellFormed(WithoutId(h, id))
  {
    KeepIsSubsequence(h, OtherId(id));
    SubsequenceDistinct(WithoutId(h, id), h);
  }
}
