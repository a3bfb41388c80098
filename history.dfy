/**
  The analysis history kept in the browser's local storage.

  The stored value is a JSON array of items under one storage key; reading it
  back sorts the items newest first. Saving deduplicates by original text,
  deleting filters by id, clearing removes the key, searching filters the
  history case-insensitively, and importing merges an imported array with
  the history, keeping one item per text, then sorts and caps the result.

  Storage is the field of the class `HistoryStorage`; what it holds is
  modelled after JSON decoding (`Stored`), ids and clock readings are
  parameters, and the pure functions below are the specification its
  methods are proved against.
 */
module History {
  import opened Wrappers
  import opened Sequences
  import opened JsString

  /** At most this many items are written back by a save or an import. */
  const MaxHistoryItems: nat := 100

  datatype Token = Token(word: string, pos: string, furigana: Option<string>, romaji: Option<string>)

  datatype HistoryItem = HistoryItem(
    id: string,
    timestamp: int,
    originalText: string,
    tokens: seq<Token>,
    translation: Option<string>)

  /**
    The storage slot after decoding: no value (or the empty string), a value
    that `JSON.parse` rejects or that is not an array, or an array of items.
   */
  datatype Stored = Absent | Unparseable | Present(items: seq<HistoryItem>)

  // ---------------------------------------------------------------------------
  // Sorting newest first (`sort((a, b) => b.timestamp - a.timestamp)`)

  /** Non-increasing timestamps. */
  predicate NewestFirst(s: seq<HistoryItem>) {
    forall i, j :: 0 <= i < j < |s| ==> s[i].timestamp >= s[j].timestamp
  }

  /** No item is newer than `t`. */
  predicate NoneNewerThan(t: int, s: seq<HistoryItem>) {
    forall j :: 0 <= j < |s| ==> s[j].timestamp <= t
  }

  /** Place `x` before the first item that is not strictly newer than it. */
  function Insert(x: HistoryItem, s: seq<HistoryItem>): (r: seq<HistoryItem>)
    ensures |r| == |s| + 1
    ensures multiset(r) == multiset(s) + multiset{x}
  {
    if s == [] || x.timestamp >= s[0].timestamp then [x] + s
    else
      assert s == [s[0]] + s[1..];
      [s[0]] + Insert(x, s[1..])
  }

  /**
    The comparator sort: `Array.prototype.sort` is stable, so items with equal
    timestamps keep their order. Defined by insertion from the back.
   */
  function SortNewestFirst(s: seq<HistoryItem>): (r: seq<HistoryItem>)
    ensures |r| == |s|
  {
    if s == [] then [] else Insert(s[0], SortNewestFirst(s[1..]))
  }

  lemma PrependNewestFirst(a: HistoryItem, r: seq<HistoryItem>)
    requires NewestFirst(r) && NoneNewerThan(a.timestamp, r)
    ensures NewestFirst([a] + r)
  {
    var s := [a] + r;
    forall i, j | 0 <= i < j < |s|
      ensures s[i].timestamp >= s[j].timestamp
    {
      assert s[j] == r[j - 1];
      if i > 0 {
        assert s[i] == r[i - 1];
      }
    }
  }

  lemma TailNoneNewer(s: seq<HistoryItem>)
    requires NewestFirst(s) && s != []
    ensures NewestFirst(s[1..]) && NoneNewerThan(s[0].timestamp, s[1..])
  {
    assert forall j :: 0 <= j < |s| - 1 ==> s[1..][j] == s[j + 1];
  }

  lemma {:induction false} InsertNoneNewer(t: int, x: HistoryItem, s: seq<HistoryItem>)
    requires NoneNewerThan(t, s) && x.timestamp <= t
    ensures NoneNewerThan(t, Insert(x, s))
  {
    if s != [] && x.timestamp < s[0].timestamp {
      InsertNoneNewer(t, x, s[1..]);
      var r := Insert(x, s[1..]);
      assert forall j :: 0 <= j < |r| ==> ([s[0]] + r)[j + 1] == r[j];
    }
  }

  lemma {:induction false} InsertNewestFirst(x: HistoryItem, s: seq<HistoryItem>)
    requires NewestFirst(s)
    ensures NewestFirst(Insert(x, s))
  {
    if s == [] {
    } else if x.timestamp >= s[0].timestamp {
      TailNoneNewer(s);
      PrependNewestFirst(x, s);
    } else {
      TailNoneNewer(s);
      InsertNewestFirst(x, s[1..]);
      InsertNoneNewer(s[0].timestamp, x, s[1..]);
      PrependNewestFirst(s[0], Insert(x, s[1..]));
    }
  }

  /** The sort's result is a permutation of its input. */
  lemma {:induction false} SortPermutes(s: seq<HistoryItem>)
    ensures multiset(SortNewestFirst(s)) == multiset(s)
  {
    if s != [] {
      SortPermutes(s[1..]);
      assert s == [s[0]] + s[1..];
    }
  }

  /** The sort's result is newest first. */
  lemma {:induction false} SortIsSorted(s: seq<HistoryItem>)
    ensures NewestFirst(SortNewestFirst(s))
  {
    if s != [] {
      SortIsSorted(s[1..]);
      InsertNewestFirst(s[0], SortNewestFirst(s[1..]));
    }
  }

  /** The items carrying timestamp `t`, in order. */
  function WithTimestamp(s: seq<HistoryItem>, t: int): seq<HistoryItem> {
    if s == [] then []
    else (if s[0].timestamp == t then [s[0]] else []) + WithTimestamp(s[1..], t)
  }

  lemma {:induction false} InsertStable(x: HistoryItem, s: seq<HistoryItem>, t: int)
    ensures WithTimestamp(Insert(x, s), t) == WithTimestamp([x] + s, t)
  {
    if s != [] && x.timestamp < s[0].timestamp {
      var rest := Insert(x, s[1..]);
      InsertStable(x, s[1..], t);
      assert ([s[0]] + rest)[1..] == rest;
      assert ([x] + s)[1..] == s;
      assert ([x] + s[1..])[1..] == s[1..];
      var hx := if x.timestamp == t then [x] else [];
      var h0 := if s[0].timestamp == t then [s[0]] else [];
      var w := WithTimestamp(s[1..], t);
      assert WithTimestamp(Insert(x, s), t) == h0 + (hx + w);
      assert WithTimestamp([x] + s, t) == hx + (h0 + w);
      assert hx == [] || h0 == [];
    }
  }

  /** Stability: for every timestamp, the items carrying it appear in the result in their input order. */
  lemma {:induction false} SortIsStable(s: seq<HistoryItem>, t: int)
    ensures WithTimestamp(SortNewestFirst(s), t) == WithTimestamp(s, t)
  {
    if s != [] {
      SortIsStable(s[1..], t);
      InsertStable(s[0], SortNewestFirst(s[1..]), t);
      assert ([s[0]] + SortNewestFirst(s[1..]))[1..] == SortNewestFirst(s[1..]);
    }
  }

  /** A list already newest first is left as it is. */
  lemma {:induction false} SortKeepsSorted(s: seq<HistoryItem>)
    requires NewestFirst(s)
    ensures SortNewestFirst(s) == s
  {
    if s != [] {
      TailNoneNewer(s);
      SortKeepsSorted(s[1..]);
      assert s == [s[0]] + s[1..];
    }
  }

  // ---------------------------------------------------------------------------
  // Reading (`getAnalysisHistory`)

  /** The history as read back: nothing for an empty or broken slot, else the stored items newest first. */
  function GetAnalysisHistory(stored: Stored): (r: seq<HistoryItem>)
    ensures stored.Present? ==> |r| == |stored.items|
    ensures !stored.Present? ==> r == []
  {
    if stored.Present? then SortNewestFirst(stored.items) else []
  }

  /** What is read back is newest first, and holds exactly the stored items. */
  lemma HistoryIsSorted(stored: Stored)
    ensures NewestFirst(GetAnalysisHistory(stored))
    ensures stored.Present? ==> multiset(GetAnalysisHistory(stored)) == multiset(stored.items)
  {
    if stored.Present? {
      SortIsSorted(stored.items);
      SortPermutes(stored.items);
    }
  }

  // ---------------------------------------------------------------------------
  // Distinct texts

  predicate DistinctTexts(s: seq<HistoryItem>) {
    forall i, j :: 0 <= i < j < |s| ==> s[i].originalText != s[j].originalText
  }

  /** The original texts of the items. */
  function Texts(s: seq<HistoryItem>): set<string> {
    set x | x in s :: x.originalText
  }

  lemma RepeatCounted(r: seq<HistoryItem>, i: nat, j: nat)
    requires i < j < |r| && r[i] == r[j]
    ensures multiset(r)[r[i]] >= 2
  {
    assert r == r[..i] + [r[i]] + r[i + 1..j] + [r[j]] + r[j + 1..];
  }

  /** In a list with distinct texts an item occurs once. */
  lemma {:induction false} TextsUnique(s: seq<HistoryItem>, a: nat)
    requires DistinctTexts(s) && a < |s|
    ensures multiset(s)[s[a]] == 1
  {
    assert s == [s[0]] + s[1..];
    if a == 0 {
      assert s[0] !in s[1..];
    } else {
      TextsUnique(s[1..], a - 1);
      assert s[0] != s[a];
    }
  }

  /** Distinct texts survive any rearrangement. */
  lemma DistinctPermutation(s: seq<HistoryItem>, r: seq<HistoryItem>)
    requires DistinctTexts(s) && multiset(r) == multiset(s)
    ensures DistinctTexts(r)
  {
    forall i, j | 0 <= i < j < |r|
      ensures r[i].originalText != r[j].originalText
    {
      assert r[i] in multiset(s);
      var a :| 0 <= a < |s| && s[a] == r[i];
      assert r[j] in multiset(s);
      var b :| 0 <= b < |s| && s[b] == r[j];
      if a == b {
        RepeatCounted(r, i, j);
        TextsUnique(s, a);
      }
    }
  }

  // ---------------------------------------------------------------------------
  // Saving (`saveAnalysisToHistory`)

  /** `slice(0, n)`. */
  function Take<T>(s: seq<T>, n: nat): (r: seq<T>)
    ensures |r| == if |s| <= n then |s| else n
    ensures forall i :: 0 <= i < |r| ==> r[i] == s[i]
  {
    if |s| <= n then s else s[..n]
  }

  /** `find(item => item.originalText === text)` as a position. */
  function FindText(s: seq<HistoryItem>, text: string): (r: Option<nat>)
    ensures r.Some? ==> r.value < |s| && s[r.value].originalText == text
    ensures r.Some? ==> forall j :: 0 <= j < r.value ==> s[j].originalText != text
    ensures r.None? ==> forall j :: 0 <= j < |s| ==> s[j].originalText != text
  {
    if s == [] then None
    else if s[0].originalText == text then Some(0)
    else match FindText(s[1..], text)
      case None => None
      case Some(i) => Some(i + 1)
  }

  /** A translation counts only when it is present and non-empty. */
  predicate Truthy(t: Option<string>) {
    t.Some? && t.value != []
  }

  /** The existing item refreshed in place: new time and tokens, and the new translation if truthy. */
  function Refresh(item: HistoryItem, tokens: seq<Token>, translation: Option<string>, now: int): HistoryItem {
    item.(timestamp := now, tokens := tokens, translation := if Truthy(translation) then translation else item.translation)
  }

  /** The list written back by a save on top of the history `h` read first. */
  function SaveInto(h: seq<HistoryItem>, text: string, tokens: seq<Token>, translation: Option<string>,
                    now: int, freshId: string): seq<HistoryItem> {
    match FindText(h, text)
    case Some(k) => Take(h[k := Refresh(h[k], tokens, translation, now)], MaxHistoryItems)
    case None => Take([HistoryItem(freshId, now, text, tokens, translation)] + h, MaxHistoryItems)
  }

  /**
    A new text is prepended as one new item (the oldest items beyond 100
    dropped); a known text is refreshed where it stands, and nothing is
    added. Either way at most 100 items are written.
   */
  lemma SaveEffect(h: seq<HistoryItem>, text: string, tokens: seq<Token>, translation: Option<string>,
                   now: int, freshId: string)
    ensures var r := SaveInto(h, text, tokens, translation, now, freshId);
      && |r| <= MaxHistoryItems
      && (FindText(h, text).None? ==>
            && |r| == (if |h| < MaxHistoryItems then |h| + 1 else MaxHistoryItems)
            && r[0] == HistoryItem(freshId, now, text, tokens, translation)
            && (forall i :: 1 <= i < |r| ==> r[i] == h[i - 1]))
      && (FindText(h, text).Some? ==>
            var k := FindText(h, text).value;
            && |r| == (if |h| <= MaxHistoryItems then |h| else MaxHistoryItems)
            && (forall i :: 0 <= i < |r| && i != k ==> r[i] == h[i])
            && (k < |r| ==>
                  && r[k].id == h[k].id && r[k].originalText == text && r[k].timestamp == now && r[k].tokens == tokens
                  && r[k].translation == (if Truthy(translation) then translation else h[k].translation)))
  {
  }

  /** Saving keeps the original texts distinct. */
  lemma SaveKeepsDistinct(h: seq<HistoryItem>, text: string, tokens: seq<Token>, translation: Option<string>,
                          now: int, freshId: string)
    requires DistinctTexts(h)
    ensures DistinctTexts(SaveInto(h, text, tokens, translation, now, freshId))
  {
    var r := SaveInto(h, text, tokens, translation, now, freshId);
    match FindText(h, text)
    case Some(k) =>
      assert forall i :: 0 <= i < |r| ==> r[i].originalText == h[i].originalText;
    case None =>
      var full := [HistoryItem(freshId, now, text, tokens, translation)] + h;
      assert forall i :: 1 <= i < |full| ==> full[i] == h[i - 1];
      assert DistinctTexts(full);
  }

  // ---------------------------------------------------------------------------
  // Deleting (`deleteHistoryItem`)

  function DeleteFrom(h: seq<HistoryItem>, id: string): seq<HistoryItem> {
    Filter(h, (x: HistoryItem) => x.id != id)
  }

  /** A filter of a newest-first list is newest first. */
  lemma {:induction false} FilterNewestFirst(s: seq<HistoryItem>, p: HistoryItem -> bool)
    requires NewestFirst(s)
    ensures NewestFirst(Filter(s, p))
  {
    if s != [] {
      FilterNewestFirst(s[1..], p);
      var rest := Filter(s[1..], p);
      if p(s[0]) {
        forall j | 0 <= j < |rest|
          ensures s[0].timestamp >= rest[j].timestamp
        {
          assert rest[j] in s[1..];
        }
        assert Filter(s, p) == [s[0]] + rest;
      } else {
        assert Filter(s, p) == rest;
      }
    }
  }

  /**
    Deleting removes exactly the items with that id; the others stay, as
    often as they were there, in their order, so newest first.
   */
  lemma DeleteEffect(stored: Stored, id: string)
    ensures var h, r := GetAnalysisHistory(stored), DeleteFrom(GetAnalysisHistory(stored), id);
      && (forall x :: x in r <==> x in h && x.id != id)
      && (forall x :: multiset(r)[x] == if x.id != id then multiset(h)[x] else 0)
      && IsSubsequence(r, h)
      && NewestFirst(r)
  {
    HistoryIsSorted(stored);
    FilterNewestFirst(GetAnalysisHistory(stored), (x: HistoryItem) => x.id != id);
  }

  /** Deleting twice writes what deleting once wrote. */
  lemma DeleteIdempotent(stored: Stored, id: string)
    ensures var once := DeleteFrom(GetAnalysisHistory(stored), id);
      DeleteFrom(GetAnalysisHistory(Present(once)), id) == once
  {
    var once := DeleteFrom(GetAnalysisHistory(stored), id);
    DeleteEffect(stored, id);
    SortKeepsSorted(once);
    FilterAll(once, (x: HistoryItem) => x.id != id);
  }

  // ---------------------------------------------------------------------------
  // Searching (`searchHistory`)

  /** The original text, or a truthy translation, contains the lowered query once lowered. */
  predicate Matches(item: HistoryItem, lowerQuery: string) {
    || Contains(ToLower(item.originalText), lowerQuery)
    || (Truthy(item.translation) && Contains(ToLower(item.translation.value), lowerQuery))
  }

  /**
    A blank query (empty or only whitespace) returns the whole history;
    otherwise the items matching the query, lowered but not trimmed, in
    history order.
   */
  function Search(stored: Stored, query: string): (r: seq<HistoryItem>)
    ensures Trim(query) == [] ==> r == GetAnalysisHistory(stored)
    ensures Trim(query) != [] ==>
      forall x :: x in r <==> x in GetAnalysisHistory(stored) && Matches(x, ToLower(query))
    ensures Trim(query) != [] ==>
      forall x :: multiset(r)[x] == if Matches(x, ToLower(query)) then multiset(GetAnalysisHistory(stored))[x] else 0
    ensures IsSubsequence(r, GetAnalysisHistory(stored))
  {
    var h := GetAnalysisHistory(stored);
    SubsequenceOfSelf(h);
    if Trim(query) == [] then h
    else Filter(h, (x: HistoryItem) => Matches(x, ToLower(query)))
  }

  /** Search results keep the history's newest-first order. */
  lemma SearchNewestFirst(stored: Stored, query: string)
    ensures NewestFirst(Search(stored, query))
  {
    HistoryIsSorted(stored);
    if Trim(query) != [] {
      FilterNewestFirst(GetAnalysisHistory(stored), (x: HistoryItem) => Matches(x, ToLower(query)));
    }
  }

  /** The query's letter case does not matter. */
  lemma SearchIgnoresCase(stored: Stored, a: string, b: string)
    requires ToLower(a) == ToLower(b) && Trim(a) != [] && Trim(b) != []
    ensures Search(stored, a) == Search(stored, b)
  {
  }

  // ---------------------------------------------------------------------------
  // Importing (`importHistory`): the `reduce` that keeps one item per text

  /**
    One step of the `reduce`: an unseen text is appended; a seen one is
    replaced, in place, only by a strictly newer item.
   */
  function Merge(acc: seq<HistoryItem>, item: HistoryItem): seq<HistoryItem> {
    match FindText(acc, item.originalText)
    case None => acc + [item]
    case Some(k) => if item.timestamp > acc[k].timestamp then acc[k := item] else acc
  }

  /** The `reduce` over `s` from an empty accumulator. */
  function Dedupe(s: seq<HistoryItem>): seq<HistoryItem> {
    if s == [] then [] else Merge(Dedupe(s[..|s| - 1]), s[|s| - 1])
  }

  lemma TextsFind(s: seq<HistoryItem>, t: string)
    ensures t in Texts(s) <==> FindText(s, t).Some?
  {
    if FindText(s, t).Some? {
      assert s[FindText(s, t).value] in s;
    }
  }

  lemma TextsSnoc(s: seq<HistoryItem>, y: HistoryItem)
    ensures Texts(s + [y]) == Texts(s) + {y.originalText}
  {
    assert y in s + [y];
  }

  lemma TextsUpdate(s: seq<HistoryItem>, k: nat, y: HistoryItem)
    requires k < |s| && y.originalText == s[k].originalText
    ensures Texts(s[k := y]) == Texts(s)
  {
    var u := s[k := y];
    forall t | t in Texts(s)
      ensures t in Texts(u)
    {
      var x :| x in s && x.originalText == t;
      var j :| 0 <= j < |s| && s[j] == x;
      assert u[j] in u;
    }
    forall t | t in Texts(u)
      ensures t in Texts(s)
    {
      var x :| x in u && x.originalText == t;
      var j :| 0 <= j < |u| && u[j] == x;
      assert s[j] in s;
    }
  }

  lemma MergeTexts(acc: seq<HistoryItem>, item: HistoryItem)
    ensures Texts(Merge(acc, item)) == Texts(acc) + {item.originalText}
  {
    TextsFind(acc, item.originalText);
    match FindText(acc, item.originalText)
    case None =>
      TextsSnoc(acc, item);
    case Some(k) =>
      if item.timestamp > acc[k].timestamp {
        TextsUpdate(acc, k, item);
      }
  }

  lemma MergeDistinct(acc: seq<HistoryItem>, item: HistoryItem)
    requires DistinctTexts(acc)
    ensures DistinctTexts(Merge(acc, item))
  {
    match FindText(acc, item.originalText)
    case None =>
      var r := acc + [item];
      assert forall i :: 0 <= i < |acc| ==> r[i] == acc[i];
    case Some(k) =>
  }

  lemma MergeFrom(acc: seq<HistoryItem>, item: HistoryItem)
    ensures forall o :: o in Merge(acc, item) ==> o in acc || o == item
  {
    match FindText(acc, item.originalText)
    case None =>
    case Some(k) =>
      if item.timestamp > acc[k].timestamp {
        forall o | o in acc[k := item]
          ensures o in acc || o == item
        {
          var j :| 0 <= j < |acc| && acc[k := item][j] == o;
          if j != k {
            assert acc[j] in acc;
          }
        }
      }
  }

  /** The `reduce` keeps exactly one item for each text of its input. */
  lemma {:induction false} DedupeTexts(s: seq<HistoryItem>)
    ensures DistinctTexts(Dedupe(s)) && Texts(Dedupe(s)) == Texts(s)
  {
    if s != [] {
      var init, last := s[..|s| - 1], s[|s| - 1];
      DedupeTexts(init);
      MergeDistinct(Dedupe(init), last);
      MergeTexts(Dedupe(init), last);
      assert s == init + [last];
      TextsSnoc(init, last);
    }
  }

  /** The `reduce` keeps only input items. */
  lemma {:induction false} DedupeFrom(s: seq<HistoryItem>)
    ensures forall o :: o in Dedupe(s) ==> o in s
  {
    if s != [] {
      var init, last := s[..|s| - 1], s[|s| - 1];
      DedupeFrom(init);
      MergeFrom(Dedupe(init), last);
      assert s == init + [last];
    }
  }

  /**
    For each text, the kept item has the greatest timestamp among the input
    items with that text, and no earlier input item with that text has the
    same timestamp: ties go to the first.
   */
  ghost predicate KeptFirstNewest(o: HistoryItem, s: seq<HistoryItem>) {
    && (forall q :: 0 <= q < |s| && s[q].originalText == o.originalText ==> s[q].timestamp <= o.timestamp)
    && exists p :: 0 <= p < |s| && s[p] == o
        && forall q :: 0 <= q < p && s[q].originalText == o.originalText ==> s[q].timestamp < o.timestamp
  }

  lemma KeptExtends(o: HistoryItem, init: seq<HistoryItem>, last: HistoryItem)
    requires KeptFirstNewest(o, init)
    requires last.originalText == o.originalText ==> last.timestamp <= o.timestamp
    ensures KeptFirstNewest(o, init + [last])
  {
    var s := init + [last];
    var p :| 0 <= p < |init| && init[p] == o
      && forall q :: 0 <= q < p && init[q].originalText == o.originalText ==> init[q].timestamp < o.timestamp;
    assert s[p] == o;
    assert forall q :: 0 <= q < |init| ==> s[q] == init[q];
  }

  lemma KeptLast(init: seq<HistoryItem>, last: HistoryItem)
    requires forall q :: 0 <= q < |init| && init[q].originalText == last.originalText ==> init[q].timestamp < last.timestamp
    ensures KeptFirstNewest(last, init + [last])
  {
    var s := init + [last];
    assert s[|init|] == last;
    assert forall q :: 0 <= q < |init| ==> s[q] == init[q];
  }

  lemma KeptFresh(init: seq<HistoryItem>, last: HistoryItem)
    requires last.originalText !in Texts(init)
    ensures KeptFirstNewest(last, init + [last])
  {
    forall q | 0 <= q < |init|
      ensures init[q].originalText != last.originalText
    {
      assert init[q] in init;
    }
    KeptLast(init, last);
  }

  lemma MergeKeepsNewest(acc: seq<HistoryItem>, init: seq<HistoryItem>, last: HistoryItem)
    requires DistinctTexts(acc) && Texts(acc) == Texts(init)
    requires forall o :: o in acc ==> KeptFirstNewest(o, init)
    ensures forall o :: o in Merge(acc, last) ==> KeptFirstNewest(o, init + [last])
  {
    TextsFind(acc, last.originalText);
    match FindText(acc, last.originalText)
    case None =>
      forall o | o in acc + [last]
        ensures KeptFirstNewest(o, init + [last])
      {
        if o in acc {
          KeptExtends(o, init, last);
        } else {
          KeptFresh(init, last);
        }
      }
    case Some(k) =>
      assert acc[k] in acc;
      if last.timestamp > acc[k].timestamp {
        forall o | o in acc[k := last]
          ensures KeptFirstNewest(o, init + [last])
        {
          var j :| 0 <= j < |acc| && acc[k := last][j] == o;
          if j == k {
            KeptLast(init, last);
          } else {
            assert acc[j] in acc;
            KeptExtends(o, init, last);
          }
        }
      } else {
        forall o | o in acc
          ensures KeptFirstNewest(o, init + [last])
        {
          var j :| 0 <= j < |acc| && acc[j] == o;
          if j != k {
            assert o.originalText != last.originalText;
          }
          KeptExtends(o, init, last);
        }
      }
  }

  /** Every kept item is, for its text, the first input item with the newest timestamp. */
  lemma {:induction false} DedupeKeepsNewest(s: seq<HistoryItem>)
    ensures forall o :: o in Dedupe(s) ==> KeptFirstNewest(o, s)
  {
    if s != [] {
      var init, last := s[..|s| - 1], s[|s| - 1];
      DedupeKeepsNewest(init);
      DedupeTexts(init);
      MergeKeepsNewest(Dedupe(init), init, last);
      assert s == init + [last];
    }
  }

  /** The list an import writes: the imported items, then the history, deduplicated, sorted and capped. */
  function ImportInto(imported: seq<HistoryItem>, h: seq<HistoryItem>): seq<HistoryItem> {
    Take(SortNewestFirst(Dedupe(imported + h)), MaxHistoryItems)
  }

  /**
    After an import the written items have distinct texts, are newest first,
    number at most 100, and each is, for its text, the first of the imported
    and then the existing items with the newest timestamp.
   */
  lemma ImportEffect(imported: seq<HistoryItem>, h: seq<HistoryItem>)
    ensures var r := ImportInto(imported, h);
      && |r| <= MaxHistoryItems
      && DistinctTexts(r)
      && NewestFirst(r)
      && (forall o :: o in r ==> KeptFirstNewest(o, imported + h))
      && (|r| < MaxHistoryItems ==> Texts(r) == Texts(imported + h))
  {
    var d := Dedupe(imported + h);
    DedupeTexts(imported + h);
    DedupeKeepsNewest(imported + h);
    SortedDedupe(d);
    var sorted := SortNewestFirst(d);
    var r := ImportInto(imported, h);
    forall o | o in r
      ensures o in sorted
    {
      var i :| 0 <= i < |r| && r[i] == o;
    }
    if |r| < MaxHistoryItems {
      assert r == sorted;
    }
  }

  /** Sorting a list with distinct texts keeps the texts distinct and the same, and the items. */
  lemma SortedDedupe(d: seq<HistoryItem>)
    requires DistinctTexts(d)
    ensures var sorted := SortNewestFirst(d);
      && DistinctTexts(sorted) && NewestFirst(sorted) && Texts(sorted) == Texts(d)
      && forall o :: o in sorted ==> o in d
  {
    var sorted := SortNewestFirst(d);
    SortIsSorted(d);
    SortPermutes(d);
    DistinctPermutation(d, sorted);
    forall o | o in sorted
      ensures o in d
    {
      assert o in multiset(d);
    }
    forall o | o in d
      ensures o in sorted
    {
      assert o in multiset(sorted);
    }
  }

  // ---------------------------------------------------------------------------
  // The storage slot

  /** What `JSON.parse` made of an imported file. */
  datatype Parsed = NotJson | NotArray | Items(items: seq<HistoryItem>)

  datatype ImportError = ParseError | InvalidFormat

  class HistoryStorage {
    var stored: Stored

    constructor (initial: Stored)
      ensures stored == initial
    {
      stored := initial;
    }

    /** `saveAnalysisToHistory`: read, refresh or prepend, cap, write. */
    method Save(text: string, tokens: seq<Token>, translation: Option<string>, now: int, freshId: string)
      modifies this
      ensures stored == Present(SaveInto(GetAnalysisHistory(old(stored)), text, tokens, translation, now, freshId))
      ensures |stored.items| <= MaxHistoryItems
      ensures old(stored).Present? && DistinctTexts(old(stored).items) ==> DistinctTexts(stored.items)
    {
      var h := GetAnalysisHistory(stored);
      ghost var before := stored;
      SaveEffect(h, text, tokens, translation, now, freshId);
      if before.Present? && DistinctTexts(before.items) {
        HistoryIsSorted(before);
        DistinctPermutation(before.items, h);
        SaveKeepsDistinct(h, text, tokens, translation, now, freshId);
      }
      var updated: seq<HistoryItem>;
      var found := FindText(h, text);
      if found.Some? {
        var k := found.value;
        updated := h[k := Refresh(h[k], tokens, translation, now)];
      } else {
        updated := [HistoryItem(freshId, now, text, tokens, translation)] + h;
      }
      stored := Present(Take(updated, MaxHistoryItems));
    }

    /** `deleteHistoryItem`: read, drop the items with `id`, write. */
    method Delete(id: string)
      modifies this
      ensures stored == Present(DeleteFrom(GetAnalysisHistory(old(stored)), id))
    {
      stored := Present(DeleteFrom(GetAnalysisHistory(stored), id));
    }

    /** `clearAllHistory`: remove the slot; reading it back gives nothing. */
    method Clear()
      modifies this
      ensures stored == Absent && GetAnalysisHistory(stored) == []
    {
      stored := Absent;
    }

    /**
      `importHistory` once the file is read: a file that is not a JSON array
      is rejected and nothing is written; otherwise the merged list is
      written and the count of imported items (not of new ones) returned.
     */
    method Import(parsed: Parsed) returns (r: Result<nat, ImportError>)
      modifies this
      ensures parsed.NotJson? ==> r == Err(ParseError) && stored == old(stored)
      ensures parsed.NotArray? ==> r == Err(InvalidFormat) && stored == old(stored)
      ensures parsed.Items? ==>
        && r == Ok(|parsed.items|)
        && stored == Present(ImportInto(parsed.items, GetAnalysisHistory(old(stored))))
    {
      if parsed.NotJson? {
        return Err(ParseError);
      }
      if parsed.NotArray? {
        return Err(InvalidFormat);
      }
      var combined := parsed.items + GetAnalysisHistory(stored);
      var unique := DedupeItems(combined);
      stored := Present(Take(SortNewestFirst(unique), MaxHistoryItems));
      r := Ok(|parsed.items|);
    }
  }

  /** The `reduce` of `importHistory`: one item per text, the first of the newest kept, in order of first appearance. */
  method DedupeItems(combined: seq<HistoryItem>) returns (unique: seq<HistoryItem>)
    ensures unique == Dedupe(combined)
  {
    unique := [];
    var n := 0;
    while n < |combined|
      invariant 0 <= n <= |combined|
      invariant unique == Dedupe(combined[..n])
    {
      var item := combined[n];
      var existing := FindText(unique, item.originalText);
      if existing.None? {
        unique := unique + [item];
      } else if item.timestamp > unique[existing.value].timestamp {
        unique := unique[existing.value := item];
      }
      assert combined[..n + 1][..n] == combined[..n];
      n := n + 1;
    }
    assert combined[..n] == combined;
  }
}
