/**
  The failover key pool of app/utils/api-key-manager.ts.

  The pool is an ordered list of key records fixed at construction and a
  round-robin cursor. `getWorkingKey` first re-enables every disabled key
  whose cool-down has elapsed, then picks the working key at the cursor
  among the working keys only. Three failures disable a key; a success
  re-enables it. The clock (`Date.now()`) is the parameter `now`.

  The pure functions below (`Select`, `MarkFailed`, `MarkWorking`, ...) are
  the specification the methods of the class `ApiKeyManager` are proved
  against; the lemmas state what the source promises about them.
 */
module KeyPool {
  import opened Wrappers
  import opened JsString

  /** Failures after which a key is disabled. */
  const MaxFailures: int := 3
  /** Milliseconds after its last use before a disabled key is retried. */
  const RetryDelay: int := 60000

  datatype KeyConfig = KeyConfig(key: string, isWorking: bool, lastUsed: int, failureCount: int)

  /** One entry of the diagnostic view: the key is masked. */
  datatype KeyStatus = KeyStatus(key: string, isWorking: bool, failureCount: int)

  /** A disabled key has failed at least `MaxFailures` times; counts are never negative. */
  ghost predicate Healthy(ks: seq<KeyConfig>) {
    forall i :: 0 <= i < |ks| ==>
      ks[i].failureCount >= 0 && (!ks[i].isWorking ==> ks[i].failureCount >= MaxFailures)
  }

  /** The key strings, in configuration order. */
  function Keys(ks: seq<KeyConfig>): (r: seq<string>)
    ensures |r| == |ks|
    ensures forall i :: 0 <= i < |ks| ==> r[i] == ks[i].key
  {
    seq(|ks|, i requires 0 <= i < |ks| => ks[i].key)
  }

  // ---------------------------------------------------------------------------
  // Construction

  /** Trim every segment and drop the empty ones. */
  function TrimmedSegments(parts: seq<string>): (r: seq<string>)
    ensures |r| <= |parts|
    ensures forall i :: 0 <= i < |r| ==> r[i] != [] && Trim(r[i]) == r[i]
  {
    if parts == [] then []
    else
      var t := Trim(parts[0]);
      TrimIdempotent(parts[0]);
      (if t == [] then [] else [t]) + TrimmedSegments(parts[1..])
  }

  lemma {:induction false} TrimmedSegmentsNoComma(parts: seq<string>)
    requires forall k :: 0 <= k < |parts| ==> ',' !in parts[k]
    ensures forall i :: 0 <= i < |TrimmedSegments(parts)| ==> ',' !in TrimmedSegments(parts)[i]
  {
    if parts != [] {
      TrimChars(parts[0], ',');
      TrimmedSegmentsNoComma(parts[1..]);
    }
  }

  /** Well-formed configured keys: non-empty, trimmed, without a comma. */
  predicate WellFormedKey(k: string) {
    k != [] && Trim(k) == k && ',' !in k
  }

  /** The keys of a configuration string: `split(',')`, `trim`, drop empty ones. */
  function ParseKeyList(s: string): (keys: seq<string>)
    ensures forall i :: 0 <= i < |keys| ==> WellFormedKey(keys[i])
  {
    if s == [] then []
    else
      TrimmedSegmentsNoComma(Split(s, ','));
      TrimmedSegments(Split(s, ','))
  }

  /** Every parsed key starts working, unused and without failures. */
  function ParseApiKeys(s: string): (ks: seq<KeyConfig>)
    ensures Keys(ks) == ParseKeyList(s)
    ensures forall i :: 0 <= i < |ks| ==> ks[i].isWorking && ks[i].lastUsed == 0 && ks[i].failureCount == 0
  {
    var keys := ParseKeyList(s);
    seq(|keys|, i requires 0 <= i < |keys| => KeyConfig(keys[i], true, 0, 0))
  }

  lemma {:induction false} TrimmedSegmentsOfWellFormed(keys: seq<string>)
    requires forall i :: 0 <= i < |keys| ==> WellFormedKey(keys[i])
    ensures TrimmedSegments(keys) == keys
  {
    if keys != [] {
      TrimmedSegmentsOfWellFormed(keys[1..]);
      assert [keys[0]] + keys[1..] == keys;
    }
  }

  /** Joining well-formed keys with commas and parsing the result gives the same keys, in order. */
  lemma ParseJoinRoundTrip(keys: seq<string>)
    requires forall i :: 0 <= i < |keys| ==> WellFormedKey(keys[i])
    ensures ParseKeyList(Join(keys, ',')) == keys
  {
    if keys != [] {
      var s := Join(keys, ',');
      assert s != [] by {
        if |keys| > 1 {
          assert s == keys[0] + [','] + Join(keys[1..], ',');
        }
      }
      SplitJoin(keys, ',');
      TrimmedSegmentsOfWellFormed(keys);
    }
  }

  /** A string made only of commas and whitespace configures no key. */
  lemma {:induction false} BlankSegmentsGiveNoKeys(parts: seq<string>)
    requires forall k :: 0 <= k < |parts| ==> AllWhitespace(parts[k])
    ensures TrimmedSegments(parts) == []
  {
    if parts != [] {
      BlankSegmentsGiveNoKeys(parts[1..]);
    }
  }

  lemma OnlyCommaGivesNoKeys()
    ensures ParseKeyList("") == []
    ensures ParseKeyList(",") == []
  {
    assert Split(",", ',') == ["", ""] by {
      assert ","[1..] == "";
    }
    BlankSegmentsGiveNoKeys(["", ""]);
  }

  // ---------------------------------------------------------------------------
  // Re-enabling keys whose cool-down has elapsed

  /** A disabled key is re-enabled, with its count reset, once more than `RetryDelay` ms passed since its last use. */
  function Revive(c: KeyConfig, now: int): KeyConfig {
    if !c.isWorking && now - c.lastUsed > RetryDelay then c.(isWorking := true, failureCount := 0) else c
  }

  function ReviveAll(ks: seq<KeyConfig>, now: int): (r: seq<KeyConfig>)
    ensures |r| == |ks|
    ensures forall i :: 0 <= i < |ks| ==> r[i] == Revive(ks[i], now)
  {
    seq(|ks|, i requires 0 <= i < |ks| => Revive(ks[i], now))
  }

  /**
    After the reactivation pass every key is unchanged except the disabled keys
    whose cool-down elapsed (strictly more than `RetryDelay` ms), which become
    working with no failures; keys and their order stay the same.
   */
  lemma ReactivationRule(ks: seq<KeyConfig>, now: int, i: nat)
    requires i < |ks|
    ensures Keys(ReviveAll(ks, now)) == Keys(ks)
    ensures var c, r := ks[i], ReviveAll(ks, now)[i];
      if !c.isWorking && now - c.lastUsed > RetryDelay
      then r.isWorking && r.failureCount == 0 && r.lastUsed == c.lastUsed
      else r == c
  {
  }

  lemma ReviveAllHealthy(ks: seq<KeyConfig>, now: int)
    requires Healthy(ks)
    ensures Healthy(ReviveAll(ks, now))
  {
  }

  // ---------------------------------------------------------------------------
  // Working keys and the reachable count

  /** Positions of the working records, in order (the `filter` of `getWorkingKey`). */
  function WorkingIndices(ks: seq<KeyConfig>): (w: seq<nat>)
    ensures |w| <= |ks|
    ensures forall j :: 0 <= j < |w| ==> w[j] < |ks| && ks[w[j]].isWorking
    ensures forall j, k :: 0 <= j < k < |w| ==> w[j] < w[k]
    ensures forall i :: 0 <= i < |ks| && ks[i].isWorking ==> i in w
  {
    if ks == [] then []
    else
      var last := |ks| - 1;
      WorkingIndices(ks[..last]) + (if ks[last].isWorking then [last] else [])
  }

  /** A key counts as reachable when it works or its cool-down has elapsed. */
  predicate Reachable(c: KeyConfig, now: int) {
    c.isWorking || now - c.lastUsed > RetryDelay
  }

  /** `getWorkingKeysCount`: how many records are reachable at time `now`. */
  function CountReachable(ks: seq<KeyConfig>, now: int): (n: nat)
    ensures n <= |ks|
  {
    if ks == [] then 0
    else CountReachable(ks[..|ks| - 1], now) + (if Reachable(ks[|ks| - 1], now) then 1 else 0)
  }

  /** The reachable count is exactly the number of working keys `getWorkingKey` sees after its reactivation pass. */
  lemma {:induction false} CountReachableIsWorkingAfterRevive(ks: seq<KeyConfig>, now: int)
    ensures CountReachable(ks, now) == |WorkingIndices(ReviveAll(ks, now))|
  {
    if ks != [] {
      var last := |ks| - 1;
      assert ReviveAll(ks, now)[..last] == ReviveAll(ks[..last], now);
      CountReachableIsWorkingAfterRevive(ks[..last], now);
    }
  }

  lemma {:induction false} AllWorkingIndices(ks: seq<KeyConfig>)
    requires forall i :: 0 <= i < |ks| ==> ks[i].isWorking
    ensures |WorkingIndices(ks)| == |ks|
    ensures forall j :: 0 <= j < |ks| ==> WorkingIndices(ks)[j] == j
  {
    if ks != [] {
      AllWorkingIndices(ks[..|ks| - 1]);
    }
  }

  // ---------------------------------------------------------------------------
  // Selection (`getWorkingKey`)

  /** What one `getWorkingKey` call does: the position picked, the new records, the new cursor. */
  datatype Selection = Selection(picked: Option<nat>, keys: seq<KeyConfig>, cursor: nat)

  function Select(ks: seq<KeyConfig>, cursor: nat, now: int): (sel: Selection)
    ensures sel.picked.Some? ==> sel.picked.value < |sel.keys|
  {
    if |ks| == 0 then Selection(None, ks, cursor)
    else
      var revived := ReviveAll(ks, now);
      var w := WorkingIndices(revived);
      if |w| == 0 then Selection(None, revived, cursor)
      else
        var c := cursor % |w|;
        var i := w[c];
        Selection(Some(i), revived[i := revived[i].(lastUsed := now)], c + 1)
  }

  /** The key string `getWorkingKey` returns for a selection. */
  function PickedKey(sel: Selection): Option<string> {
    match sel.picked
    case Some(i) => if i < |sel.keys| then Some(sel.keys[i].key) else None
    case None => None
  }

  /** `getWorkingKey` returns null exactly when there are no keys or no key is reachable. */
  lemma SelectNoneIff(ks: seq<KeyConfig>, cursor: nat, now: int)
    ensures Select(ks, cursor, now).picked.None? <==> CountReachable(ks, now) == 0
  {
    CountReachableIsWorkingAfterRevive(ks, now);
  }

  /**
    When a key is returned, it is a working record that was working or whose
    cool-down had elapsed; only its `lastUsed` (set to `now`) differs from the
    reactivation pass, every other record is exactly as that pass left it, and
    the key list is unchanged.
   */
  lemma SelectPicksWorking(ks: seq<KeyConfig>, cursor: nat, now: int)
    ensures var sel := Select(ks, cursor, now);
      && Keys(sel.keys) == Keys(ks)
      && (sel.picked.Some? ==>
            var i := sel.picked.value;
            && i < |ks|
            && Reachable(ks[i], now)
            && sel.keys[i].isWorking
            && sel.keys[i].lastUsed == now
            && sel.keys[i] == Revive(ks[i], now).(lastUsed := now)
            && (forall j :: 0 <= j < |ks| && j != i ==> sel.keys[j] == Revive(ks[j], now)))
      && (sel.picked.None? ==> sel.keys == ReviveAll(ks, now) && sel.cursor == cursor)
  {
  }

  /** The working positions of a prefix are the first working positions of the whole list; the others lie beyond it. */
  lemma {:induction false} WorkingIndicesPrefix(ks: seq<KeyConfig>, j: nat)
    requires j <= |ks|
    ensures var p, w := WorkingIndices(ks[..j]), WorkingIndices(ks);
      && |p| <= |w| && p == w[..|p|]
      && forall k :: |p| <= k < |w| ==> w[k] >= j
  {
    if j < |ks| {
      var last := |ks| - 1;
      var tail: seq<nat> := if ks[last].isWorking then [last] else [];
      assert WorkingIndices(ks) == WorkingIndices(ks[..last]) + tail;
      assert ks[..last][..j] == ks[..j];
      WorkingIndicesPrefix(ks[..last], j);
      PrefixExtend(WorkingIndices(ks[..last]), tail, WorkingIndices(ks[..j]), j);
    } else {
      assert ks[..j] == ks;
    }
  }

  /** A prefix followed only by entries of at least `j` stays so when entries of at least `j` are appended. */
  lemma PrefixExtend(w0: seq<nat>, tail: seq<nat>, p: seq<nat>, j: nat)
    requires |p| <= |w0| && p == w0[..|p|]
    requires forall k :: |p| <= k < |w0| ==> w0[k] >= j
    requires forall k :: 0 <= k < |tail| ==> tail[k] >= j
    ensures var w := w0 + tail; |p| <= |w| && p == w[..|p|] && forall k :: |p| <= k < |w| ==> w[k] >= j
  {
  }

  /**
    The rotation skips the records that do not work: the pick is the working
    record (after reactivation) with exactly `cursor mod m` working records
    before it, where `m` is the number of working records, and the next cursor
    is the one after it.
   */
  lemma SelectRotatesWorking(ks: seq<KeyConfig>, cursor: nat, now: int)
    ensures var sel, revived := Select(ks, cursor, now), ReviveAll(ks, now);
      var m := |WorkingIndices(revived)|;
      sel.picked.Some? ==>
        && m > 0
        && sel.picked.value < |revived|
        && revived[sel.picked.value].isWorking
        && |WorkingIndices(revived[..sel.picked.value])| == cursor % m
        && sel.cursor == cursor % m + 1
  {
    var revived := ReviveAll(ks, now);
    var w := WorkingIndices(revived);
    if |w| > 0 {
      WorkingRank(revived, cursor % |w|);
    }
  }

  /** The `c`-th working position has exactly `c` working positions before it. */
  lemma WorkingRank(ks: seq<KeyConfig>, c: nat)
    requires c < |WorkingIndices(ks)|
    ensures var i := WorkingIndices(ks)[c]; |WorkingIndices(ks[..i])| == c
  {
    var w := WorkingIndices(ks);
    var i := w[c];
    WorkingIndicesPrefix(ks, i);
    var p := WorkingIndices(ks[..i]);
    PrefixBelow(w, p, i);
    PositionInIncreasing(w, |p|, c);
  }

  /** A prefix whose entries are all below `i` gives the first entries of the whole list below `i`. */
  lemma PrefixBelow(w: seq<nat>, p: seq<nat>, i: nat)
    requires |p| <= |w| && p == w[..|p|]
    requires forall k :: 0 <= k < |p| ==> p[k] < i
    ensures forall k :: 0 <= k < |p| ==> w[k] < i
  {
    forall k | 0 <= k < |p|
      ensures w[k] < i
    {
      assert w[k] == p[k];
    }
  }

  /** In a strictly increasing list, a prefix whose entries are all below the `c`-th entry, followed only by entries that are not, has length `c`. */
  lemma PositionInIncreasing(w: seq<nat>, n: nat, c: nat)
    requires forall j, k :: 0 <= j < k < |w| ==> w[j] < w[k]
    requires c < |w| && n <= |w|
    requires forall k :: 0 <= k < n ==> w[k] < w[c]
    requires forall k :: n <= k < |w| ==> w[k] >= w[c]
    ensures n == c
  {
    var m := if n < c then n else c;
    var pivot := w[m];
  }

  /** A selection keeps the key list, and the key it returns is one of them. */
  lemma SelectKeepsKeys(ks: seq<KeyConfig>, cursor: nat, now: int)
    ensures var sel := Select(ks, cursor, now);
      && Keys(sel.keys) == Keys(ks)
      && (PickedKey(sel).Some? ==> PickedKey(sel).value in Keys(ks))
  {
    var sel := Select(ks, cursor, now);
    SelectPicksWorking(ks, cursor, now);
    if PickedKey(sel).Some? {
      assert PickedKey(sel).value == Keys(sel.keys)[sel.picked.value];
    }
  }

  lemma SelectHealthy(ks: seq<KeyConfig>, cursor: nat, now: int)
    requires Healthy(ks)
    ensures Healthy(Select(ks, cursor, now).keys)
  {
    ReviveAllHealthy(ks, now);
  }

  /** With every key working, the call picks position `cursor mod n` and the next cursor follows it. */
  lemma RoundRobinWhenAllWork(ks: seq<KeyConfig>, cursor: nat, now: int)
    requires |ks| > 0
    requires forall i :: 0 <= i < |ks| ==> ks[i].isWorking
    ensures var sel := Select(ks, cursor, now);
      && sel.picked == Some(cursor % |ks|)
      && sel.cursor == cursor % |ks| + 1
      && Keys(sel.keys) == Keys(ks)
      && (forall i :: 0 <= i < |sel.keys| ==>
            sel.keys[i].isWorking && sel.keys[i].failureCount == ks[i].failureCount)
      && PickedKey(sel) == Some(ks[cursor % |ks|].key)
  {
    var revived := ReviveAll(ks, now);
    assert revived == ks;
    AllWorkingIndices(ks);
  }

  // ---------------------------------------------------------------------------
  // Reporting failure and success

  /** `find`: the first record holding `key`. */
  function FindKey(ks: seq<KeyConfig>, key: string): (r: Option<nat>)
    ensures r.Some? ==> r.value < |ks| && ks[r.value].key == key
    ensures r.Some? ==> forall j :: 0 <= j < r.value ==> ks[j].key != key
    ensures r.None? ==> forall j :: 0 <= j < |ks| ==> ks[j].key != key
  {
    if ks == [] then None
    else if ks[0].key == key then Some(0)
    else match FindKey(ks[1..], key)
      case None => None
      case Some(i) => Some(i + 1)
  }

  function Failed(c: KeyConfig, now: int): KeyConfig {
    var n := c.failureCount + 1;
    c.(failureCount := n, lastUsed := now, isWorking := if n >= MaxFailures then false else c.isWorking)
  }

  /** `markKeyAsFailed`. */
  function MarkFailed(ks: seq<KeyConfig>, key: string, now: int): seq<KeyConfig> {
    match FindKey(ks, key)
    case None => ks
    case Some(i) => ks[i := Failed(ks[i], now)]
  }

  /** `markKeyAsWorking`. */
  function MarkWorking(ks: seq<KeyConfig>, key: string, now: int): seq<KeyConfig> {
    match FindKey(ks, key)
    case None => ks
    case Some(i) => ks[i := ks[i].(failureCount := 0, isWorking := true, lastUsed := now)]
  }

  /**
    `markKeyAsFailed(key)` increments the count of the first record holding
    `key`, stamps it with `now` and disables it once the count reaches 3;
    nothing else changes, and an unknown key changes nothing.
   */
  lemma MarkFailedEffect(ks: seq<KeyConfig>, key: string, now: int)
    ensures var r := MarkFailed(ks, key, now);
      && |r| == |ks| && Keys(r) == Keys(ks)
      && (key !in Keys(ks) ==> r == ks)
      && (key in Keys(ks) ==>
            exists i :: 0 <= i < |ks| && ks[i].key == key
              && (forall j :: 0 <= j < i ==> ks[j].key != key)
              && r[i].failureCount == ks[i].failureCount + 1
              && r[i].lastUsed == now
              && r[i].isWorking == (ks[i].isWorking && ks[i].failureCount + 1 < MaxFailures)
              && (forall j :: 0 <= j < |ks| && j != i ==> r[j] == ks[j]))
  {
    match FindKey(ks, key)
    case None =>
    case Some(i) =>
      assert ks[i].key == Keys(ks)[i];
  }

  /**
    `markKeyAsWorking(key)` resets the first record holding `key` to working,
    no failures, last used `now`; nothing else changes, and an unknown key
    changes nothing.
   */
  lemma MarkWorkingEffect(ks: seq<KeyConfig>, key: string, now: int)
    ensures var r := MarkWorking(ks, key, now);
      && |r| == |ks| && Keys(r) == Keys(ks)
      && (key !in Keys(ks) ==> r == ks)
      && (key in Keys(ks) ==>
            exists i :: 0 <= i < |ks| && ks[i].key == key
              && (forall j :: 0 <= j < i ==> ks[j].key != key)
              && r[i] == KeyConfig(key, true, now, 0)
              && (forall j :: 0 <= j < |ks| && j != i ==> r[j] == ks[j]))
  {
    match FindKey(ks, key)
    case None =>
    case Some(i) =>
      assert ks[i].key == Keys(ks)[i];
  }

  /** Neither update renames, adds or drops a record. */
  lemma MarkKeepsKeys(ks: seq<KeyConfig>, key: string, now: int)
    ensures Keys(MarkFailed(ks, key, now)) == Keys(ks)
    ensures Keys(MarkWorking(ks, key, now)) == Keys(ks)
  {
  }

  /** After `markKeyAsWorking(key)` the first record holding `key` is the reset one. */
  lemma MarkWorkingFinds(ks: seq<KeyConfig>, key: string, now: int)
    requires key in Keys(ks)
    ensures var r := MarkWorking(ks, key, now);
      FindKey(r, key).Some? && r[FindKey(r, key).value] == KeyConfig(key, true, now, 0)
  {
    var k :| 0 <= k < |ks| && Keys(ks)[k] == key;
    assert ks[k].key == key;
    var f := FindKey(ks, key).value;
    var r := MarkWorking(ks, key, now);
    assert r[f].key == key;
    assert forall j :: 0 <= j < f ==> r[j].key == ks[j].key;
    assert FindKey(r, key) == Some(f);
  }

  lemma MarkFailedHealthy(ks: seq<KeyConfig>, key: string, now: int)
    requires Healthy(ks)
    ensures Healthy(MarkFailed(ks, key, now))
  {
  }

  lemma MarkWorkingHealthy(ks: seq<KeyConfig>, key: string, now: int)
    requires Healthy(ks)
    ensures Healthy(MarkWorking(ks, key, now))
  {
  }

  /** Three failures in a row disable a key that had none, and it stays unreachable until the cool-down elapses. */
  lemma ThreeFailuresDisable(ks: seq<KeyConfig>, key: string, t1: int, t2: int, t3: int, now: int)
    requires FindKey(ks, key).Some?
    requires ks[FindKey(ks, key).value].failureCount == 0
    requires t3 <= now <= t3 + RetryDelay
    ensures var r := MarkFailed(MarkFailed(MarkFailed(ks, key, t1), key, t2), key, t3);
      var i := FindKey(ks, key).value;
      && !r[i].isWorking && r[i].failureCount == 3 && r[i].lastUsed == t3
      && !Reachable(r[i], now)
      && Select(r, 0, now).picked != Some(i)
  {
    var i := FindKey(ks, key).value;
    var r1 := MarkFailed(ks, key, t1);
    assert FindKey(r1, key) == Some(i) by { assert Keys(r1) == Keys(ks) by { MarkFailedEffect(ks, key, t1); } }
    var r2 := MarkFailed(r1, key, t2);
    assert FindKey(r2, key) == Some(i) by { assert Keys(r2) == Keys(r1) by { MarkFailedEffect(r1, key, t2); } }
    var r3 := MarkFailed(r2, key, t3);
    SelectPicksWorking(r3, 0, now);
  }

  // ---------------------------------------------------------------------------
  // The failure reserve: how many more failure reports the pool can take

  /** The failures a working key can still take before it is disabled; none for a disabled key. */
  function Share(c: KeyConfig): nat {
    if c.isWorking && c.failureCount < MaxFailures then MaxFailures - c.failureCount else 0
  }

  /** The shares of all records. */
  function Reserve(ks: seq<KeyConfig>): nat {
    if ks == [] then 0 else Share(ks[0]) + Reserve(ks[1..])
  }

  /** While the reserve is positive some key works. */
  lemma {:induction false} ReserveHasWorking(ks: seq<KeyConfig>)
    requires Reserve(ks) > 0
    ensures exists i :: 0 <= i < |ks| && ks[i].isWorking
  {
    if Share(ks[0]) == 0 {
      ReserveHasWorking(ks[1..]);
      var i :| 0 <= i < |ks[1..]| && ks[1..][i].isWorking;
      assert ks[i + 1].isWorking;
    }
  }

  /** Replacing one record changes the reserve by the difference of the two shares. */
  lemma {:induction false} ReserveUpdate(ks: seq<KeyConfig>, k: nat, c: KeyConfig)
    requires k < |ks|
    ensures Reserve(ks[k := c]) == Reserve(ks) - Share(ks[k]) + Share(c)
  {
    if k == 0 {
      assert ks[k := c][1..] == ks[1..];
    } else {
      assert ks[k := c][1..] == ks[1..][k - 1 := c];
      ReserveUpdate(ks[1..], k - 1, c);
    }
  }

  /** A pool whose every record has at least the share of another's has at least its reserve. */
  lemma {:induction false} ReserveMonotone(a: seq<KeyConfig>, b: seq<KeyConfig>)
    requires |a| == |b|
    requires forall i :: 0 <= i < |a| ==> Share(a[i]) <= Share(b[i])
    ensures Reserve(a) <= Reserve(b)
  {
    if a != [] {
      ReserveMonotone(a[1..], b[1..]);
    }
  }

  /** Keys that all work and have never failed give `MaxFailures` each. */
  lemma {:induction false} FreshReserve(ks: seq<KeyConfig>)
    requires forall i :: 0 <= i < |ks| ==> ks[i].isWorking && ks[i].failureCount == 0
    ensures Reserve(ks) == MaxFailures * |ks|
  {
    if ks != [] {
      FreshReserve(ks[1..]);
    }
  }

  /** A pool with a positive reserve hands out a key. */
  lemma ReservePicks(ks: seq<KeyConfig>, cursor: nat, now: int)
    requires Reserve(ks) > 0
    ensures PickedKey(Select(ks, cursor, now)).Some?
  {
    ReserveHasWorking(ks);
    var i :| 0 <= i < |ks| && ks[i].isWorking;
    WorkingKeyPicks(ks, i, cursor, now);
  }

  /** A pool with a working record hands out a key. */
  lemma WorkingKeyPicks(ks: seq<KeyConfig>, i: nat, cursor: nat, now: int)
    requires i < |ks| && ks[i].isWorking
    ensures PickedKey(Select(ks, cursor, now)).Some?
  {
    var revived := ReviveAll(ks, now);
    assert revived[i].isWorking;
    assert i in WorkingIndices(revived);
    assert |WorkingIndices(revived)| > 0;
  }

  /** `getWorkingKey` never lowers the reserve: reactivation only adds shares, and the pick only stamps the time. */
  lemma SelectKeepsReserve(ks: seq<KeyConfig>, cursor: nat, now: int)
    ensures Reserve(Select(ks, cursor, now).keys) >= Reserve(ks)
  {
    var sel := Select(ks, cursor, now);
    SelectPicksWorking(ks, cursor, now);
    forall i | 0 <= i < |ks|
      ensures Share(ks[i]) <= Share(sel.keys[i])
    {
      assert Share(Revive(ks[i], now)) >= Share(ks[i]);
    }
    ReserveMonotone(ks, sel.keys);
  }

  /** A failure report lowers the reserve by at most one. */
  lemma MarkFailedCostsOne(ks: seq<KeyConfig>, key: string, now: int)
    ensures Reserve(MarkFailed(ks, key, now)) + 1 >= Reserve(ks)
  {
    match FindKey(ks, key)
    case None =>
    case Some(i) =>
      ReserveUpdate(ks, i, Failed(ks[i], now));
  }

  // ---------------------------------------------------------------------------
  // Diagnostic view

  function Min(a: int, b: int): int {
    if a <= b then a else b
  }

  /** `key.substring(0, 8) + '...'`: at most the first eight characters, then an ellipsis. */
  function Mask(key: string): (m: string)
    ensures |m| == Min(8, |key|) + 3 && m[|m| - 3..] == "..."
    ensures forall i :: 0 <= i < |m| - 3 ==> m[i] == key[i]
  {
    key[..Min(8, |key|)] + "..."
  }

  /** Two keys that agree on their first eight characters have the same mask: nothing beyond the prefix is shown. */
  lemma MaskHidesSuffix(a: string, b: string)
    requires |a| >= 8 && |b| >= 8 && a[..8] == b[..8]
    ensures Mask(a) == Mask(b)
  {
  }

  /** `getKeyStatus`: one masked entry per record, in order. */
  function Status(ks: seq<KeyConfig>): (r: seq<KeyStatus>)
    ensures |r| == |ks|
    ensures forall i :: 0 <= i < |ks| ==>
      r[i] == KeyStatus(Mask(ks[i].key), ks[i].isWorking, ks[i].failureCount)
  {
    seq(|ks|, i requires 0 <= i < |ks| => KeyStatus(Mask(ks[i].key), ks[i].isWorking, ks[i].failureCount))
  }

  // ---------------------------------------------------------------------------
  // The pool object

  class ApiKeyManager {
    var apiKeys: seq<KeyConfig>
    var currentIndex: nat

    ghost predicate Valid()
      reads this
    {
      Healthy(apiKeys)
    }

    /** `new ApiKeyManager(apiKeysString)`: an empty string gives an empty pool. */
    constructor (apiKeysString: string)
      ensures Valid()
      ensures apiKeys == ParseApiKeys(apiKeysString) && currentIndex == 0
    {
      if apiKeysString == [] {
        apiKeys := [];
      } else {
        apiKeys := ParseApiKeys(apiKeysString);
      }
      currentIndex := 0;
    }

    /** Re-enable cooled-down keys, then pick the working key at the cursor and stamp it with `now`. */
    method GetWorkingKey(now: int) returns (key: Option<string>)
      requires Valid()
      modifies this
      ensures Valid()
      ensures var sel := Select(old(apiKeys), old(currentIndex), now);
        key == PickedKey(sel) && apiKeys == sel.keys && currentIndex == sel.cursor
    {
      if |apiKeys| == 0 {
        return None;
      }
      ghost var before := apiKeys;
      var i := 0;
      while i < |apiKeys|
        invariant 0 <= i <= |apiKeys| == |before|
        invariant apiKeys[..i] == ReviveAll(before, now)[..i]
        invariant apiKeys[i..] == before[i..]
        invariant currentIndex == old(currentIndex)
      {
        var c := apiKeys[i];
        if !c.isWorking && now - c.lastUsed > RetryDelay {
          apiKeys := apiKeys[i := c.(isWorking := true, failureCount := 0)];
        }
        i := i + 1;
      }
      assert apiKeys == ReviveAll(before, now);
      SelectHealthy(before, currentIndex, now);
      var working := WorkingIndices(apiKeys);
      if |working| == 0 {
        return None;
      }
      currentIndex := currentIndex % |working|;
      var selected := working[currentIndex];
      apiKeys := apiKeys[selected := apiKeys[selected].(lastUsed := now)];
      currentIndex := currentIndex + 1;
      key := Some(apiKeys[selected].key);
    }

    method MarkKeyAsFailed(key: string, now: int)
      requires Valid()
      modifies this
      ensures Valid()
      ensures apiKeys == MarkFailed(old(apiKeys), key, now) && currentIndex == old(currentIndex)
    {
      MarkFailedHealthy(apiKeys, key, now);
      match FindKey(apiKeys, key)
      case None =>
      case Some(i) =>
        var config := apiKeys[i];
        var count := config.failureCount + 1;
        config := config.(failureCount := count, lastUsed := now);
        if count >= MaxFailures {
          config := config.(isWorking := false);
        }
        apiKeys := apiKeys[i := config];
    }

    method MarkKeyAsWorking(key: string, now: int)
      requires Valid()
      modifies this
      ensures Valid()
      ensures apiKeys == MarkWorking(old(apiKeys), key, now) && currentIndex == old(currentIndex)
    {
      MarkWorkingHealthy(apiKeys, key, now);
      match FindKey(apiKeys, key)
      case None =>
      case Some(i) =>
        apiKeys := apiKeys[i := apiKeys[i].(failureCount := 0, isWorking := true, lastUsed := now)];
    }

    /** `getAllKeys`: the configured keys in order. */
    function GetAllKeys(): (r: seq<string>)
      reads this
      ensures r == Keys(apiKeys)
    {
      Keys(apiKeys)
    }

    /** `getWorkingKeysCount`: the keys `getWorkingKey` could pick at `now`; never more than the pool. */
    function GetWorkingKeysCount(now: int): (n: nat)
      reads this
      ensures n <= |apiKeys|
      ensures n == |WorkingIndices(ReviveAll(apiKeys, now))|
    {
      CountReachableIsWorkingAfterRevive(apiKeys, now);
      CountReachable(apiKeys, now)
    }

    /** `getKeyStatus`. */
    function GetKeyStatus(): (r: seq<KeyStatus>)
      reads this
      ensures r == Status(apiKeys)
    {
      Status(apiKeys)
    }
  }

  // ---------------------------------------------------------------------------
  // The usage script test-multi-keys.js, replayed at one instant `now`

  lemma PlainKey(k: string)
    requires k != [] && forall i :: 0 <= i < |k| ==> 'a' <= k[i] <= 'z' || '0' <= k[i] <= '9'
    ensures WellFormedKey(k)
  {
    TrimNoWhitespace(k);
  }

  lemma ThreeNamesWellFormed()
    ensures forall i :: 0 <= i < |ThreeNames| ==> WellFormedKey(ThreeNames[i])
  {
    PlainKey("key1");
    PlainKey("key2");
    PlainKey("key3");
  }

  lemma ThreeNamesJoin()
    ensures Join(ThreeNames, ',') == "key1,key2,key3"
  {
    var keys := ThreeNames;
    assert Join(keys[2..], ',') == "key3";
    assert Join(keys[1..], ',') == "key2" + [','] + "key3";
    assert Join(keys, ',') == "key1" + [','] + ("key2" + [','] + "key3");
  }

  lemma ThreeKeysParse()
    ensures ParseKeyList("key1,key2,key3") == ThreeNames
  {
    ThreeNamesWellFormed();
    ThreeNamesJoin();
    ParseJoinRoundTrip(ThreeNames);
  }

  const ThreeNames: seq<string> := ["key1", "key2", "key3"]

  /** The configuration "key1,key2,key3" gives the three keys, working and unused. */
  lemma ThreeKeysPool()
    ensures UnusedThree(ParseApiKeys("key1,key2,key3"))
  {
    ThreeKeysParse();
  }

  /** The three keys of the script, all working and never failed. */
  ghost predicate UnusedThree(ks: seq<KeyConfig>) {
    Keys(ks) == ThreeNames && forall i :: 0 <= i < 3 ==> ks[i].isWorking && ks[i].failureCount == 0
  }

  lemma RotationStep(ks: seq<KeyConfig>, cursor: nat, now: int)
    requires UnusedThree(ks)
    ensures var sel := Select(ks, cursor, now);
      UnusedThree(sel.keys) && PickedKey(sel) == Some(ThreeNames[cursor % 3]) && sel.cursor == cursor % 3 + 1
  {
    RoundRobinWhenAllWork(ks, cursor, now);
  }

  /** One `getWorkingKey` call of the script. */
  method NextOfThree(m: ApiKeyManager, now: int) returns (k: Option<string>)
    requires m.Valid() && UnusedThree(m.apiKeys)
    modifies m
    ensures m.Valid() && UnusedThree(m.apiKeys)
    ensures k == Some(ThreeNames[old(m.currentIndex) % 3]) && m.currentIndex == old(m.currentIndex) % 3 + 1
  {
    RotationStep(m.apiKeys, m.currentIndex, now);
    k := m.GetWorkingKey(now);
  }

  /** Marking "key2" of the three keys fails the second record only. */
  lemma MarkSecond(ks: seq<KeyConfig>, now: int)
    requires Keys(ks) == ThreeNames
    ensures MarkFailed(ks, "key2", now) == ks[1 := Failed(ks[1], now)]
    ensures Keys(ks[1 := Failed(ks[1], now)]) == ThreeNames
  {
    assert ks[0].key == "key1" && ks[1].key == "key2";
    assert FindKey(ks, "key2") == Some(1);
    var r := ks[1 := Failed(ks[1], now)];
    assert Keys(r) == ThreeNames;
  }

  /** Three keys of which only the middle one is disabled leave two working keys. */
  lemma MiddleDown(r: seq<KeyConfig>)
    requires |r| == 3 && r[0].isWorking && !r[1].isWorking && r[2].isWorking
    ensures |WorkingIndices(r)| == 2
  {
    assert WorkingIndices(r[..1]) == [0];
    assert r[..2][..1] == r[..1];
    assert WorkingIndices(r[..2]) == [0];
    assert r[..3][..2] == r[..2];
    assert r[..3] == r;
  }

  lemma KeyTwoDisabled(ks: seq<KeyConfig>, now: int)
    requires UnusedThree(ks)
    ensures var r := MarkFailed(MarkFailed(MarkFailed(ks, "key2", now), "key2", now), "key2", now);
      && Status(r)[1] == KeyStatus("key2...", false, 3)
      && r[0] == ks[0] && r[2] == ks[2]
      && |WorkingIndices(ReviveAll(r, now))| == 2
  {
    MarkSecond(ks, now);
    var r1 := ks[1 := Failed(ks[1], now)];
    MarkSecond(r1, now);
    var r2 := r1[1 := Failed(r1[1], now)];
    MarkSecond(r2, now);
    var r := r2[1 := Failed(r2[1], now)];
    assert r[1] == ks[1].(failureCount := 3, lastUsed := now, isWorking := false);
    assert ReviveAll(r, now) == r;
    assert Mask("key2") == "key2...";
    MiddleDown(r);
  }

  /**
    Four calls on "key1,key2,key3" return key1, key2, key3, key1; the fifth
    returns key2, and three failures of key2 leave it disabled with count 3,
    masked as "key2...", and two reachable keys.
   */
  method MultiKeyScenario(now: int) returns (picks: seq<Option<string>>, status: seq<KeyStatus>, reachable: nat)
    ensures picks == [Some("key1"), Some("key2"), Some("key3"), Some("key1"), Some("key2")]
    ensures |status| == 3 && status[1] == KeyStatus("key2...", false, 3)
    ensures status[0].isWorking && status[2].isWorking
    ensures reachable == 2
  {
    var m := ThreeKeyManager();
    picks := FivePicks(m, now);
    status, reachable := FailKeyTwoThrice(m, now);
  }

  /** `new ApiKeyManager("key1,key2,key3")`. */
  method ThreeKeyManager() returns (m: ApiKeyManager)
    ensures fresh(m) && m.Valid() && UnusedThree(m.apiKeys) && m.currentIndex == 0
  {
    ThreeKeysPool();
    m := new ApiKeyManager("key1,key2,key3");
  }

  /** Three failures of key2 disable it with count 3 and leave two reachable keys. */
  method FailKeyTwoThrice(m: ApiKeyManager, now: int) returns (status: seq<KeyStatus>, reachable: nat)
    requires m.Valid() && UnusedThree(m.apiKeys)
    modifies m
    ensures |status| == 3 && status[1] == KeyStatus("key2...", false, 3)
    ensures status[0].isWorking && status[2].isWorking
    ensures reachable == 2
  {
    ghost var ks := m.apiKeys;
    m.MarkKeyAsFailed("key2", now);
    m.MarkKeyAsFailed("key2", now);
    m.MarkKeyAsFailed("key2", now);
    KeyTwoDisabled(ks, now);
    status := m.GetKeyStatus();
    reachable := m.GetWorkingKeysCount(now);
  }

  /** Five `getWorkingKey` calls on a fresh pool of the three keys go round once and start again. */
  method FivePicks(m: ApiKeyManager, now: int) returns (picks: seq<Option<string>>)
    requires m.Valid() && UnusedThree(m.apiKeys) && m.currentIndex == 0
    modifies m
    ensures m.Valid() && UnusedThree(m.apiKeys)
    ensures picks == [Some("key1"), Some("key2"), Some("key3"), Some("key1"), Some("key2")]
  {
    var k1 := NextOfThree(m, now);
    var k2 := NextOfThree(m, now);
    var k3 := NextOfThree(m, now);
    var k4 := NextOfThree(m, now);
    var k5 := NextOfThree(m, now);
    picks := [k1, k2, k3, k4, k5];
  }

  /** An empty configuration string gives a pool with nothing reachable, from which no key is returned. */
  method EmptyConfigScenario(now: int) returns (reachable: nat, pick: Option<string>)
    ensures reachable == 0 && pick == None
  {
    var m := new ApiKeyManager("");
    reachable := m.GetWorkingKeysCount(now);
    pick := m.GetWorkingKey(now);
  }
}
