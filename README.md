# Japanese analyzer: key pool, failover client, history and upload clean-up

This project models and proves four parts of a Next.js Japanese-text analyzer:

- **The failover key pool** (`ApiKeyManager`). It is an ordered list of API key records plus a round-robin cursor.
  - Every call that asks for a key first re-enables the disabled keys whose 60 000 ms cool-down has elapsed.
  - It then picks the working key at the cursor, counting only working keys.
  - Three failures disable a key. A success re-enables it.
- **The failover request loop** (`ApiClient.makeRequest`).
  - A caller's own key is used once.
  - Otherwise the loop asks the pool for at most N keys, where N is the number of configured keys.
  - It moves on after a key-related error (decided by a case-insensitive substring test) and stops on anything else.
- **The analysis history** kept in local storage.
  - It is read back newest first.
  - Saving deduplicates by original text and caps the list at 100 items.
  - It also covers deleting by id, clearing, case-insensitive search, and importing, which merges and keeps the newest item per text.
- **The upload route** that turns a PDF or Word file into text.
  - The PDF clean-up pipeline: six replacements, a line filter and a trim.
  - The 50 000-character truncation.
  - The order of the request checks and of the file-kind decision.

Files, one module each:

| file | module | contents |
|---|---|---|
| `wrappers.dfy` | `Wrappers` | `Option`, `Result` |
| `sequences.dfy` | `Sequences` | `filter`, and the two order-aware relations used to state what a filter or a replacement keeps: subsequence, and the elements outside a set |
| `js_string.dfy` | `JsString` | the JavaScript string primitives used: `trim`, one-character `split`, `join`, `includes`, `endsWith`, `indexOf`, first-occurrence `replace`, ASCII `toLowerCase`, decimal formatting |
| `key_manager.dfy` | `KeyPool` | the pool's specification functions and the class `ApiKeyManager`; the usage script replayed |
| `api_client.dfy` | `Client` | one attempt, the error classifier, the loop as a function (`PoolLoop`), the class `ApiClient` whose `MakeRequest` loop is proved against it |
| `history.dfy` | `History` | sort, save, delete, search and import as functions; the class `HistoryStorage` whose field is the storage slot |
| `file_to_text.dfy` | `FileToText` | `processPdfText`, truncation, the `POST` decision sequence |

Modelling conventions:

- **Clock.** `Date.now()` is a parameter `now`. The request loop reads the clock twice per iteration: once when it asks the pool for a key (`getWorkingKey`, reading `2i`) and once when it reports the outcome (`markKeyAsWorking`/`markKeyAsFailed`, reading `2i + 1`). `clock` is a function from the reading number to the time, so the two readings of an iteration may differ.
- **Network.** It is an oracle `send(i, request)`. It is given the attempt number and the request actually built (URL, method, merged headers, timeout). It returns an HTTP reply, an abort, or a thrown value.
- **Storage.** The slot is modelled after JSON decoding (`Stored`). A generated id is a parameter `freshId`.
- **Parsing libraries.** What a library returned for an uploaded file is a parameter (`Extraction`).

Behaviours of the code that the model keeps as written:

- **A configuration that yields no keys.**
  - Only a falsy configuration string leaves the client without a pool; that case answers `未配置API密钥` (`api-client.ts:22-26`).
  - A string such as `","` still builds a pool, with zero keys. The loop then makes no call and returns the exhausted message with an empty last error. `Client.CommaOnlyScenario` proves this.
- **The timeout message.** An aborted call reports `请求超时` (`api-client.ts:126`).
- **What counts as a key error.**
  - The substring test is applied to the formatted text `HTTP <status>: <body>`, and also to the message of a thrown error (`api-client.ts:67`); the status code is not inspected on its own.
  - So "401" anywhere in a body, or "rate limit" in a network error message, also counts as key-related.
  - A 401/403 status counts only because its formatted text contains "401"/"403".
- **The test script's variable `key1`.** `test-multi-keys.js:21` stores the fifth pick in a variable named `key1`, but round-robin makes that pick `key2`. `KeyPool.MultiKeyScenario` proves that the fifth pick is `key2` and that `key2` is the key disabled by the three failures.
- **A redundant condition.** In the route, the Word conditions on lines 181-182 are already covered by line 180, so they never change the outcome. `KindOf` keeps them as written.
- **The `Authorization` header.** The route removes the first `Bearer ` anywhere in the header, not only a leading one (`route.ts:97`). `EffectiveKey` models it that way.

## Model

| member | source | states |
|---|---|---|
| JsString.Trim | app/utils/api-key-manager.ts:24 | `trim` returns a slice of the input with only whitespace (the ECMAScript whitespace and line-terminator set) before and after it; the result is empty exactly when the string is all whitespace, and a non-empty result starts and ends with non-whitespace |
| JsString.TrimIdempotent | app/utils/api-key-manager.ts:24 | trimming a trimmed string changes nothing |
| JsString.TrimOfConcat | app/api/file-to-text/route.ts:63-66 | trimming a concatenation whose halves both carry text trims only its outer ends |
| JsString.TrimSlice | app/utils/api-key-manager.ts:24 | `trim` is the slice between the leading and the trailing whitespace runs |
| JsString.Split | app/api/file-to-text/route.ts:53 | `split` on one character gives at least one segment, none containing the separator |
| JsString.SplitJoin | app/api/file-to-text/route.ts:53-63 | splitting a join of separator-free parts gives the parts back |
| JsString.JoinSplit | app/api/file-to-text/route.ts:53-63 | joining the segments of a split gives the string back |
| JsString.IndexOf | app/api/file-to-text/route.ts:97 | `indexOf` finds nothing exactly when the pattern does not occur, otherwise the first occurrence |
| JsString.ToLower | app/utils/api-client.ts:152 | `toLowerCase` keeps the length and lowers each ASCII capital, position by position |
| JsString.NatToString | app/utils/api-client.ts:110 | a status code prints as a non-empty run of decimal digits whose value is the code, with no leading zero |
| KeyPool.TrimmedSegments | app/utils/api-key-manager.ts:24 | every kept segment is non-empty and already trimmed; at most one per input segment |
| KeyPool.ParseKeyList | app/utils/api-key-manager.ts:19-24 | every configured key is non-empty, trimmed and free of commas |
| KeyPool.ParseApiKeys | app/utils/api-key-manager.ts:24-30 | one record per parsed key, in configuration order, working, never used, with no failures |
| KeyPool.ParseJoinRoundTrip | app/utils/api-key-manager.ts:18-31 | joining well-formed keys with commas and parsing the result gives the same keys in the same order |
| KeyPool.TrimmedSegmentsOfWellFormed | app/utils/api-key-manager.ts:24 | segments that are already well-formed keys are kept as they are |
| KeyPool.BlankSegmentsGiveNoKeys | app/utils/api-key-manager.ts:24 | segments made only of whitespace configure no key |
| KeyPool.OnlyCommaGivesNoKeys | app/utils/api-key-manager.ts:19-24 | the strings `""` and `","` configure no key |
| KeyPool.ReviveAll | app/utils/api-key-manager.ts:40-45 | the reactivation pass touches each record on its own and keeps the length |
| KeyPool.ReactivationRule | app/utils/api-key-manager.ts:39-45 | a disabled key whose last use is strictly more than 60 000 ms old becomes working with no failures (its last use kept); every other record is unchanged; the key list is unchanged |
| KeyPool.ReviveAllHealthy | app/utils/api-key-manager.ts:40-45 | the reactivation pass keeps the invariant that a disabled key has at least 3 failures and counts are non-negative |
| KeyPool.WorkingIndices | app/utils/api-key-manager.ts:48 | the `filter` of working records: exactly the working positions, strictly increasing |
| KeyPool.CountReachable | app/utils/api-key-manager.ts:89-93 | the reachable count never exceeds the number of keys |
| KeyPool.CountReachableIsWorkingAfterRevive | app/utils/api-key-manager.ts:89-93 | the reachable count equals the number of keys that are working after the reactivation pass `getWorkingKey` performs |
| KeyPool.AllWorkingIndices | app/utils/api-key-manager.ts:48 | with every record working, the filter keeps every position in order |
| KeyPool.Select | app/utils/api-key-manager.ts:33-61 | a picked position lies inside the records |
| KeyPool.SelectNoneIff | app/utils/api-key-manager.ts:34-51 | `getWorkingKey` returns null exactly when no key is reachable at `now` (in particular with no keys) |
| KeyPool.SelectPicksWorking | app/utils/api-key-manager.ts:39-61 | a returned key was reachable, is working, and only its `lastUsed` (set to `now`) differs from the reactivation pass; all other records are as that pass left them; with no pick the cursor is unchanged |
| KeyPool.SelectKeepsKeys | app/utils/api-key-manager.ts:33-61 | a selection keeps the key list and returns one of its keys |
| KeyPool.SelectHealthy | app/utils/api-key-manager.ts:33-61 | a selection keeps the pool invariant |
| KeyPool.WorkingIndicesPrefix | app/utils/api-key-manager.ts:48 | the working positions of a prefix are the first working positions of the whole list, and the rest lie beyond the prefix |
| KeyPool.WorkingRank | app/utils/api-key-manager.ts:48-55 | the `c`-th working position has exactly `c` working records before it |
| KeyPool.SelectRotatesWorking | app/utils/api-key-manager.ts:48-59 | the picked record is working after reactivation and has exactly `cursor mod m` working records before it (`m` working records in all); the next cursor is `cursor mod m + 1` |
| KeyPool.RoundRobinWhenAllWork | app/utils/api-key-manager.ts:53-59 | with every key working, the call picks position `cursor mod n`, the cursor becomes `cursor mod n + 1`, and failure counts are kept |
| KeyPool.FindKey | app/utils/api-key-manager.ts:65 | `find` returns the first record holding the key, or nothing when no record does |
| KeyPool.MarkFailedEffect | app/utils/api-key-manager.ts:64-74 | the first record holding the key gets one more failure, `lastUsed = now`, and is disabled once its count reaches 3; nothing else changes; an unknown key changes nothing |
| KeyPool.MarkWorkingEffect | app/utils/api-key-manager.ts:76-83 | the first record holding the key becomes working with no failures and `lastUsed = now`; nothing else changes; an unknown key changes nothing |
| KeyPool.MarkKeepsKeys | app/utils/api-key-manager.ts:64-83 | neither report renames, adds or drops a record |
| KeyPool.MarkWorkingFinds | app/utils/api-key-manager.ts:76-83 | after a success report the record `find` returns for the key is the reset one |
| KeyPool.MarkFailedHealthy | app/utils/api-key-manager.ts:64-74 | a failure report keeps the pool invariant |
| KeyPool.MarkWorkingHealthy | app/utils/api-key-manager.ts:76-83 | a success report keeps the pool invariant |
| KeyPool.ThreeFailuresDisable | app/utils/api-key-manager.ts:64-74 | three failure reports on a key with no failures disable it with count 3; within the 60 000 ms cool-down it is unreachable and a call from cursor 0 does not pick it |
| KeyPool.ReserveHasWorking | app/utils/api-key-manager.ts:48-51 | while the failure reserve (the failures the working keys can still take before being disabled) is positive, some key works |
| KeyPool.FreshReserve | app/utils/api-key-manager.ts:25-30 | freshly parsed keys, working with no failures, give a reserve of 3 per key |
| KeyPool.ReservePicks | app/utils/api-key-manager.ts:33-51 | with a positive reserve `getWorkingKey` returns a key |
| KeyPool.WorkingKeyPicks | app/utils/api-key-manager.ts:39-51 | with a working record `getWorkingKey` returns a key |
| KeyPool.SelectKeepsReserve | app/utils/api-key-manager.ts:39-59 | `getWorkingKey` never lowers the reserve: reactivation only restores shares and the pick only stamps the time |
| KeyPool.MarkFailedCostsOne | app/utils/api-key-manager.ts:64-74 | a failure report lowers the reserve by at most one |
| KeyPool.Mask | app/utils/api-key-manager.ts:98 | the masked key is the first `min(8, length)` characters followed by `...` |
| KeyPool.MaskHidesSuffix | app/utils/api-key-manager.ts:98 | two keys with the same first eight characters have the same mask |
| KeyPool.Status | app/utils/api-key-manager.ts:96-102 | one masked entry per record, in order, with its working flag and failure count |
| KeyPool.ApiKeyManager.constructor | app/utils/api-key-manager.ts:14-31 | the pool holds the parsed records (none for an empty string), the cursor is 0, the invariant holds |
| KeyPool.ApiKeyManager.GetWorkingKey | app/utils/api-key-manager.ts:33-62 | the reactivation loop and the pick leave the records, cursor and result that `Select` specifies, keeping the invariant |
| KeyPool.ApiKeyManager.MarkKeyAsFailed | app/utils/api-key-manager.ts:64-74 | the records become `MarkFailed` of the old ones; the cursor is unchanged; the invariant is kept |
| KeyPool.ApiKeyManager.MarkKeyAsWorking | app/utils/api-key-manager.ts:76-83 | the records become `MarkWorking` of the old ones; the cursor is unchanged; the invariant is kept |
| KeyPool.ApiKeyManager.GetAllKeys | app/utils/api-key-manager.ts:85-87 | the configured keys in order |
| KeyPool.ApiKeyManager.GetWorkingKeysCount | app/utils/api-key-manager.ts:89-94 | at most the number of keys, and exactly the number of keys working after reactivation at `now` |
| KeyPool.ApiKeyManager.GetKeyStatus | app/utils/api-key-manager.ts:96-102 | exactly the `Status` view of the records: one entry per record, in order, with the key masked and the working flag and failure count copied |
| KeyPool.ThreeKeysParse | test-multi-keys.js:12 | `"key1,key2,key3"` parses to the three keys in order |
| KeyPool.ThreeKeysPool | test-multi-keys.js:12 | that configuration gives three working keys with no failures |
| KeyPool.RotationStep | app/utils/api-key-manager.ts:53-59 | on those three keys a call returns key number `cursor mod 3` and moves the cursor past it |
| KeyPool.NextOfThree | test-multi-keys.js:14-17 | one `getWorkingKey` call on the three keys returns the key at the cursor and keeps them all working |
| KeyPool.MarkSecond | test-multi-keys.js:23 | a failure report for `key2` changes only the second record |
| KeyPool.MiddleDown | app/utils/api-key-manager.ts:48 | three keys with only the middle one disabled leave two working keys |
| KeyPool.KeyTwoDisabled | test-multi-keys.js:23-27 | three failures of `key2` show it as `key2...`, disabled, count 3; the other records are untouched; two keys stay reachable |
| KeyPool.ThreeKeyManager | test-multi-keys.js:12 | `new ApiKeyManager("key1,key2,key3")` holds three unused working keys with the cursor at 0 |
| KeyPool.FivePicks | test-multi-keys.js:14-21 | five calls return key1, key2, key3, key1, key2 |
| KeyPool.FailKeyTwoThrice | test-multi-keys.js:23-27 | after three failures of `key2` its status is `key2...`, disabled, 3; the others work; the reachable count is 2 |
| KeyPool.MultiKeyScenario | test-multi-keys.js:12-27 | the multi-key part of the script: the picks, the status after three failures and the reachable count |
| KeyPool.EmptyConfigScenario | test-multi-keys.js:31-33 | an empty configuration has nothing reachable and returns no key |
| Client.EffectiveTimeout | app/utils/api-client.ts:95 | a missing or zero timeout falls back to 30 000 ms; any other value is kept |
| Client.HeaderMerge | app/utils/api-client.ts:88-92 | the caller's headers win; otherwise `Content-Type: application/json` and `Authorization: Bearer <key>` are sent; no other header appears |
| Client.AttemptResult | app/utils/api-client.ts:106-135 | success exactly for a 2xx reply, with its body; otherwise no data and the error text of the outcome (`HTTP <status>: <body>`, the timeout message, or the thrown message, `网络请求失败` when none); the masked key is always attached |
| Client.AuthStatusIsKeyRelated | app/utils/api-client.ts:139-154 | a 401 or 403 reply is key-related whatever its body, because its error text contains `401` or `403` |
| Client.NoPatternWithoutWitness | app/utils/api-client.ts:140-149 | a lowered text lacking k, z, u, v, q, 4 and m contains no pattern |
| Client.TimeoutNotKeyRelated | app/utils/api-client.ts:123-128 | the timeout is not key-related and not a success, so it ends the loop |
| Client.ServerErrorNotKeyRelated | app/utils/api-client.ts:106-111 | a 500 reply whose lowered body lacks those characters (`internal error`, say) is not key-related |
| Client.InternalErrorLacksWitnesses | app/utils/api-client.ts:140-149 | `internal error` lacks every witness character |
| Client.KeyRelatedIgnoresCase | app/utils/api-client.ts:151-153 | texts equal after lowering are classified alike |
| Client.Classify | app/utils/api-client.ts:61-74 | success exactly for a 2xx reply; key error exactly for a failure whose text is key-related |
| Client.StepShape | app/utils/api-client.ts:49-75 | one iteration either returns after at most one call, or goes on to the next iteration after one call |
| Client.StepOutcome | app/utils/api-client.ts:50-74 | an iteration goes on only after a key-related failure, with its text as the last error; it stops with "no working key" and no call, or after one call returning that call's result; on success the key is reset to working with `lastUsed` the report-time reading of the clock |
| Client.StepBounds | app/utils/api-client.ts:49-75 | an iteration keeps the key list and the invariant, and calls at most once with a configured key |
| Client.PoolLoopCallBound | app/utils/api-client.ts:46-49 | at most one call per remaining iteration |
| Client.PoolLoopKeepsPool | app/utils/api-client.ts:46-75 | the loop keeps the key list and the invariant, and every call uses a configured key |
| Client.ShiftLast | app/utils/api-client.ts:49-75 | what the last call decided is unchanged when an earlier key-failed call is put in front |
| Client.PoolLoopOutcome | app/utils/api-client.ts:46-80 | every call but the last failed on its key; the last decides: a success is returned with its key reset at the report time, any other non-key failure is returned, a key failure in the last iteration ends with the exhausted message and one in an earlier iteration ends with "no working key"; with no call the result is the exhausted message with the incoming last error after the last iteration, and "no working key" before it |
| Client.StepOnKeyError | app/utils/api-client.ts:66-71 | while the pool's failure reserve covers the remaining iterations, a key-failed call goes on to the next iteration with its text as the last error, and the reserve still covers what remains |
| Client.KeyErrorsExhaust | app/utils/api-client.ts:77-80 | when every call fails on its key and the failure reserve covers the remaining iterations, one call is made per iteration and the result is the exhausted prefix followed by the last call's error |
| Client.FreshPoolExhausts | app/utils/api-client.ts:46-80 | on a freshly configured pool whose every call fails on its key, the loop calls once per configured key and ends with the exhausted prefix followed by the last call's error |
| Client.ServerErrorStopsRotation | app/utils/api-client.ts:73-74 | a 500 reply with a non-key body to the first call ends the loop after that one call with `HTTP 500: <body>` |
| Client.IterationUnfolds | app/utils/api-client.ts:49-75 | the loop body, case by case, with the key picked at the pick-time reading and the outcome reported at the later report-time reading: no key, success, key-related failure, other failure |
| Client.ApiClient.constructor | app/utils/api-client.ts:22-26 | no pool exactly for an empty key string; otherwise a fresh pool of the parsed keys |
| Client.ApiClient.MakeRequest | app/utils/api-client.ts:28-81 | with a user key: one call with it, its result returned, the pool untouched; with no pool: `未配置API密钥` and no call; otherwise the result, calls and new pool state of `PoolLoop` over N = number of keys iterations, two clock readings per iteration |
| Client.ApiClient.TryKey | app/utils/api-client.ts:50-74 | one iteration of the loop performed on the pool object (pick at the first reading of the clock, report at the second) agrees with `PoolLoop` |
| Client.ApiClient.GetKeyStatus | app/utils/api-client.ts:156-158 | the pool's masked view, or empty without a pool |
| Client.ApiClient.GetWorkingKeysCount | app/utils/api-client.ts:160-162 | the pool's reachable count, or 0 without a pool |
| Client.CommaOnlyScenario | app/utils/api-client.ts:77-80 | the key string `","` gives a pool with no key: no call, and the exhausted prefix with an empty last error |
| Sequences.Filter | app/utils/history.ts:89 | `filter` keeps the items passing the test, each as often as it occurs, in their input order, and nothing else |
| Sequences.FilterAll | app/utils/history.ts:89 | a filter every item passes keeps the list |
| History.Insert | app/utils/history.ts:29 | one insertion step adds exactly the item |
| History.InsertNewestFirst | app/utils/history.ts:29 | inserting into a newest-first list keeps it newest first |
| History.SortPermutes | app/utils/history.ts:29 | the sort is a permutation |
| History.SortIsSorted | app/utils/history.ts:29 | the sort's result has non-increasing timestamps |
| History.InsertStable | app/utils/history.ts:29 | an insertion keeps the order among items of equal timestamp |
| History.SortIsStable | app/utils/history.ts:29 | the sort is stable: items of equal timestamp keep their input order |
| History.SortKeepsSorted | app/utils/history.ts:29 | a newest-first list is left as it is |
| History.GetAnalysisHistory | app/utils/history.ts:22-34 | a missing or unparseable slot reads as empty; otherwise one item per stored item |
| History.HistoryIsSorted | app/utils/history.ts:22-34 | what is read back is newest first and holds exactly the stored items |
| History.DistinctPermutation | app/utils/history.ts:29 | rearranging a list with distinct texts keeps them distinct |
| History.Take | app/utils/history.ts:75 | `slice(0, n)` keeps the first `min(n, length)` items |
| History.FindText | app/utils/history.ts:53 | `find` by text returns the first item with that text, or nothing when none has it |
| History.SaveEffect | app/utils/history.ts:52-75 | a new text is prepended as one new item; a known text is refreshed where it stands (time and tokens, translation only when non-empty) with nothing added; at most 100 items are written |
| History.SaveKeepsDistinct | app/utils/history.ts:52-72 | saving keeps the original texts distinct |
| History.FilterNewestFirst | app/utils/history.ts:89 | a filter of a newest-first list is newest first |
| History.DeleteEffect | app/utils/history.ts:86-94 | deleting keeps the items with another id, each as often as before, in their order, newest first, and nothing else |
| History.DeleteIdempotent | app/utils/history.ts:86-94 | deleting twice writes what deleting once wrote |
| History.Search | app/utils/history.ts:110-119 | a blank query returns the whole history; otherwise the items whose lowered text or non-empty lowered translation contains the lowered query, each as often as stored, in history order, and nothing else |
| History.SearchNewestFirst | app/utils/history.ts:110-119 | search results are newest first |
| History.SearchIgnoresCase | app/utils/history.ts:114-118 | queries equal after lowering give the same results |
| History.MergeTexts | app/utils/history.ts:195-205 | one `reduce` step adds the item's text to the kept texts |
| History.MergeDistinct | app/utils/history.ts:195-205 | one `reduce` step keeps the texts distinct |
| History.MergeFrom | app/utils/history.ts:195-205 | one `reduce` step keeps only items it had or the new one |
| History.DedupeTexts | app/utils/history.ts:194-205 | the `reduce` keeps exactly one item per text of its input |
| History.DedupeFrom | app/utils/history.ts:194-205 | the `reduce` keeps only input items |
| History.MergeKeepsNewest | app/utils/history.ts:196-203 | one `reduce` step keeps, per text, the first item with the newest timestamp |
| History.DedupeKeepsNewest | app/utils/history.ts:194-205 | every kept item has the greatest timestamp among the input items with its text, ties going to the first |
| History.SortedDedupe | app/utils/history.ts:208-209 | sorting the deduplicated list keeps its items and texts distinct and the same |
| History.ImportEffect | app/utils/history.ts:191-212 | after an import the written list has at most 100 items, distinct texts, is newest first, keeps per text the first newest item of imported-then-existing items, and below the cap covers every text |
| History.DedupeItems | app/utils/history.ts:194-205 | the `reduce` loop over the combined items computes `Dedupe`: per text, the first item with the newest timestamp, in first-occurrence order |
| History.HistoryStorage.Save | app/utils/history.ts:39-81 | the slot holds `SaveInto` of the history read, at most 100 items, with distinct texts when they were distinct before |
| History.HistoryStorage.Delete | app/utils/history.ts:86-94 | the slot holds the history read without the items carrying the id |
| History.HistoryStorage.Clear | app/utils/history.ts:99-105 | the slot is removed and reads back as empty |
| History.HistoryStorage.Import | app/utils/history.ts:177-216 | a file that is not JSON or not an array is rejected and the slot is unchanged; otherwise the `reduce` loop, sort and cap write `ImportInto`, and the count returned is the imported array's length |
| FileToText.CollapseBlanks | app/api/file-to-text/route.ts:34 | no tab, no two spaces in a row, nothing new but spaces |
| FileToText.CollapseBlanksKeepsOthers | app/api/file-to-text/route.ts:34 | the characters other than spaces and tabs are kept, in order |
| FileToText.CollapseBlanksRun | app/api/file-to-text/route.ts:34 | a maximal run of spaces and tabs between other characters becomes exactly one space, and the text on either side is collapsed on its own |
| FileToText.CollapseBlanksFixes | app/api/file-to-text/route.ts:34 | text with no tab and no double space is unchanged |
| FileToText.CollapseBlanksIdempotent | app/api/file-to-text/route.ts:34 | collapsing twice is collapsing once |
| FileToText.CapNewlines | app/api/file-to-text/route.ts:37 | no three newlines in a row, nothing new |
| FileToText.CapNewlinesKeepsOthers | app/api/file-to-text/route.ts:37 | the characters other than newlines are kept, in order |
| FileToText.CapNewlinesRun | app/api/file-to-text/route.ts:37 | a maximal run of k newlines between other characters becomes min(k, 2) newlines, and the text on either side is capped on its own |
| FileToText.CapNewlinesFixes | app/api/file-to-text/route.ts:37 | text with no three newlines in a row is unchanged |
| FileToText.DropLeadingSpaces | app/api/file-to-text/route.ts:38 | no newline is followed by a space, nothing new |
| FileToText.DropLeadingKeepsOthers | app/api/file-to-text/route.ts:38 | the characters other than spaces are kept, in order |
| FileToText.DropLeadingSpacesRun | app/api/file-to-text/route.ts:38 | a maximal run of spaces right after a newline is dropped; the same run after any other character is kept; the text on either side is treated on its own |
| FileToText.DropLeadingSpacesFixes | app/api/file-to-text/route.ts:38 | text where no newline is followed by a space is unchanged |
| FileToText.DropTrailingSpaces | app/api/file-to-text/route.ts:39 | no space is followed by a newline, nothing new |
| FileToText.DropTrailingKeepsOthers | app/api/file-to-text/route.ts:39 | the characters other than spaces are kept, in order |
| FileToText.DropTrailingSpacesRun | app/api/file-to-text/route.ts:39 | a maximal run of spaces right before a newline is dropped; the same run before any other character is kept; the text on either side is treated on its own |
| FileToText.DropTrailingSpacesFixes | app/api/file-to-text/route.ts:39 | text where no space is followed by a newline is unchanged |
| FileToText.RemoveReplacementChars | app/api/file-to-text/route.ts:44 | every U+FFFD is removed and every other character is kept, as often as it occurs and in order |
| FileToText.NbspToSpace | app/api/file-to-text/route.ts:45 | each no-break space becomes a space, position by position |
| FileToText.NbspGone | app/api/file-to-text/route.ts:45 | no no-break space remains and nothing new but spaces |
| FileToText.CleanCharsDrops | app/api/file-to-text/route.ts:34-45 | after the replacements no tab, U+FFFD or U+00A0 is left |
| FileToText.KeepLines | app/api/file-to-text/route.ts:54-61 | the lines whose trim is at least three characters long and not all digits are kept, each as often as it occurs, in order, and nothing else |
| FileToText.ProcessEmpty | app/api/file-to-text/route.ts:27 | the empty text gives the empty text |
| FileToText.TrimEndJoin | app/api/file-to-text/route.ts:63-66 | trimming the end of joined lines trims only the last line |
| FileToText.TrimJoin | app/api/file-to-text/route.ts:63-66 | trimming joined lines with text at both ends trims only the first line's start and the last line's end |
| FileToText.EdgeTrimmedGood | app/api/file-to-text/route.ts:54-61 | lines the filter keeps still pass it after their edges are trimmed |
| FileToText.TrimJoinedLines | app/api/file-to-text/route.ts:63-66 | trimming the joined kept lines leaves text whose lines are those lines, edges trimmed, each passing the filter |
| FileToText.ProcessLines | app/api/file-to-text/route.ts:53-66 | the output is empty exactly when no line is kept; otherwise its lines are the kept lines in order (outer edges trimmed), each at least three characters once trimmed and not a page number |
| FileToText.ProcessKeepsOut | app/api/file-to-text/route.ts:53-66 | a character other than newline that the replacements left out is not in the output |
| FileToText.LinesKeepOut | app/api/file-to-text/route.ts:53-66 | splitting, filtering, joining and trimming the cleaned text adds no character other than newline |
| FileToText.ProcessDropsChars | app/api/file-to-text/route.ts:34-66 | the output has no tab, U+FFFD or U+00A0, and no whitespace at either end |
| FileToText.Truncate | app/api/file-to-text/route.ts:254-257 | text of at most 50 000 characters is unchanged; longer text becomes its first 50 000 characters followed by the notice |
| FileToText.TruncateIdempotent | app/api/file-to-text/route.ts:254-257 | truncating a truncated text changes nothing |
| FileToText.ServerApiUrl | app/api/file-to-text/route.ts:73 | the environment's URL when set and not empty, else the public endpoint; never empty |
| FileToText.ForwardUrlChain | app/api/file-to-text/route.ts:73-103 | a forwarded request goes to the form's URL when given, else the environment's URL, else the public endpoint; never to an empty URL |
| FileToText.BearerTokenWins | app/api/file-to-text/route.ts:96-100 | a `Bearer <token>` header yields the token whatever the server key |
| FileToText.ServerKeyFallback | app/api/file-to-text/route.ts:97-100 | with no header or an empty one the server key is used |
| FileToText.ChecksInOrder | app/api/file-to-text/route.ts:105-125 | no key gives 500 before a missing file gives 400, before an oversized file gives 413; 413 only for a file over 50 MiB |
| FileToText.PdfComesFirst | app/api/file-to-text/route.ts:136 | a PDF type or a `.pdf` name in any case makes the file a PDF |
| FileToText.LegacyWordRefused | app/api/file-to-text/route.ts:178-225 | a `.doc` name classifies the file as legacy Word unless the type says PDF or Word |
| FileToText.MsWordRefused | app/api/file-to-text/route.ts:178-225 | the `application/msword` type classifies the file as legacy Word unless the name ends in `.pdf` or `.docx` |
| FileToText.RefusedKinds | app/api/file-to-text/route.ts:222-235 | after the size check, legacy Word gets 400 with the `.doc` message and any other unsupported kind gets 400 with the unsupported-format message |
| FileToText.ExtractionRefused | app/api/file-to-text/route.ts:171-247 | a parse that throws gets 400 with `文件解析失败: ` before the message (and `PDF解析失败: ` as well for a PDF); a PDF with no text after clean-up or a Word file with no text gets 400 with its "no readable text" message under the same prefixes |
| FileToText.OnlyTextIsAnswered | app/api/file-to-text/route.ts:105-247 | a request not rejected had a key, a file within the limit of PDF or Word kind, and text from the library |
| FileToText.HandleExtracted | app/api/file-to-text/route.ts:136-257 | a PDF or Word file that passes the checks and yields text is answered by `Respond` on that text |
| FileToText.DocxTextExtracted | app/api/file-to-text/route.ts:196-221 | a Word document with non-whitespace text yields that text unchanged, without the PDF clean-up |
| FileToText.RawExtractedText | app/api/file-to-text/route.ts:253-268 | with the raw-text marker in the prompt, the truncated extracted text of either kind is the answer, without an upstream call |
| FileToText.RawDocxText | app/api/file-to-text/route.ts:196-268 | with the marker, a Word document with text is answered with its truncated, uncleaned text |
| FileToText.ForwardExtracted | app/api/file-to-text/route.ts:253-291 | without the marker, either kind is forwarded with the form's URL or the server's, the form's model or the default, streaming only for "true", and the form's prompt or else the default instruction followed by the truncated text |
| FileToText.RawPdfText | app/api/file-to-text/route.ts:260-268 | with the raw-text marker in the prompt, a PDF yielding text is answered with its cleaned and truncated text, without an upstream call |

## Left out

- The network call, the abort timer and `response.json()`/`text()` in `api-client.ts` are not modelled. They are an oracle from the attempt number and the request to a reply. A 2xx body is kept as text, not parsed.
- The request body (`JSON.stringify(config.body)`) is not carried in the request: the loop does not depend on it.
- `Date.now()` is a parameter everywhere. The random id of `generateHistoryId` is a parameter.
- `formatTimestamp` (floating-point hours, locale dates) and `exportHistory` (`Blob`, download link) are not modelled. They are presentation and browser I/O.
- `localStorage`, `JSON.parse`/`stringify` and `FileReader` are not modelled. Storage is the decoded slot `Stored`, and an import receives the decoded file `Parsed`.
- A stored value that parses to a non-array makes `getAnalysisHistory` fail inside its `try` and return `[]`. The model folds it into `Unparseable`.
- Items that do not have the expected fields are not modelled.
- The pdf-parse and mammoth libraries, their dynamic loading and its failure messages are not modelled. Neither is mammoth's HTML fallback with tag stripping (`route.ts:10-23, 144-209`). The library's result is a parameter.
- The upstream `fetch`, streaming pass-through and response re-wrapping of the route (`route.ts:294-361`) are not modelled; `Forward` records what would be sent.
- The constant `reasoning_effort: "none"` of the payload is not recorded in `Forward`.
- `app/api/analyze/route.ts`, `app/api/key-status/route.ts` and the React components are not part of this model. They are thin handlers and UI.
- Concurrent access to the module-level clients is out of scope; calls are sequential.
- JsString.ToLower: lowers ASCII letters only. JavaScript lowers every Unicode capital, so search and classification are modelled for ASCII case differences.
- String lengths count code points, where JavaScript counts UTF-16 units. The 50 000-character cut and the 8-character mask differ for text outside the Basic Multilingual Plane.
- FileToText.RawPdfText: is stated for a PDF whose cleaned text is non-empty. A PDF whose text is empty after cleaning is rejected with the "no readable text" message, which `ExtractionRefused` states; Word documents are covered by `RawDocxText` and `RawExtractedText`.
- KeyPool.Select: its own contract only bounds the picked position. What the pick means is stated by `SelectNoneIff`, `SelectPicksWorking`, `SelectRotatesWorking` and `RoundRobinWhenAllWork`.
