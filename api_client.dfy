/**
  The failover request loop of app/utils/api-client.ts.

  A request made with the caller's own key is sent once with that key. With
  no caller key, the client asks its key pool for a key up to N times (N =
  the number of configured keys): a success marks the key working and ends
  the loop, a key-related error marks the key failed and moves on, any other
  error ends the loop. The network is an oracle `send` from the attempt
  number and the request actually built to what came back; the clock is
  `clock`, read twice per iteration (`PickTime`, `ReportTime`).
 */
module Client {
  import opened Wrappers
  import opened JsString
  import opened KeyPool

  const DefaultTimeout: int := 30000

  const NoKeyConfigured: string := "未配置API密钥"
  const NoWorkingKey: string := "暂无可用的API密钥，请稍后重试"
  const AllKeysFailedPrefix: string := "所有API密钥均不可用: "
  const TimeoutMessage: string := "请求超时"
  const NetworkFailed: string := "网络请求失败"

  /** Substrings that mark an error as caused by the key, compared case-insensitively. */
  const KeyErrorPatterns: seq<string> :=
    ["API key", "unauthorized", "authentication", "invalid token", "quota exceeded", "401", "403", "rate limit"]

  datatype HttpMethod = GET | POST | PUT | DELETE

  /** `ApiRequestConfig`; the JSON body is opaque to the loop and not modelled. */
  datatype RequestConfig = RequestConfig(
    url: string, verb: HttpMethod, headers: Option<map<string, string>>, timeout: Option<int>)

  /** The request handed to `fetch`: URL, method, merged headers and the abort delay. */
  datatype Outgoing = Outgoing(url: string, verb: HttpMethod, headers: map<string, string>, timeoutMs: int)

  /**
    What one `fetch` produced: a response with its status and body text (for a
    2xx status the parsed payload, kept as text), the abort timer firing, or
    another thrown value (`Some(message)` for an `Error`, `None` otherwise).
   */
  datatype RawOutcome = HttpReply(status: nat, body: string) | Aborted | Thrown(message: Option<string>)

  /** `ApiResponse`: `data` on success, `error` on failure, and the masked key used. */
  datatype ApiResponse = ApiResponse(success: bool, data: Option<string>, error: Option<string>, usedKey: Option<string>)

  function Failure(message: string): ApiResponse {
    ApiResponse(false, None, Some(message), None)
  }

  // ---------------------------------------------------------------------------
  // One attempt (`makeRequestWithKey`)

  /** `config.timeout || 30000`: a missing or zero timeout falls back to 30 s. */
  function EffectiveTimeout(t: Option<int>): (ms: int)
    ensures t.None? ==> ms == DefaultTimeout
    ensures t.Some? ==> ms == if t.value == 0 then DefaultTimeout else t.value
  {
    match t
    case None => DefaultTimeout
    case Some(v) => if v == 0 then DefaultTimeout else v
  }

  function DefaultHeaders(key: string): map<string, string> {
    map["Content-Type" := "application/json", "Authorization" := "Bearer " + key]
  }

  /** Headers `{ 'Content-Type', 'Authorization', ...config.headers }`. */
  function BuildRequest(cfg: RequestConfig, key: string): Outgoing {
    Outgoing(cfg.url, cfg.verb, DefaultHeaders(key) + cfg.headers.GetOr(map[]), EffectiveTimeout(cfg.timeout))
  }

  /**
    The caller's headers win over the two defaults; every other default is
    kept, so the request carries `Bearer <key>` unless the caller set its own
    `Authorization`, and JSON content unless it set its own `Content-Type`.
   */
  lemma HeaderMerge(cfg: RequestConfig, key: string)
    ensures var h := BuildRequest(cfg, key).headers; var custom := cfg.headers.GetOr(map[]);
      && h.Keys == custom.Keys + {"Content-Type", "Authorization"}
      && (forall name :: name in custom ==> h[name] == custom[name])
      && ("Authorization" !in custom ==> h["Authorization"] == "Bearer " + key)
      && ("Content-Type" !in custom ==> h["Content-Type"] == "application/json")
  {
  }

  /** The error text of a failed attempt. */
  function ErrorText(raw: RawOutcome): string {
    match raw
    case HttpReply(status, body) => "HTTP " + NatToString(status) + ": " + body
    case Aborted => TimeoutMessage
    case Thrown(message) => message.GetOr(NetworkFailed)
  }

  predicate IsOk(raw: RawOutcome) {
    raw.HttpReply? && 200 <= raw.status <= 299
  }

  /** What `makeRequestWithKey` returns for what came back. */
  function AttemptResult(key: string, raw: RawOutcome): (r: ApiResponse)
    ensures r.usedKey == Some(Mask(key))
    ensures r.success <==> IsOk(raw)
    ensures r.success ==> r.data == Some(raw.body) && r.error.None?
    ensures !r.success ==> r.error == Some(ErrorText(raw)) && r.data.None?
  {
    if IsOk(raw) then ApiResponse(true, Some(raw.body), None, Some(Mask(key)))
    else ApiResponse(false, None, Some(ErrorText(raw)), Some(Mask(key)))
  }

  /** `makeRequestWithKey(config, key)` as the `attempt`-th network call. */
  function MakeRequestWithKey(cfg: RequestConfig, key: string, send: (nat, Outgoing) -> RawOutcome, attempt: nat): ApiResponse {
    AttemptResult(key, send(attempt, BuildRequest(cfg, key)))
  }

  // ---------------------------------------------------------------------------
  // Classification (`isKeyRelatedError`)

  /** Some pattern occurs in the error, both lowered. */
  predicate IsKeyRelatedError(e: string) {
    exists i :: 0 <= i < |KeyErrorPatterns| && Contains(ToLower(e), ToLower(KeyErrorPatterns[i]))
  }

  /** A failed attempt whose error the loop treats as the key's fault. */
  predicate KeyFailure(raw: RawOutcome) {
    !IsOk(raw) && IsKeyRelatedError(ErrorText(raw))
  }

  lemma DecimalOf401And403()
    ensures NatToString(401) == "401" && NatToString(403) == "403"
  {
    assert NatToString(40) == "40";
  }

  /** A 401 or 403 reply is always key-related, whatever its body, because its error starts "HTTP 401: " or "HTTP 403: ". */
  lemma AuthStatusIsKeyRelated(status: nat, body: string)
    requires status == 401 || status == 403
    ensures KeyFailure(HttpReply(status, body))
  {
    DecimalOf401And403();
    var e := ErrorText(HttpReply(status, body));
    var code := NatToString(status);
    assert e == "HTTP " + code + ": " + body;
    var k := if status == 401 then 5 else 6;
    assert KeyErrorPatterns[k] == code;
    assert ToLower(code) == code;
    assert e[5..8] == code;
    ToLowerSlice(e, 5, 8);
    assert OccursAt(ToLower(e), ToLower(KeyErrorPatterns[k]), 5);
  }

  /** A pattern one of whose characters, lowered, is missing from `s` does not occur in `s`. */
  lemma PatternAbsent(s: string, i: nat, at: nat, c: char)
    requires i < |KeyErrorPatterns| && at < |KeyErrorPatterns[i]|
    requires LowerChar(KeyErrorPatterns[i][at]) == c && c !in s
    ensures !Contains(s, ToLower(KeyErrorPatterns[i]))
  {
    MissingCharNotContained(s, ToLower(KeyErrorPatterns[i]), c);
  }

  /** `s` holds none of the characters k, z, u, v, q, 4, m: each pattern, lowered, holds one of them. */
  predicate LacksWitnesses(s: string) {
    forall k | 0 <= k < |s| :: s[k] != 'k' && s[k] != 'z' && s[k] != 'u' && s[k] != 'v' && s[k] != 'q' && s[k] != '4' && s[k] != 'm'
  }

  /** A lowered error without any witness character matches no pattern. */
  lemma NoPatternWithoutWitness(lowered: string)
    requires LacksWitnesses(lowered)
    ensures forall i :: 0 <= i < |KeyErrorPatterns| ==> !Contains(lowered, ToLower(KeyErrorPatterns[i]))
  {
    PatternAbsent(lowered, 0, 4, 'k');
    PatternAbsent(lowered, 1, 9, 'z');
    PatternAbsent(lowered, 2, 1, 'u');
    PatternAbsent(lowered, 3, 2, 'v');
    PatternAbsent(lowered, 4, 0, 'q');
    PatternAbsent(lowered, 5, 0, '4');
    PatternAbsent(lowered, 6, 0, '4');
    PatternAbsent(lowered, 7, 7, 'm');
  }

  /** A timeout is never blamed on the key, so it ends the loop. */
  lemma TimeoutNotKeyRelated()
    ensures !IsKeyRelatedError(TimeoutMessage)
    ensures !KeyFailure(Aborted) && !IsOk(Aborted)
  {
    assert ToLower(TimeoutMessage) == TimeoutMessage;
    NoPatternWithoutWitness(TimeoutMessage);
  }

  lemma Decimal500()
    ensures NatToString(500) == "500"
  {
    assert NatToString(50) == "50";
  }

  lemma LacksWitnessesConcat(a: string, b: string)
    requires LacksWitnesses(a) && LacksWitnesses(b)
    ensures LacksWitnesses(a + b)
  {
    forall k | 0 <= k < |a + b|
      ensures (a + b)[k] != 'k' && (a + b)[k] != 'z' && (a + b)[k] != 'u' && (a + b)[k] != 'v'
        && (a + b)[k] != 'q' && (a + b)[k] != '4' && (a + b)[k] != 'm'
    {
      if k >= |a| {
        assert (a + b)[k] == b[k - |a|];
      }
    }
  }

  /**
    A 500 reply is not key-related, so it ends the loop, whenever its body,
    lowered, holds none of the characters that every pattern needs one of
    ("internal error", say).
   */
  lemma ServerErrorNotKeyRelated(body: string)
    requires LacksWitnesses(ToLower(body))
    ensures ErrorText(HttpReply(500, body)) == "HTTP 500: " + body
    ensures !KeyFailure(HttpReply(500, body)) && !IsOk(HttpReply(500, body))
  {
    Decimal500();
    ToLowerConcat("HTTP 500: ", body);
    assert ToLower("HTTP 500: ") == "http 500: ";
    LacksWitnessesConcat("http 500: ", ToLower(body));
    NoPatternWithoutWitness(ToLower("HTTP 500: " + body));
  }

  lemma InternalErrorLacksWitnesses()
    ensures LacksWitnesses(ToLower("internal error"))
  {
    assert ToLower("internal error") == "internal error";
  }

  /** Only the ASCII letter case of the error matters. */
  lemma KeyRelatedIgnoresCase(a: string, b: string)
    requires ToLower(a) == ToLower(b)
    ensures IsKeyRelatedError(a) <==> IsKeyRelatedError(b)
  {
  }

  // ---------------------------------------------------------------------------
  // The failover loop, as a function

  /** The result, the pool records and cursor after the loop, and the keys tried in order. */
  datatype Run = Run(response: ApiResponse, keys: seq<KeyConfig>, cursor: nat, tried: seq<string>)

  function Exhausted(lastError: string): ApiResponse {
    Failure(AllKeysFailedPrefix + lastError)
  }

  /** How the loop reacts to what came back: return it, or mark the key failed and go on. */
  datatype Verdict = Succeeded | KeyError | Fatal

  function Classify(raw: RawOutcome): (v: Verdict)
    ensures v == Succeeded <==> IsOk(raw)
    ensures v == KeyError <==> KeyFailure(raw)
  {
    if IsOk(raw) then Succeeded
    else if IsKeyRelatedError(ErrorText(raw)) then KeyError
    else Fatal
  }

  /** The run `rest` with `key` tried before its own keys. */
  function Prefixed(key: string, rest: Run): Run {
    rest.(tried := [key] + rest.tried)
  }

  /** Iteration `i` reads the clock twice: when it asks the pool for a key (`getWorkingKey`) ... */
  function PickTime(clock: nat -> int, i: nat): int {
    clock(2 * i)
  }

  /** ... and again, after the call came back, when it reports the outcome (`markKeyAsWorking`, `markKeyAsFailed`). */
  function ReportTime(clock: nat -> int, i: nat): int {
    clock(2 * i + 1)
  }

  /**
    Iterations `i` to `n - 1` of the `for` loop of `makeRequest`,
    `lastError` holding the last key-related error: when none is left, the
    exhausted message.
   */
  function PoolLoop(ks: seq<KeyConfig>, cursor: nat, cfg: RequestConfig, send: (nat, Outgoing) -> RawOutcome,
                    clock: nat -> int, i: nat, n: nat, lastError: string): Run
    decreases n - i, 3
  {
    if i >= n then Run(Exhausted(lastError), ks, cursor, [])
    else Iteration(ks, cursor, cfg, send, clock, i, n)
  }

  /** Iteration `i` asks the pool for a key at its pick time. */
  function Iteration(ks: seq<KeyConfig>, cursor: nat, cfg: RequestConfig, send: (nat, Outgoing) -> RawOutcome,
                     clock: nat -> int, i: nat, n: nat): Run
    requires i < n
    decreases n - i, 2
  {
    Attempt(ks, cursor, PickTime(clock, i), cfg, send, clock, i, n)
  }

  /** Iteration `i` asks the pool for a key at time `now`: with none, stop; otherwise make the `i`-th network call with it. */
  function Attempt(ks: seq<KeyConfig>, cursor: nat, now: int, cfg: RequestConfig, send: (nat, Outgoing) -> RawOutcome,
                   clock: nat -> int, i: nat, n: nat): Run
    requires i < n
    decreases n - i, 1
  {
    var sel := Select(ks, cursor, now);
    match PickedKey(sel)
    case None => Run(Failure(NoWorkingKey), sel.keys, sel.cursor, [])
    case Some(key) => React(sel, key, send(i, BuildRequest(cfg, key)), cfg, send, clock, i, n)
  }

  /**
    Iteration `i` once the call with `key` came back with `raw`: on success
    mark the key working and stop, on a key-related failure mark it failed
    and go on, on any other failure stop.
   */
  function React(sel: Selection, key: string, raw: RawOutcome, cfg: RequestConfig, send: (nat, Outgoing) -> RawOutcome,
                 clock: nat -> int, i: nat, n: nat): Run
    requires i < n
    decreases n - i, 0
  {
    var now := ReportTime(clock, i);
    match Classify(raw)
    case Succeeded => Run(AttemptResult(key, raw), MarkWorking(sel.keys, key, now), sel.cursor, [key])
    case Fatal => Run(AttemptResult(key, raw), sel.keys, sel.cursor, [key])
    case KeyError => Prefixed(key, PoolLoop(MarkFailed(sel.keys, key, now), sel.cursor, cfg, send, clock, i + 1, n, ErrorText(raw)))
  }

  /** The outcome of the `j`-th network call of a run starting at iteration `i`. */
  function NthAttempt(cfg: RequestConfig, send: (nat, Outgoing) -> RawOutcome, i: nat, tried: seq<string>, j: nat): RawOutcome
    requires j < |tried|
  {
    send(i + j, BuildRequest(cfg, tried[j]))
  }

  /** How one iteration ends: the loop returns `run`, or it marked `key` failed and goes on from `keys`, `cursor` with `error` as the last error. */
  datatype Step = Stop(run: Run) | Continue(key: string, keys: seq<KeyConfig>, cursor: nat, error: string)

  /** One iteration either returns, after at most one call, or goes on with the next one after a call with `st.key`. */
  lemma StepShape(ks: seq<KeyConfig>, cursor: nat, cfg: RequestConfig, send: (nat, Outgoing) -> RawOutcome,
                  clock: nat -> int, i: nat, n: nat, lastError: string) returns (st: Step)
    requires i < n
    ensures var run := PoolLoop(ks, cursor, cfg, send, clock, i, n, lastError);
      && (st.Stop? ==> run == st.run && |run.tried| <= 1)
      && (st.Continue? ==> run == Prefixed(st.key, PoolLoop(st.keys, st.cursor, cfg, send, clock, i + 1, n, st.error)))
  {
    var pick, report := PickTime(clock, i), ReportTime(clock, i);
    var sel := Select(ks, cursor, pick);
    var it := Attempt(ks, cursor, pick, cfg, send, clock, i, n);
    match PickedKey(sel)
    case None =>
      st := Stop(it);
    case Some(key) =>
      var raw := send(i, BuildRequest(cfg, key));
      var reacted := React(sel, key, raw, cfg, send, clock, i, n);
      if Classify(raw) == KeyError {
        st := Continue(key, MarkFailed(sel.keys, key, report), sel.cursor, ErrorText(raw));
      } else {
        st := Stop(it);
      }
  }

  /**
    One iteration either goes on after a key-related failure of its call,
    or stops: with "no working key" and no call, or after one call that
    succeeded (its key then left working with no failures) or failed for
    another reason, returning what that call produced.
   */
  lemma StepOutcome(ks: seq<KeyConfig>, cursor: nat, cfg: RequestConfig, send: (nat, Outgoing) -> RawOutcome,
                    clock: nat -> int, i: nat, n: nat, lastError: string) returns (st: Step)
    requires i < n
    ensures var run := PoolLoop(ks, cursor, cfg, send, clock, i, n, lastError);
      && (st.Continue? ==>
            && run == Prefixed(st.key, PoolLoop(st.keys, st.cursor, cfg, send, clock, i + 1, n, st.error))
            && KeyFailure(send(i, BuildRequest(cfg, st.key)))
            && st.error == ErrorText(send(i, BuildRequest(cfg, st.key))))
      && (st.Stop? ==> run == st.run)
      && (st.Stop? && run.tried == [] ==> run.response == Failure(NoWorkingKey))
      && (st.Stop? && run.tried != [] ==>
            var key := run.tried[0];
            var raw := send(i, BuildRequest(cfg, key));
            && |run.tried| == 1
            && !KeyFailure(raw)
            && run.response == AttemptResult(key, raw)
            && (IsOk(raw) ==>
                  FindKey(run.keys, key).Some? && run.keys[FindKey(run.keys, key).value] == KeyConfig(key, true, ReportTime(clock, i), 0)))
  {
    var pick, report := PickTime(clock, i), ReportTime(clock, i);
    var sel := Select(ks, cursor, pick);
    var it := Attempt(ks, cursor, pick, cfg, send, clock, i, n);
    SelectKeepsKeys(ks, cursor, pick);
    match PickedKey(sel)
    case None =>
      st := Stop(it);
    case Some(key) =>
      var raw := send(i, BuildRequest(cfg, key));
      var reacted := React(sel, key, raw, cfg, send, clock, i, n);
      match Classify(raw)
      case Succeeded =>
        MarkWorkingFinds(sel.keys, key, report);
        st := Stop(it);
      case Fatal =>
        st := Stop(it);
      case KeyError =>
        st := Continue(key, MarkFailed(sel.keys, key, report), sel.cursor, ErrorText(raw));
  }

  /** One iteration keeps the key list and the pool invariant, and calls the network at most once, with a configured key. */
  lemma StepBounds(ks: seq<KeyConfig>, cursor: nat, cfg: RequestConfig, send: (nat, Outgoing) -> RawOutcome,
                   clock: nat -> int, i: nat, n: nat, lastError: string) returns (st: Step)
    requires i < n
    requires Healthy(ks)
    ensures var run := PoolLoop(ks, cursor, cfg, send, clock, i, n, lastError);
      && (st.Stop? ==>
            && run == st.run
            && Keys(run.keys) == Keys(ks) && Healthy(run.keys) && |run.tried| <= 1
            && (run.tried != [] ==> run.tried[0] in Keys(ks)))
      && (st.Continue? ==>
            && run == Prefixed(st.key, PoolLoop(st.keys, st.cursor, cfg, send, clock, i + 1, n, st.error))
            && Keys(st.keys) == Keys(ks) && Healthy(st.keys) && st.key in Keys(ks))
  {
    var pick, report := PickTime(clock, i), ReportTime(clock, i);
    var sel := Select(ks, cursor, pick);
    var it := Attempt(ks, cursor, pick, cfg, send, clock, i, n);
    SelectKeepsKeys(ks, cursor, pick);
    SelectHealthy(ks, cursor, pick);
    match PickedKey(sel)
    case None =>
      st := Stop(it);
    case Some(key) =>
      MarkKeepsKeys(sel.keys, key, report);
      MarkWorkingHealthy(sel.keys, key, report);
      MarkFailedHealthy(sel.keys, key, report);
      var raw := send(i, BuildRequest(cfg, key));
      var reacted := React(sel, key, raw, cfg, send, clock, i, n);
      if Classify(raw) == KeyError {
        st := Continue(key, MarkFailed(sel.keys, key, report), sel.cursor, ErrorText(raw));
      } else {
        st := Stop(it);
      }
  }

  /** At most one network call per remaining iteration, and none once no iteration is left. */
  lemma {:induction false} PoolLoopCallBound(ks: seq<KeyConfig>, cursor: nat, cfg: RequestConfig, send: (nat, Outgoing) -> RawOutcome,
                                             clock: nat -> int, i: nat, n: nat, lastError: string)
    ensures var run := PoolLoop(ks, cursor, cfg, send, clock, i, n, lastError);
      && (i <= n ==> |run.tried| <= n - i)
      && (i >= n ==> run.tried == [])
    decreases n - i
  {
    if i < n {
      var st := StepShape(ks, cursor, cfg, send, clock, i, n, lastError);
      if st.Continue? {
        PoolLoopCallBound(st.keys, st.cursor, cfg, send, clock, i + 1, n, st.error);
      }
    }
  }

  /** The pool keeps its keys, in order, and its invariant, and every call uses one of its keys. */
  lemma {:induction false} PoolLoopKeepsPool(ks: seq<KeyConfig>, cursor: nat, cfg: RequestConfig, send: (nat, Outgoing) -> RawOutcome,
                                             clock: nat -> int, i: nat, n: nat, lastError: string)
    requires Healthy(ks)
    ensures var run := PoolLoop(ks, cursor, cfg, send, clock, i, n, lastError);
      && Keys(run.keys) == Keys(ks)
      && Healthy(run.keys)
      && (forall j :: 0 <= j < |run.tried| ==> run.tried[j] in Keys(ks))
    decreases n - i
  {
    if i < n {
      var st := StepBounds(ks, cursor, cfg, send, clock, i, n, lastError);
      if st.Continue? {
        PoolLoopKeepsPool(st.keys, st.cursor, cfg, send, clock, i + 1, n, st.error);
      }
    }
  }

  /**
    The last call of a run that made one: a success is returned and its key
    left working with no failures; a failure that is not key-related is
    returned; a key-related one ends in the exhausted message when every
    iteration made its call, and otherwise in "no working key" (a later
    iteration found no key).
   */
  ghost predicate LastAttemptOutcome(run: Run, cfg: RequestConfig, send: (nat, Outgoing) -> RawOutcome, clock: nat -> int, i: nat, n: nat)
    requires run.tried != []
  {
    var t := run.tried;
    var last := NthAttempt(cfg, send, i, t, |t| - 1);
    var key := t[|t| - 1];
    && (IsOk(last) ==>
          && run.response == AttemptResult(key, last)
          && FindKey(run.keys, key).Some?
          && run.keys[FindKey(run.keys, key).value] == KeyConfig(key, true, ReportTime(clock, i + |t| - 1), 0))
    && (!IsOk(last) && !KeyFailure(last) ==> run.response == AttemptResult(key, last))
    && (KeyFailure(last) && |t| == n - i ==> run.response == Exhausted(ErrorText(last)))
    && (KeyFailure(last) && |t| != n - i ==> run.response == Failure(NoWorkingKey))
  }

  /** Every call of `tried` but the last, the `j`-th made at iteration `i + j`, failed on its key. */
  ghost predicate EarlierCallsFailOnKey(cfg: RequestConfig, send: (nat, Outgoing) -> RawOutcome, i: nat, tried: seq<string>)
    decreases |tried|
  {
    |tried| <= 1 || (KeyFailure(send(i, BuildRequest(cfg, tried[0]))) && EarlierCallsFailOnKey(cfg, send, i + 1, tried[1..]))
  }

  lemma ShiftLast(rest: Run, key: string, cfg: RequestConfig, send: (nat, Outgoing) -> RawOutcome, clock: nat -> int, i: nat, n: nat)
    requires rest.tried != []
    requires LastAttemptOutcome(rest, cfg, send, clock, i + 1, n)
    ensures LastAttemptOutcome(Prefixed(key, rest), cfg, send, clock, i, n)
  {
    var t := [key] + rest.tried;
    assert t[|t| - 1] == rest.tried[|rest.tried| - 1];
    assert NthAttempt(cfg, send, i, t, |t| - 1) == NthAttempt(cfg, send, i + 1, rest.tried, |rest.tried| - 1);
  }

  /**
    How the loop ends. Every call but the last failed with a key-related
    error; the last call decides as `LastAttemptOutcome` says; and with no
    call at all the result is the exhausted message with the incoming
    `lastError` when no iteration was left, and "no working key" otherwise.
   */
  lemma {:induction false} PoolLoopOutcome(ks: seq<KeyConfig>, cursor: nat, cfg: RequestConfig, send: (nat, Outgoing) -> RawOutcome,
                                           clock: nat -> int, i: nat, n: nat, lastError: string)
    requires i <= n
    ensures var run := PoolLoop(ks, cursor, cfg, send, clock, i, n, lastError);
      var t := run.tried;
      && EarlierCallsFailOnKey(cfg, send, i, t)
      && (t == [] && i == n ==> run.response == Exhausted(lastError))
      && (t == [] && i < n ==> run.response == Failure(NoWorkingKey))
      && (t != [] ==> LastAttemptOutcome(run, cfg, send, clock, i, n))
    decreases n - i
  {
    if i < n {
      var st := StepOutcome(ks, cursor, cfg, send, clock, i, n, lastError);
      match st
      case Stop(run) =>
        if run.tried != [] {
          assert NthAttempt(cfg, send, i, run.tried, 0) == send(i, BuildRequest(cfg, run.tried[0]));
        }
      case Continue(key, next, nextCursor, error) =>
        PoolLoopOutcome(next, nextCursor, cfg, send, clock, i + 1, n, error);
        var rest := PoolLoop(next, nextCursor, cfg, send, clock, i + 1, n, error);
        assert ([key] + rest.tried)[1..] == rest.tried;
        if rest.tried != [] {
          ShiftLast(rest, key, cfg, send, clock, i, n);
        }
    }
  }

  /** Whatever request the `j`-th call sends, it fails on the key. */
  ghost predicate FailsOnKeyAt(send: (nat, Outgoing) -> RawOutcome, j: nat) {
    forall o: Outgoing :: KeyFailure(send(j, o))
  }

  /** Every call from the `i`-th to the `(n - 1)`-th fails on the key. */
  ghost predicate CallsFailOnKey(send: (nat, Outgoing) -> RawOutcome, i: nat, n: nat)
    decreases n - i
  {
    i >= n || (FailsOnKeyAt(send, i) && CallsFailOnKey(send, i + 1, n))
  }

  /**
    While the pool can take at least one failure report per remaining
    iteration, an iteration whose call fails on the key goes on, and the
    pool can still take one per iteration left after it.
   */
  lemma StepOnKeyError(ks: seq<KeyConfig>, cursor: nat, cfg: RequestConfig, send: (nat, Outgoing) -> RawOutcome,
                       clock: nat -> int, i: nat, n: nat, lastError: string)
    returns (key: string, next: seq<KeyConfig>, nextCursor: nat, error: string)
    requires i < n
    requires Reserve(ks) >= n - i
    requires FailsOnKeyAt(send, i)
    ensures PoolLoop(ks, cursor, cfg, send, clock, i, n, lastError)
      == Prefixed(key, PoolLoop(next, nextCursor, cfg, send, clock, i + 1, n, error))
    ensures error == ErrorText(send(i, BuildRequest(cfg, key)))
    ensures Reserve(next) >= n - (i + 1)
  {
    var pick, report := PickTime(clock, i), ReportTime(clock, i);
    var sel := Select(ks, cursor, pick);
    var it := Attempt(ks, cursor, pick, cfg, send, clock, i, n);
    ReservePicks(ks, cursor, pick);
    SelectKeepsReserve(ks, cursor, pick);
    key := PickedKey(sel).value;
    assert Classify(send(i, BuildRequest(cfg, key))) == KeyError;
    var reacted := React(sel, key, send(i, BuildRequest(cfg, key)), cfg, send, clock, i, n);
    next := MarkFailed(sel.keys, key, report);
    nextCursor := sel.cursor;
    error := ErrorText(send(i, BuildRequest(cfg, key)));
    MarkFailedCostsOne(sel.keys, key, report);
  }

  /**
    A run over a pool that can take a failure report for every remaining
    iteration, where every call fails on the key, makes one call per
    iteration and ends in the exhausted message carrying the error of the
    last call.
   */
  lemma {:induction false} KeyErrorsExhaust(ks: seq<KeyConfig>, cursor: nat, cfg: RequestConfig, send: (nat, Outgoing) -> RawOutcome,
                                            clock: nat -> int, i: nat, n: nat, lastError: string)
    requires i < n
    requires Reserve(ks) >= n - i
    requires CallsFailOnKey(send, i, n)
    ensures var run := PoolLoop(ks, cursor, cfg, send, clock, i, n, lastError);
      && |run.tried| == n - i
      && run.response == Exhausted(ErrorText(send(n - 1, BuildRequest(cfg, run.tried[n - i - 1]))))
    decreases n - i
  {
    var key, next, nextCursor, error := StepOnKeyError(ks, cursor, cfg, send, clock, i, n, lastError);
    if i + 1 < n {
      KeyErrorsExhaust(next, nextCursor, cfg, send, clock, i + 1, n, error);
    }
  }

  /**
    `makeRequest` over a freshly configured pool of any size whose every
    call fails on the key tries every key once and reports exhaustion with
    the last call's error.
   */
  lemma FreshPoolExhausts(s: string, cfg: RequestConfig, send: (nat, Outgoing) -> RawOutcome, clock: nat -> int)
    requires ParseApiKeys(s) != []
    requires CallsFailOnKey(send, 0, |ParseApiKeys(s)|)
    ensures var ks := ParseApiKeys(s);
      var run := PoolLoop(ks, 0, cfg, send, clock, 0, |ks|, "");
      && |run.tried| == |ks|
      && run.response == Exhausted(ErrorText(send(|ks| - 1, BuildRequest(cfg, run.tried[|ks| - 1]))))
  {
    FreshReserve(ParseApiKeys(s));
    KeyErrorsExhaust(ParseApiKeys(s), 0, cfg, send, clock, 0, |ParseApiKeys(s)|, "");
  }

  /** A reply of 500 to the first call, with a body that is not key-related, ends the loop at once with that reply. */
  lemma ServerErrorStopsRotation(ks: seq<KeyConfig>, cursor: nat, cfg: RequestConfig, send: (nat, Outgoing) -> RawOutcome,
                                 clock: nat -> int, i: nat, n: nat, lastError: string, body: string)
    requires i < n
    requires PickedKey(Select(ks, cursor, PickTime(clock, i))).Some?
    requires LacksWitnesses(ToLower(body))
    requires forall o: Outgoing :: send(i, o) == HttpReply(500, body)
    ensures var run := PoolLoop(ks, cursor, cfg, send, clock, i, n, lastError);
      && |run.tried| == 1
      && run.response.error == Some("HTTP 500: " + body)
  {
    ServerErrorNotKeyRelated(body);
    var it := Attempt(ks, cursor, PickTime(clock, i), cfg, send, clock, i, n);
    var sel := Select(ks, cursor, PickTime(clock, i));
    var key := PickedKey(sel).value;
    var reacted := React(sel, key, send(i, BuildRequest(cfg, key)), cfg, send, clock, i, n);
  }

  /**
    What the body of the `for` loop sees, stated step by step as the method
    takes it: the key the pool hands out, the response of the call with it,
    and the run that follows.
   */
  lemma IterationUnfolds(ks: seq<KeyConfig>, cursor: nat, cfg: RequestConfig, send: (nat, Outgoing) -> RawOutcome,
                         clock: nat -> int, i: nat, n: nat, lastError: string)
    requires i < n
    ensures var pick, report := PickTime(clock, i), ReportTime(clock, i);
      var sel := Select(ks, cursor, pick);
      var run := PoolLoop(ks, cursor, cfg, send, clock, i, n, lastError);
      && (PickedKey(sel).None? ==> run == Run(Failure(NoWorkingKey), sel.keys, sel.cursor, []))
      && (PickedKey(sel).Some? ==>
            var key := PickedKey(sel).value;
            var result := MakeRequestWithKey(cfg, key, send, i);
            && (result.success ==> run == Run(result, MarkWorking(sel.keys, key, report), sel.cursor, [key]))
            && (!result.success && IsKeyRelatedError(result.error.GetOr("")) ==>
                  run == Prefixed(key, PoolLoop(MarkFailed(sel.keys, key, report), sel.cursor, cfg, send, clock, i + 1, n, result.error.GetOr(""))))
            && (!result.success && !IsKeyRelatedError(result.error.GetOr("")) ==> run == Run(result, sel.keys, sel.cursor, [key])))
  {
    var it := Attempt(ks, cursor, PickTime(clock, i), cfg, send, clock, i, n);
    var sel := Select(ks, cursor, PickTime(clock, i));
    if PickedKey(sel).Some? {
      var key := PickedKey(sel).value;
      var reacted := React(sel, key, send(i, BuildRequest(cfg, key)), cfg, send, clock, i, n);
    }
  }

  // ---------------------------------------------------------------------------
  // The client object

  class ApiClient {
    var keyManager: ApiKeyManager?

    ghost predicate Valid()
      reads this, keyManager
    {
      keyManager != null ==> keyManager.Valid()
    }

    /** A falsy key string (empty, or absent) leaves the client without a key pool. */
    constructor (apiKeysString: string)
      ensures Valid()
      ensures keyManager == null <==> apiKeysString == []
      ensures keyManager != null ==>
        fresh(keyManager) && keyManager.apiKeys == ParseApiKeys(apiKeysString) && keyManager.currentIndex == 0
    {
      if apiKeysString != [] {
        keyManager := new ApiKeyManager(apiKeysString);
      } else {
        keyManager := null;
      }
    }

    /**
      `makeRequest(config, userApiKey)`. The ghost `tried` lists the keys the
      network was called with, in order.
     */
    method MakeRequest(cfg: RequestConfig, userApiKey: string, send: (nat, Outgoing) -> RawOutcome, clock: nat -> int)
      returns (r: ApiResponse, ghost tried: seq<string>)
      requires Valid()
      modifies keyManager
      ensures Valid()
      ensures userApiKey != [] ==>
        && r == MakeRequestWithKey(cfg, userApiKey, send, 0) && tried == [userApiKey]
        && (keyManager != null ==> unchanged(keyManager))
      ensures userApiKey == [] && keyManager == null ==> r == Failure(NoKeyConfigured) && tried == []
      ensures userApiKey == [] && keyManager != null ==>
        var run := PoolLoop(old(keyManager.apiKeys), old(keyManager.currentIndex), cfg, send, clock, 0, |old(keyManager.apiKeys)|, "");
        && r == run.response && tried == run.tried
        && keyManager.apiKeys == run.keys && keyManager.currentIndex == run.cursor
    {
      if userApiKey != [] {
        r := MakeRequestWithKey(cfg, userApiKey, send, 0);
        tried := [userApiKey];
        return;
      }
      if keyManager == null {
        r := Failure(NoKeyConfigured);
        tried := [];
        return;
      }
      var maxRetries := |keyManager.GetAllKeys()|;
      var lastError := "";
      tried := [];
      var i := 0;
      while i < maxRetries
        invariant 0 <= i <= maxRetries && keyManager != null && Valid()
        invariant var whole := PoolLoop(old(keyManager.apiKeys), old(keyManager.currentIndex), cfg, send, clock, 0, maxRetries, "");
          var rest := PoolLoop(keyManager.apiKeys, keyManager.currentIndex, cfg, send, clock, i, maxRetries, lastError);
          && whole.response == rest.response && whole.keys == rest.keys && whole.cursor == rest.cursor
          && whole.tried == tried + rest.tried
        decreases maxRetries - i
      {
        var st := TryKey(cfg, send, clock, i, maxRetries, lastError);
        if st.Stop? {
          return st.run.response, tried + st.run.tried;
        }
        tried := tried + [st.key];
        lastError := st.error;
        i := i + 1;
      }
      r := Exhausted(lastError);
    }

    /**
      One pass of the `for` loop of `makeRequest`, at iteration `i` of `n`:
      ask the pool for a key, call the network with it, and report the
      outcome to the pool. The loop returns `st.run.response` on `Stop`, and
      goes on with `st.error` as the last error on `Continue`.
     */
    method TryKey(cfg: RequestConfig, send: (nat, Outgoing) -> RawOutcome, clock: nat -> int, i: nat, n: nat, lastError: string)
      returns (st: Step)
      requires Valid() && keyManager != null && i < n
      modifies keyManager
      ensures Valid()
      ensures var run := PoolLoop(old(keyManager.apiKeys), old(keyManager.currentIndex), cfg, send, clock, i, n, lastError);
        && (st.Stop? ==> st.run == run && keyManager.apiKeys == run.keys && keyManager.currentIndex == run.cursor)
        && (st.Continue? ==>
              && st.keys == keyManager.apiKeys && st.cursor == keyManager.currentIndex
              && run == Prefixed(st.key, PoolLoop(st.keys, st.cursor, cfg, send, clock, i + 1, n, st.error)))
    {
      IterationUnfolds(keyManager.apiKeys, keyManager.currentIndex, cfg, send, clock, i, n, lastError);
      var pool := keyManager;
      var picked := pool.GetWorkingKey(PickTime(clock, i));
      if picked.None? {
        return Stop(Run(Failure(NoWorkingKey), pool.apiKeys, pool.currentIndex, []));
      }
      var apiKey := picked.value;
      var result := MakeRequestWithKey(cfg, apiKey, send, i);
      if result.success {
        pool.MarkKeyAsWorking(apiKey, ReportTime(clock, i));
        return Stop(Run(result, pool.apiKeys, pool.currentIndex, [apiKey]));
      }
      if IsKeyRelatedError(result.error.GetOr("")) {
        pool.MarkKeyAsFailed(apiKey, ReportTime(clock, i));
        return Continue(apiKey, pool.apiKeys, pool.currentIndex, result.error.GetOr(""));
      }
      return Stop(Run(result, pool.apiKeys, pool.currentIndex, [apiKey]));
    }

    /** `getKeyStatus`: the pool's masked view, or nothing without a pool. */
    function GetKeyStatus(): (r: seq<KeyStatus>)
      reads this, keyManager
      ensures keyManager == null ==> r == []
      ensures keyManager != null ==> r == Status(keyManager.apiKeys)
    {
      if keyManager == null then [] else keyManager.GetKeyStatus()
    }

    /** `getWorkingKeysCount`: the pool's reachable count, or 0 without a pool. */
    function GetWorkingKeysCount(now: int): (n: nat)
      reads this, keyManager
      ensures keyManager == null ==> n == 0
      ensures keyManager != null ==> n == CountReachable(keyManager.apiKeys, now)
    {
      if keyManager == null then 0 else keyManager.GetWorkingKeysCount(now)
    }
  }

  /** A key string of only a comma configures a pool with no key: the loop makes no call and reports exhaustion with an empty last error. */
  method CommaOnlyScenario(cfg: RequestConfig, send: (nat, Outgoing) -> RawOutcome, clock: nat -> int)
    returns (r: ApiResponse, ghost tried: seq<string>)
    ensures tried == [] && r == Failure(AllKeysFailedPrefix)
  {
    OnlyCommaGivesNoKeys();
    var client := new ApiClient(",");
    r, tried := client.MakeRequest(cfg, "", send, clock);
    assert AllKeysFailedPrefix + "" == AllKeysFailedPrefix;
  }
}
