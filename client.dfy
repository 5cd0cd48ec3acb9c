/**
 * `SharedConfigClient` of src/lium_core/shared_config/client.py: a cached
 * shared configuration, fetched once at construction (falling back to the
 * default) and then refreshed by a loop that swaps in a fetched configuration
 * when it differs from the cached one and logs the structural diff of the two.
 *
 * The HTTP request and the pydantic validation are given as an `HttpResult`;
 * the background thread is the `RefreshLoop` method, run over the finite
 * sequence of wake-ups the environment supplies; logging is the sequence of
 * `LogLine`s a method returns.
 */
module ConfigClient {
  import opened Wrappers
  import opened Values
  import opened StructuralDiff

  /** A validated, frozen `SharedConfig`, held as its `model_dump`. */
  datatype SharedConfig = SharedConfig(fields: map<Key, Value>)

  /** `DEFAULT_SHARED_CONFIG`: the scalar fields the tests pin down.  The four
      dict-valued fields are not part of this model (defaults.py is not). */
  const DefaultSharedConfig: SharedConfig := SharedConfig(map[
    KStr("machine_max_price_rate") := Leaf(Num(3.0)),
    KStr("machine_min_price_rate") := Leaf(Num(0.5)),
    KStr("rental_fees_rate") := Leaf(Num(0.9)),
    KStr("collateral_days") := Leaf(Num(7.0)),
    KStr("collateral_contract_address") := Leaf(Text("0x7DCCb5659c70Ce2104A9bb79E9E257473ECbe628")),
    KStr("bittensor_netuid") := Leaf(Num(51.0)),
    KStr("volume_gb_hour_price_usd") := Leaf(Num(0.00005)),
    KStr("max_initial_port_count") := Leaf(Num(200.0)),
    KStr("total_burn_emission") := Leaf(Num(0.91))
  ])

  /** What `requests.get(api_url, timeout=10)` gave: an exception raised by the
      request itself, or a response with its status code and the result of
      `SharedConfig.model_validate(response.json())` (`None` when the body is
      not JSON or does not validate). */
  datatype HttpResult = RequestFailed | Response(status: int, body: Option<SharedConfig>)

  /** The statuses `raise_for_status` raises on: client and server errors. */
  predicate IsHttpError(status: int)
  {
    400 <= status < 600
  }

  /** The three ways `_fetch` fails: the request raises, `raise_for_status`
      raises, or the body does not decode and validate. */
  predicate FetchFails(r: HttpResult)
  {
    r.RequestFailed? || IsHttpError(r.status) || r.body.None?
  }

  /** `_fetch`: every failure becomes `None`; nothing is raised. */
  function Fetch(r: HttpResult): Option<SharedConfig>
  {
    match r
    case RequestFailed => None
    case Response(status, body) => if IsHttpError(status) then None else body
  }

  /** `getattr(config, name)` on a frozen `SharedConfig`: the value of the field,
      or `None` where there is no such field (Python raises `AttributeError`). */
  function ReadField(c: SharedConfig, name: string): Option<Value>
  {
    if KStr(name) in c.fields then Some(c.fields[KStr(name)]) else None
  }

  datatype LogLine =
    | LoopStarted                 // "Started shared config refresh loop"
    | FetchFailed(url: string)    // "Failed to fetch shared config from %s"
    | ConfigChanged(change: Change) // "Config changed %s", one per diff entry
    | ConfigUnchanged             // "Shared config unchanged"

  // ---------------------------------------------------------------------------
  // One refresh iteration, as values

  /** The iteration writes: the fetch succeeded and its result differs from
      the cached configuration. */
  predicate Swaps(current: SharedConfig, fetched: Option<SharedConfig>)
  {
    fetched.Some? && fetched.value != current
  }

  /** The cached configuration after one iteration. */
  function NextConfig(current: SharedConfig, fetched: Option<SharedConfig>): SharedConfig
  {
    if Swaps(current, fetched) then fetched.value else current
  }

  function ChangeLines(changes: seq<Change>): seq<LogLine>
  {
    seq(|changes|, i requires 0 <= i < |changes| => ConfigChanged(changes[i]))
  }

  /** `for change in ...: logger.info("Config changed %s", change)`. */
  method LogChanges(changes: seq<Change>) returns (lines: seq<LogLine>)
    ensures lines == ChangeLines(changes)
  {
    lines := [];
    var j := 0;
    while j < |changes|
      invariant 0 <= j <= |changes|
      invariant lines == ChangeLines(changes[..j])
    {
      ChangeLinesSnoc(changes, j);
      lines := lines + [ConfigChanged(changes[j])];
      j := j + 1;
    }
    TakeAll(changes);
  }

  lemma ChangeLinesSnoc(changes: seq<Change>, j: nat)
    requires j < |changes|
    ensures ChangeLines(changes[..j + 1]) == ChangeLines(changes[..j]) + [ConfigChanged(changes[j])]
  {
  }

  /** The lines one iteration logs. */
  function StepLog(url: string, current: SharedConfig, fetched: Option<SharedConfig>): seq<LogLine>
  {
    (if fetched.None? then [FetchFailed(url)] else []) +
    (if Swaps(current, fetched) then ChangeLines(Diff(current.fields, fetched.value.fields, []))
     else [ConfigUnchanged])
  }

  /** Skipping the write on an equal result loses nothing: after an iteration
      the cache holds the fetched configuration whenever the fetch succeeded,
      and the cached one otherwise; it changes exactly when the iteration writes. */
  lemma NextConfigIsLatest(current: SharedConfig, fetched: Option<SharedConfig>)
    ensures NextConfig(current, fetched) == fetched.GetOr(current)
    ensures NextConfig(current, fetched) != current <==> Swaps(current, fetched)
  {
  }

  /** A fetch that fails in any of the three ways leaves the cache as it was,
      and the iteration logs the warning and then "unchanged". */
  lemma FailedFetchKeepsCache(url: string, current: SharedConfig, r: HttpResult)
    requires FetchFails(r)
    ensures NextConfig(current, Fetch(r)) == current
    ensures StepLog(url, current, Fetch(r)) == [FetchFailed(url), ConfigUnchanged]
  {
  }

  /** A successful fetch brings in the validated body (a write exactly when it
      differs from the cache), and no warning is logged. */
  lemma SuccessfulFetchIsCached(url: string, current: SharedConfig, r: HttpResult)
    requires !FetchFails(r)
    ensures NextConfig(current, Fetch(r)) == r.body.value
    ensures Swaps(current, Fetch(r)) <==> r.body.value != current
    ensures FetchFailed(url) !in StepLog(url, current, Fetch(r))
  {
  }

  /** After an iteration a field read gives the fetched configuration's field
      when the fetch succeeded, and what it gave before otherwise. */
  lemma ReadAfterStep(current: SharedConfig, fetched: Option<SharedConfig>, name: string)
    ensures ReadField(NextConfig(current, fetched), name) ==
      if fetched.Some? then ReadField(fetched.value, name) else ReadField(current, name)
  {
  }

  /** Repeating an iteration with the same result neither writes nor logs a change. */
  lemma RefreshIdempotent(url: string, current: SharedConfig, fetched: Option<SharedConfig>)
    ensures NextConfig(NextConfig(current, fetched), fetched) == NextConfig(current, fetched)
    ensures !Swaps(NextConfig(current, fetched), fetched)
    ensures fetched.Some? ==> StepLog(url, NextConfig(current, fetched), fetched) == [ConfigUnchanged]
  {
  }

  /** A write logs at least one change exactly when the two dumps differ other
      than in `None` entries. */
  lemma SwapLogsChanges(url: string, current: SharedConfig, fetched: Option<SharedConfig>)
    requires Swaps(current, fetched)
    ensures |StepLog(url, current, fetched)| > 0 <==> !SameUpToNone(current.fields, fetched.value.fields)
    ensures forall line :: line in StepLog(url, current, fetched) ==> line.ConfigChanged?
  {
    DiffEmptyIff(current.fields, fetched.value.fields, []);
  }

  /** Two configurations that differ only in a `None` entry: the iteration
      swaps them and logs nothing at all. */
  lemma SilentSwap(url: string)
    ensures var before := SharedConfig(map[KStr("a") := Null]);
      var after := SharedConfig(map[]);
      Swaps(before, Some(after)) && StepLog(url, before, Some(after)) == []
  {
    var before := SharedConfig(map[KStr("a") := Null]);
    var after := SharedConfig(map[]);
    assert KStr("a") in before.fields;
    DiffEmptyIff(before.fields, after.fields, []);
  }

  // ---------------------------------------------------------------------------
  // The loop, as values

  /** One wake-up of the loop: what the fetch gave, and whether `stop()` was
      called while the iteration was under way (during the sleep, the fetch
      or the swap; the loop only looks at `_running` at its head). */
  datatype Tick = Tick(response: HttpResult, stopCalled: bool)

  /** The number of iterations the loop runs over `ticks` when it starts out
      running: up to and including the first one during which `stop()` is called. */
  function RunLength(ticks: seq<Tick>): (n: nat)
    ensures n <= |ticks|
    ensures ticks != [] ==> n > 0
    ensures forall i :: 0 <= i && i + 1 < n ==> !ticks[i].stopCalled
    ensures n < |ticks| ==> ticks[n - 1].stopCalled
  {
    if ticks == [] then 0
    else if ticks[0].stopCalled then 1
    else 1 + RunLength(ticks[1..])
  }

  predicate StopCalledIn(ticks: seq<Tick>)
  {
    exists i :: 0 <= i < |ticks| && ticks[i].stopCalled
  }

  /** The cached configuration after the loop has run the iterations `ticks`. */
  function Replay(current: SharedConfig, ticks: seq<Tick>): SharedConfig
  {
    if ticks == [] then current
    else NextConfig(Replay(current, ticks[..|ticks| - 1]), Fetch(ticks[|ticks| - 1].response))
  }

  /** The number of writes those iterations make. */
  function WriteCount(current: SharedConfig, ticks: seq<Tick>): (n: nat)
    ensures n <= |ticks|
  {
    if ticks == [] then 0
    else
      var before := Replay(current, ticks[..|ticks| - 1]);
      WriteCount(current, ticks[..|ticks| - 1]) + if Swaps(before, Fetch(ticks[|ticks| - 1].response)) then 1 else 0
  }

  /** The lines those iterations log. */
  function ReplayLog(url: string, current: SharedConfig, ticks: seq<Tick>): seq<LogLine>
  {
    if ticks == [] then []
    else
      var init := ticks[..|ticks| - 1];
      ReplayLog(url, current, init) + StepLog(url, Replay(current, init), Fetch(ticks[|ticks| - 1].response))
  }

  /** The most recent successful fetch among `ticks`. */
  function LatestFetched(ticks: seq<Tick>): (r: Option<SharedConfig>)
    ensures r.None? <==> forall i :: 0 <= i < |ticks| ==> Fetch(ticks[i].response).None?
  {
    if ticks == [] then None
    else
      var last := Fetch(ticks[|ticks| - 1].response);
      if last.Some? then last else LatestFetched(ticks[..|ticks| - 1])
  }

  /** After any run of iterations the cache holds the configuration of the most
      recent successful fetch, or the one it started with when all failed. */
  lemma {:induction false} ReplayIsLatestFetched(current: SharedConfig, ticks: seq<Tick>)
    ensures Replay(current, ticks) == LatestFetched(ticks).GetOr(current)
    decreases |ticks|
  {
    if ticks != [] {
      var init := ticks[..|ticks| - 1];
      ReplayIsLatestFetched(current, init);
      NextConfigIsLatest(Replay(current, init), Fetch(ticks[|ticks| - 1].response));
    }
  }

  /** After any run of iterations a field read gives the field of the most
      recently fetched configuration, or of the starting one when every fetch failed. */
  lemma ReadAfterRun(current: SharedConfig, ticks: seq<Tick>, name: string)
    ensures ReadField(Replay(current, ticks), name) == ReadField(LatestFetched(ticks).GetOr(current), name)
  {
    ReplayIsLatestFetched(current, ticks);
  }

  /** Iterations whose fetches all fail neither write nor change the cache. */
  lemma {:induction false} FailedFetchesChangeNothing(current: SharedConfig, ticks: seq<Tick>)
    requires forall i :: 0 <= i < |ticks| ==> Fetch(ticks[i].response).None?
    ensures Replay(current, ticks) == current
    ensures WriteCount(current, ticks) == 0
    decreases |ticks|
  {
    if ticks != [] {
      FailedFetchesChangeNothing(current, ticks[..|ticks| - 1]);
    }
  }

  // ---------------------------------------------------------------------------
  // The client

  class SharedConfigClient {
    const apiUrl: string
    const refreshInterval: int
    var config: SharedConfig
    var running: bool
    /** How many times `config` has been replaced since construction. */
    ghost var writes: nat

    /** `__init__`: `self._fetch() or DEFAULT_SHARED_CONFIG` (a `SharedConfig`
        is always truthy), then `_running = True`. */
    constructor (apiUrl: string, refreshInterval: int, initial: HttpResult)
      ensures this.apiUrl == apiUrl && this.refreshInterval == refreshInterval
      ensures !FetchFails(initial) ==> config == initial.body.value
      ensures FetchFails(initial) ==> config == DefaultSharedConfig
      ensures running && writes == 0
    {
      this.apiUrl := apiUrl;
      this.refreshInterval := refreshInterval;
      config := Fetch(initial).GetOr(DefaultSharedConfig);
      running := true;
      writes := 0;
    }

    /** `__getattr__`: a field of the current configuration, `None` where the
        configuration has no such field (Python raises `AttributeError`). */
    function Attribute(name: string): Option<Value>
      reads this
    {
      ReadField(config, name)
    }

    /** `stop`: clears `_running` and nothing else. */
    method Stop()
      modifies this`running
      ensures !running
    {
      running := false;
    }

    /** The body of the `while self._running` loop after its sleep: fetch, then
        (under the lock) either log the diff and swap, or log "unchanged". */
    method RefreshStep(response: HttpResult) returns (lines: seq<LogLine>)
      modifies this`config, this`writes
      ensures config == NextConfig(old(config), Fetch(response))
      ensures Swaps(old(config), Fetch(response)) ==> writes == old(writes) + 1
      ensures !Swaps(old(config), Fetch(response)) ==> writes == old(writes) && config == old(config)
      ensures lines == StepLog(apiUrl, old(config), Fetch(response))
      ensures forall name ::
                Attribute(name) == if Fetch(response).Some? then ReadField(Fetch(response).value, name) else old(Attribute(name))
    {
      var fetched := Fetch(response);
      lines := if fetched.None? then [FetchFailed(apiUrl)] else [];
      if fetched.Some? && config != fetched.value {
        var changes := DictDiff(config.fields, fetched.value.fields, []);
        var logged := LogChanges(changes);
        lines := lines + logged;
        config := fetched.value;
        writes := writes + 1;
      } else {
        lines := lines + [ConfigUnchanged];
      }
    }

    /** `_refresh_loop` over the wake-ups `ticks`: `_running` is looked at only
        at the head of each iteration, so the iteration during which `stop()`
        is called still completes, and none follows it. */
    method RefreshLoop(ticks: seq<Tick>) returns (iterations: nat, lines: seq<LogLine>)
      modifies this`config, this`running, this`writes
      ensures iterations == if old(running) then RunLength(ticks) else 0
      ensures config == Replay(old(config), ticks[..iterations])
      ensures writes == old(writes) + WriteCount(old(config), ticks[..iterations])
      ensures lines == [LoopStarted] + ReplayLog(apiUrl, old(config), ticks[..iterations])
      ensures running <==> old(running) && !StopCalledIn(ticks)
      ensures forall name :: Attribute(name) == ReadField(LatestFetched(ticks[..iterations]).GetOr(old(config)), name)
    {
      lines := [LoopStarted];
      iterations := 0;
      while running && iterations < |ticks|
        invariant iterations <= |ticks|
        invariant !old(running) ==> iterations == 0 && !running
        invariant old(running) && running ==> forall i :: 0 <= i < iterations ==> !ticks[i].stopCalled
        invariant old(running) && !running ==>
          0 < iterations && ticks[iterations - 1].stopCalled &&
          forall i :: 0 <= i && i + 1 < iterations ==> !ticks[i].stopCalled
        invariant config == Replay(old(config), ticks[..iterations])
        invariant writes == old(writes) + WriteCount(old(config), ticks[..iterations])
        invariant lines == [LoopStarted] + ReplayLog(apiUrl, old(config), ticks[..iterations])
      {
        var tick := ticks[iterations];
        ReplaySnoc(apiUrl, old(config), ticks, iterations);
        if tick.stopCalled {
          Stop();
        }
        ghost var done := ReplayLog(apiUrl, old(config), ticks[..iterations]);
        var step := RefreshStep(tick.response);
        AppendAssoc([LoopStarted], done, step);
        lines := lines + step;
        iterations := iterations + 1;
      }
      RunLengthIsFirstStop(ticks, iterations, old(running));
      ReplayIsLatestFetched(old(config), ticks[..iterations]);
    }
  }

  /** Running one more iteration extends each of the replayed functions by one step. */
  lemma ReplaySnoc(url: string, current: SharedConfig, ticks: seq<Tick>, n: nat)
    requires n < |ticks|
    ensures var before := Replay(current, ticks[..n]);
      var fetched := Fetch(ticks[n].response);
      && Replay(current, ticks[..n + 1]) == NextConfig(before, fetched)
      && WriteCount(current, ticks[..n + 1]) == WriteCount(current, ticks[..n]) + (if Swaps(before, fetched) then 1 else 0)
      && ReplayLog(url, current, ticks[..n + 1]) == ReplayLog(url, current, ticks[..n]) + StepLog(url, before, fetched)
  {
    assert ticks[..n + 1][..n] == ticks[..n];
  }

  lemma AppendAssoc<T>(a: seq<T>, b: seq<T>, c: seq<T>)
    ensures (a + b) + c == a + (b + c)
  {
  }

  /** The loop's exit condition pins its iteration count to `RunLength`. */
  lemma RunLengthIsFirstStop(ticks: seq<Tick>, n: nat, started: bool)
    requires n <= |ticks|
    requires !started ==> n == 0
    requires started ==> (n == |ticks| || (0 < n && ticks[n - 1].stopCalled))
    requires forall i :: 0 <= i && i + 1 < n ==> !ticks[i].stopCalled
    ensures n == if started then RunLength(ticks) else 0
  {
  }
}
