# Shared configuration client of lium-core, modelled in Dafny

The `shared_config` package of lium-core keeps one process-wide copy of the
marketplace's shared configuration: machine prices, fee rates, collateral
settings and so on. `SharedConfigClient` fetches the configuration once when it
is constructed and falls back to a built-in default if that fetch fails. A
background loop then re-fetches it every `refresh_interval` seconds. Whenever a
fetched configuration differs from the cached one, the loop logs each changed
field and swaps the new configuration in. The changed fields come from
`dict_diff`: it walks two nested dictionaries in sorted key order and reports
one change per leaf that differs, recursing wherever both sides hold a
dictionary.

The project has four modules:

- `Values` (values.dfy) holds what `model_dump` produces: keys, scalars, `None`
  and nested dictionaries. It also holds the order `sorted` puts keys in.
- `StructuralDiff` (diff.dfy) defines `Diff`, a recursive specification of
  `dict_diff`, and `DictDiff`, the source's loop, which is proved to compute
  `Diff`. Both build paths with `ChildPath`, which keeps every key; the paths
  as line 6 builds them are `SourcePath`, and that output is `SourceDiff`.
  The properties of the output are proved against an independent
  description, `Reported` / `LeafDifference`. A change is a path (one key per
  level), an old value and a new value.
- `ConfigClient` (client.dfy) defines `Fetch`, which turns every failure into
  `None`. It also defines one refresh iteration as values (`NextConfig`,
  `StepLog`) and the loop as a fold over its wake-ups (`Replay`, `WriteCount`,
  `ReplayLog`). Finally it defines the class `SharedConfigClient`: fields
  `config` and `running`, the constructor, attribute reads, `Stop`,
  `RefreshStep` and `RefreshLoop`. Each state-changing method is proved against
  those folds.
- `Wrappers` (wrappers.dfy) holds `Option`, which stands for `X | None`.

The environment supplies what the source reads from its surroundings:
- The HTTP response of each fetch is an `HttpResult`.
- The loop's wake-ups are a sequence of `Tick`s. Each records the fetch result
  and whether `stop()` was called during that iteration.
- Log output is the sequence of `LogLine`s a method returns.
- The ghost field `writes` counts how many times `config` has been replaced.

Two points of the loop's behaviour follow directly from the code:
- **When stop takes effect.** `_refresh_loop` tests `_running` only at its
  head (client.py:41). So the iteration during which `stop()` is called still
  sleeps, fetches and may swap, and no further iteration runs.
- **Errors inside the loop.** `_refresh_loop` has no `try`; only `_fetch`
  catches exceptions (client.py:30-36).

## Model

| member | source | states |
|---|---|---|
| StructuralDiff.DictDiff | src/lium_core/shared_config/utils.py:1-13 | the imperative loop over the sorted union of keys, extending with nested diffs and appending leaf changes, returns exactly `Diff(old, new, prefix)` |
| StructuralDiff.DiffMembers | src/lium_core/shared_config/utils.py:4-12 | a change is in the output if and only if its path extends `prefix` and leads, key by key through dicts on both sides, to a place where the two `get` values differ and are not both dicts, with old and new values the two values found there |
| StructuralDiff.DiffSorted | src/lium_core/shared_config/utils.py:4-5 | the output is strictly increasing by path, ordered key by key in the order `sorted` uses |
| StructuralDiff.DiffPathsDistinct | src/lium_core/shared_config/utils.py:4-6 | no two entries of the output have the same structured path |
| StructuralDiff.HeadBeforeTail | src/lium_core/shared_config/utils.py:5 | every change found under an earlier key comes before every change found under a later key |
| StructuralDiff.NonDictEntryIsLeaf | src/lium_core/shared_config/utils.py:9-12 | where a key is not a dict on both sides, the output holds `old -> new` at `prefix.key` exactly when the two `get` values differ, and nothing else at or below that key |
| StructuralDiff.KeyAdded | src/lium_core/shared_config/utils.py:7-12 | a key present only in `new`, with a non-`None` value, is reported once, as `None -> value` |
| StructuralDiff.KeyRemoved | src/lium_core/shared_config/utils.py:7-12 | a key present only in `old`, with a non-`None` value, is reported once, as `value -> None` |
| StructuralDiff.NoneMatchesMissing | src/lium_core/shared_config/utils.py:7-11 | a `None` entry opposite a missing key is not reported, because `get` reads both as `None` |
| StructuralDiff.NestedDictsRecurse | src/lium_core/shared_config/utils.py:9-10 | where both sides of a key are dicts, the entries under that key are exactly the nested diff under path `prefix.key` |
| StructuralDiff.DiffEmptyIff | src/lium_core/shared_config/utils.py:7-12 | the output is empty if and only if the two dicts are deeply equal up to `None` entries and missing keys |
| StructuralDiff.DiffReflexive | src/lium_core/shared_config/utils.py:1-13 | a dict compared with itself yields no change |
| StructuralDiff.SameUpToNoneReflexive | src/lium_core/shared_config/utils.py:7-11 | every dict agrees with itself up to `None` |
| StructuralDiff.LeafDifferenceWitness | src/lium_core/shared_config/utils.py:7-12 | two dicts that do not agree up to `None` have a concrete leaf difference |
| StructuralDiff.NoLeafDifference | src/lium_core/shared_config/utils.py:7-12 | two dicts that agree up to `None` have no leaf difference |
| StructuralDiff.FlatDiffLength | src/lium_core/shared_config/utils.py:11-12 | when no key holds a dict on both sides, the output has exactly one entry per key whose `get` values differ |
| StructuralDiff.FlatDiffKeysLength | src/lium_core/shared_config/utils.py:5-12 | over duplicate-free keys with no nested pair, each key contributes one entry if its values differ and none otherwise |
| StructuralDiff.SourceDiffIsDiff | src/lium_core/shared_config/utils.py:6-12 | when every top-level key is truthy, as the field names of a `SharedConfig` are, the output with paths built as line 6 writes them is exactly `Diff` |
| StructuralDiff.SourcePathsCollide | src/lium_core/shared_config/utils.py:6 | as written, for `{"": {"x": 1}, "x": 1}` against `{"": {"x": 2}, "x": 2}` two distinct changes are both reported at path `x` |
| StructuralDiff.SourcePathIsFullPath | src/lium_core/shared_config/utils.py:6 | as written, paths whose first key is truthy are reported in full, as `Diff` reports them |
| StructuralDiff.ChildPathInjective | src/lium_core/shared_config/utils.py:6 | corrected: two equal child paths come from the same prefix and the same key |
| Values.KeyLessStrictTotalOrder | src/lium_core/shared_config/utils.py:5 | the key order `sorted` uses is irreflexive, asymmetric, transitive and total |
| Values.SortedKeysSpec | src/lium_core/shared_config/utils.py:4-5 | sorting the union of the old and new keys yields every key of the union exactly once, in strictly increasing order |
| Values.LeastStep | src/lium_core/shared_config/utils.py:5 | the first sorted key is the least, and the rest are the remaining keys sorted |
| ConfigClient.FailedFetchKeepsCache | src/lium_core/shared_config/client.py:28-36 | a fetch whose request raises, whose status is 4xx/5xx, or whose body does not decode and validate leaves the cache unchanged and logs the fetch warning followed by "unchanged" |
| ConfigClient.SuccessfulFetchIsCached | src/lium_core/shared_config/client.py:28-36 | any other fetch caches the validated body, writing exactly when it differs from the cached configuration, and logs no fetch warning |
| ConfigClient.ReadAfterStep | src/lium_core/shared_config/client.py:24-26 | after an iteration a field read gives the fetched configuration's field when the fetch succeeded, and the earlier read otherwise |
| ConfigClient.ReadAfterRun | src/lium_core/shared_config/client.py:24-26 | after any run of iterations a field read gives the field of the most recent successful fetch, or of the starting configuration when every fetch failed |
| ConfigClient.LogChanges | src/lium_core/shared_config/client.py:46-47 | the logging loop emits exactly `ChangeLines(changes)` |
| ConfigClient.NextConfigIsLatest | src/lium_core/shared_config/client.py:43-48 | after an iteration the cache holds the fetched configuration when the fetch succeeded and the old one otherwise; it changes exactly when the iteration writes |
| ConfigClient.RefreshIdempotent | src/lium_core/shared_config/client.py:43-50 | repeating an iteration with the same fetch result neither writes nor logs a change; when the fetch succeeded it logs only "unchanged" |
| ConfigClient.SwapLogsChanges | src/lium_core/shared_config/client.py:45-47 | on a write, the iteration logs only change lines, and at least one exactly when the two dumps differ other than in `None` entries |
| ConfigClient.SilentSwap | src/lium_core/shared_config/client.py:45-48 | a configuration differing only in a `None` entry is swapped in without any log line |
| ConfigClient.RunLength | src/lium_core/shared_config/client.py:41 | a loop that starts running runs up to and including the first iteration during which `stop()` is called, and through all wake-ups when it is never called |
| ConfigClient.RunLengthIsFirstStop | src/lium_core/shared_config/client.py:41 | a count that ends at the first stop, or at the last wake-up when there is no stop, equals `RunLength` |
| ConfigClient.WriteCount | src/lium_core/shared_config/client.py:45-48 | a run of iterations writes at most once per iteration |
| ConfigClient.LatestFetched | src/lium_core/shared_config/client.py:43 | there is no latest successful fetch exactly when every fetch failed |
| ConfigClient.ReplayIsLatestFetched | src/lium_core/shared_config/client.py:41-48 | after any run of iterations the cache holds the result of the most recent successful fetch, or the starting configuration when every fetch failed |
| ConfigClient.FailedFetchesChangeNothing | src/lium_core/shared_config/client.py:43-50 | iterations whose fetches all fail never write, and the cache stays as it was |
| ConfigClient.ReplaySnoc | src/lium_core/shared_config/client.py:41-50 | one more iteration extends the replayed cache, write count and log by one step |
| ConfigClient.SharedConfigClient.constructor | src/lium_core/shared_config/client.py:15-22 | the cache starts as the validated configuration of the first fetch, or the default when that fetch fails in any of the three ways; the client starts running with no write made |
| ConfigClient.SharedConfigClient.Stop | src/lium_core/shared_config/client.py:52-54 | `stop` clears the running flag and changes nothing else |
| ConfigClient.SharedConfigClient.RefreshStep | src/lium_core/shared_config/client.py:43-50 | one iteration: the cache becomes `NextConfig`, the write count rises by one exactly when it swaps, and the lines logged are the fetch warning (on failure), then the diff's change lines (on a swap) or "unchanged"; afterwards a field read gives the fetched configuration's field when the fetch succeeded, and the earlier read otherwise |
| ConfigClient.SharedConfigClient.RefreshLoop | src/lium_core/shared_config/client.py:38-50 | "Started" is logged first; a loop that is running runs `RunLength(ticks)` iterations, and one stopped beforehand runs none and changes nothing; cache, write count and log are the replay of those iterations; the loop ends still running exactly when `stop()` was never called; afterwards a field read gives the field of the most recent successful fetch, or of the starting configuration |

## Left out

- Threads and the lock: threading is not modelled. The loop runs as one method call, and the state after a swap is read only after the call returns.
- `time.sleep(refresh_interval)`: the sleep is not modelled. The model keeps `refreshInterval` as a field but never uses it.
- HTTP, JSON decoding and pydantic validation: these are folded into the `HttpResult` given to each fetch. The 10-second timeout is part of the request and is not modelled.
- Log records: each is a `LogLine`. The model does not render the line's text, logging levels, `exc_info`, or the `[path]: old -> new` string (including how floats and dicts print).
- Floats: floats are modelled as mathematical reals, so rounding and NaN are not modelled.
- Booleans and lists as leaves: not modelled. The inner values of `gpu_architectures` (model.py:10) are untyped, so a dump can hold them. What the model then misses is Python's `True == 1` and `False == 0` when two leaves are compared, and that lists are compared whole and never recursed into.
- Values.KeyLess: orders every integer key before every string key. Python's `sorted` raises `TypeError` on such a mix instead. A configuration dump never mixes the two in one dict.
- StructuralDiff.DictDiff: returns each change as a structure holding path, old value and new value. The source returns a formatted string, and the model does not produce that string. Its paths are the corrected ones built by `ChildPath`, which keep every key; the output with paths as line 6 builds them is `SourceDiff`.
- StructuralDiff.DiffPathsDistinct: the paths are distinct only as sequences of keys. The source joins keys with dots, so its path strings can repeat even when every prefix is truthy: `{"a": {"b": 1}, "a.b": 1}` against `{"a": {"b": 2}, "a.b": 2}` gives `[a.b]: 1 -> 2` twice. The rendered string is not modelled.
- Exceptions raised inside `_refresh_loop` outside `_fetch`: these are not modelled. The loop has no `try`, so such an exception would end the thread.
- ConfigClient.SharedConfigClient.constructor: returns no log lines, so the warning `_fetch` logs when the first fetch fails is not modelled. The thread start is the later `RefreshLoop` call.
- ConfigClient.DefaultSharedConfig: holds only the nine scalar values that the tests pin (tests/test_shared_config.py:54-62). The four dict-valued default fields are not modelled, because defaults.py is not part of this model.
- ConfigClient.SharedConfigClient.Attribute: reads only configuration fields. Python would first find the client's own attributes, and it raises `AttributeError` where the model returns `None`.
- `self._config != new_config`: compares the two configurations by field values, which is pydantic's model equality. Object identity is not modelled; the ghost counter `writes` stands for "the reference was replaced".
- ConfigClient.SharedConfigClient.RefreshLoop: runs over a finite sequence of wake-ups. A loop that is never stopped runs forever in the source; here it ends when the wake-ups run out.

## Findings

| source | as written | input that shows it | evidently intended | confidence | as-written member | corrected member |
|---|---|---|---|---|---|---|
| src/lium_core/shared_config/utils.py:6 | `f"{prefix}.{key}" if prefix else key` tests the truthiness of the prefix, so below a key `""` (or `0`) the leading key is dropped from every nested path | `{"": {"x": 1}, "x": 1}` against `{"": {"x": 2}, "x": 2}`: two different changes are both reported at `[x]` | the dotted full path `.x` for the nested change, so that every key is kept in the path | low (config keys are never empty); not executed | StructuralDiff.SourcePathsCollide | StructuralDiff.ChildPathInjective |
