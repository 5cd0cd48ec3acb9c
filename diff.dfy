/**
 * `dict_diff(old, new, prefix)` of src/lium_core/shared_config/utils.py: the
 * changes between two nested dictionaries, one per differing leaf, walked in
 * sorted key order.  A change is kept structured (path, old value, new value);
 * the `"[path]: old -> new"` text the source formats from it is not modelled.
 *
 * `Diff` is the specification (one recursive function per level of the
 * source's loop); `DictDiff` is the source's imperative loop, proved to
 * compute it; the lemmas state what the source and its tests promise of it.
 * Both build each path with `ChildPath`, which keeps every key; the paths
 * line 6 builds as written are `SourcePath`, and that output is `SourceDiff`.
 */
module StructuralDiff {
  import opened Values

  datatype Change = Change(path: Path, before: Value, after: Value)

  /** The path of key `k` one level below `prefix` (`prefix.k`, or `k` at the top). */
  function ChildPath(prefix: Path, k: Key): Path
  {
    prefix + [k]
  }

  // ---------------------------------------------------------------------------
  // Specification

  /** The changes between `before` and `after`, below `prefix`. */
  function Diff(before: map<Key, Value>, after: map<Key, Value>, prefix: Path): seq<Change>
    decreases Dict(before), 2, 0
  {
    DiffKeys(before, after, prefix, SortedKeys(before.Keys + after.Keys))
  }

  /** The changes contributed by `keys`, in the order of `keys`. */
  function DiffKeys(before: map<Key, Value>, after: map<Key, Value>, prefix: Path, keys: seq<Key>): seq<Change>
    decreases Dict(before), 1, |keys|
  {
    if keys == [] then []
    else DiffKey(before, after, prefix, keys[0]) + DiffKeys(before, after, prefix, keys[1..])
  }

  /** The changes contributed by one key: the nested diff when both sides are
      dicts, otherwise one change when the two `get` results differ. */
  function DiffKey(before: map<Key, Value>, after: map<Key, Value>, prefix: Path, k: Key): seq<Change>
    decreases Dict(before), 0, 0
  {
    var was, now := Get(before, k), Get(after, k);
    if was.Dict? && now.Dict? then Diff(was.entries, now.entries, ChildPath(prefix, k))
    else if was != now then [Change(ChildPath(prefix, k), was, now)]
    else []
  }

  // ---------------------------------------------------------------------------
  // The source's loop

  /** `dict_diff`: builds `changes` by `extend` (nested dicts) and `append`
      (differing leaves) over the sorted union of the keys, with each path
      built by `ChildPath`. */
  method DictDiff(before: map<Key, Value>, after: map<Key, Value>, prefix: Path) returns (changes: seq<Change>)
    ensures changes == Diff(before, after, prefix)
    decreases Dict(before)
  {
    changes := [];
    var keys := SortedKeys(before.Keys + after.Keys);
    var i := 0;
    while i < |keys|
      invariant 0 <= i <= |keys|
      invariant changes == DiffKeys(before, after, prefix, keys[..i])
    {
      var key := keys[i];
      var path := ChildPath(prefix, key);
      var was, now := Get(before, key), Get(after, key);
      DiffKeysSnoc(before, after, prefix, keys[..i], key);
      assert keys[..i + 1] == keys[..i] + [key];
      if was.Dict? && now.Dict? {
        var nested := DictDiff(was.entries, now.entries, path);
        changes := changes + nested;
      } else if was != now {
        changes := changes + [Change(path, was, now)];
      }
      i := i + 1;
    }
    TakeAll(keys);
  }

  lemma {:induction false} DiffKeysSnoc(before: map<Key, Value>, after: map<Key, Value>, prefix: Path, keys: seq<Key>, k: Key)
    ensures DiffKeys(before, after, prefix, keys + [k]) ==
      DiffKeys(before, after, prefix, keys) + DiffKey(before, after, prefix, k)
    decreases |keys|
  {
    if keys == [] {
      assert [k][1..] == [];
    } else {
      assert (keys + [k])[1..] == keys[1..] + [k];
      DiffKeysSnoc(before, after, prefix, keys[1..], k);
    }
  }

  lemma TakeAll<T>(s: seq<T>)
    ensures s[..|s|] == s
  {
  }

  // ---------------------------------------------------------------------------
  // An independent description of the changes

  /** `before` and `after` differ at relative path `q`, from `was` to `now`, at
      a place where they are not both dicts (following `get` down `q`). */
  ghost predicate LeafDifference(before: map<Key, Value>, after: map<Key, Value>, q: Path, was: Value, now: Value)
    decreases |q|
  {
    |q| > 0 &&
    var a, b := Get(before, q[0]), Get(after, q[0]);
    if a.Dict? && b.Dict? then LeafDifference(a.entries, b.entries, q[1..], was, now)
    else |q| == 1 && a != b && was == a && now == b
  }

  /** Where `Diff` places a change: below `prefix`, at a leaf difference. */
  ghost predicate Reported(before: map<Key, Value>, after: map<Key, Value>, prefix: Path, c: Change)
  {
    |prefix| < |c.path| && c.path[..|prefix|] == prefix &&
    LeafDifference(before, after, c.path[|prefix|..], c.before, c.after)
  }

  /** Every entry of the output is a leaf difference and every leaf difference
      is an entry of the output. */
  lemma {:induction false} DiffMembers(before: map<Key, Value>, after: map<Key, Value>, prefix: Path, c: Change)
    ensures c in Diff(before, after, prefix) <==> Reported(before, after, prefix, c)
    decreases Dict(before), 2, 0
  {
    var keys := SortedKeys(before.Keys + after.Keys);
    SortedKeysSpec(before.Keys + after.Keys);
    DiffKeysMembers(before, after, prefix, keys, c);
    if Reported(before, after, prefix, c) {
      var k := c.path[|prefix|];
      assert c.path[|prefix|..][0] == k;
      assert Get(before, k) != Null || Get(after, k) != Null;
    }
  }

  /** How a path below `ChildPath(prefix, k)` splits into its parts. */
  lemma ChildPathSplit(prefix: Path, k: Key, p: Path)
    requires |prefix| < |p|
    ensures p[|prefix|..][0] == p[|prefix|]
    ensures p[|prefix|..][1..] == p[|prefix| + 1..]
    ensures p[..|prefix| + 1] == ChildPath(prefix, k) <==> p[..|prefix|] == prefix && p[|prefix|] == k
    ensures p[..|prefix|] == prefix && p[|prefix|..] == [k] ==> p == ChildPath(prefix, k)
  {
    assert p[..|prefix| + 1] == p[..|prefix|] + [p[|prefix|]];
    assert p == p[..|prefix|] + p[|prefix|..];
  }

  lemma {:induction false} DiffKeysMembers(before: map<Key, Value>, after: map<Key, Value>, prefix: Path, keys: seq<Key>, c: Change)
    ensures c in DiffKeys(before, after, prefix, keys) <==>
      Reported(before, after, prefix, c) && c.path[|prefix|] in keys
    decreases Dict(before), 1, |keys|
  {
    if keys != [] {
      DiffKeyMembers(before, after, prefix, keys[0], c);
      DiffKeysMembers(before, after, prefix, keys[1..], c);
      if Reported(before, after, prefix, c) && c.path[|prefix|] in keys {
        assert c.path[|prefix|] == keys[0] || c.path[|prefix|] in keys[1..];
      }
    }
  }

  lemma {:induction false} DiffKeyMembers(before: map<Key, Value>, after: map<Key, Value>, prefix: Path, k: Key, c: Change)
    ensures c in DiffKey(before, after, prefix, k) <==>
      Reported(before, after, prefix, c) && c.path[|prefix|] == k
    decreases Dict(before), 0, 0
  {
    var a, b := Get(before, k), Get(after, k);
    var child := ChildPath(prefix, k);
    if |prefix| < |c.path| {
      ChildPathSplit(prefix, k, c.path);
    }
    if a.Dict? && b.Dict? {
      DiffMembers(a.entries, b.entries, child, c);
      if |prefix| < |c.path| && c.path[|prefix|] == k {
        assert LeafDifference(before, after, c.path[|prefix|..], c.before, c.after) <==>
          LeafDifference(a.entries, b.entries, c.path[|child|..], c.before, c.after);
      }
    }
  }

  // ---------------------------------------------------------------------------
  // Ordering (keys are visited in sorted order at every level)

  /** Path `p` comes before `q` in the order of the output: they part at some
      level, where `p`'s key is the smaller one. */
  predicate PathLess(p: Path, q: Path)
  {
    |p| > 0 && |q| > 0 && (KeyLess(p[0], q[0]) || (p[0] == q[0] && PathLess(p[1..], q[1..])))
  }

  predicate ChangesSorted(cs: seq<Change>)
  {
    forall i, j :: 0 <= i < j < |cs| ==> PathLess(cs[i].path, cs[j].path)
  }

  lemma {:induction false} PathLessAt(p: Path, q: Path, n: nat)
    requires n < |p| && n < |q| && p[..n] == q[..n] && KeyLess(p[n], q[n])
    ensures PathLess(p, q)
  {
    if n > 0 {
      assert p[0] == p[..n][0] == q[..n][0] == q[0];
      assert p[1..][..n - 1] == p[..n][1..] == q[..n][1..] == q[1..][..n - 1];
      PathLessAt(p[1..], q[1..], n - 1);
    }
  }

  lemma {:induction false} PathLessIrreflexive(p: Path)
    ensures !PathLess(p, p)
  {
    KeyLessStrictTotalOrder();
    if |p| > 0 {
      PathLessIrreflexive(p[1..]);
    }
  }

  /** The output is strictly increasing by path: sorted by key at every level,
      and no path occurs twice. */
  lemma {:induction false} DiffSorted(before: map<Key, Value>, after: map<Key, Value>, prefix: Path)
    ensures ChangesSorted(Diff(before, after, prefix))
    decreases Dict(before), 2, 0
  {
    SortedKeysSpec(before.Keys + after.Keys);
    DiffKeysSorted(before, after, prefix, SortedKeys(before.Keys + after.Keys));
  }

  lemma {:induction false} DiffKeysSorted(before: map<Key, Value>, after: map<Key, Value>, prefix: Path, keys: seq<Key>)
    requires StrictlySorted(keys)
    ensures ChangesSorted(DiffKeys(before, after, prefix, keys))
    decreases Dict(before), 1, |keys|
  {
    if keys != [] {
      var head := DiffKey(before, after, prefix, keys[0]);
      var tail := DiffKeys(before, after, prefix, keys[1..]);
      DiffKeySorted(before, after, prefix, keys[0]);
      DiffKeysSorted(before, after, prefix, keys[1..]);
      var all := head + tail;
      forall i, j | 0 <= i < j < |all| ensures PathLess(all[i].path, all[j].path) {
        if i < |head| <= j {
          assert all[i] == head[i] && all[j] == tail[j - |head|];
          HeadBeforeTail(before, after, prefix, keys, head[i], tail[j - |head|]);
        } else if j < |head| {
          assert all[i] == head[i] && all[j] == head[j];
        } else {
          assert all[i] == tail[i - |head|] && all[j] == tail[j - |head|];
        }
      }
    }
  }

  /** A change found under the first key sorts before every change found under a later key. */
  lemma HeadBeforeTail(before: map<Key, Value>, after: map<Key, Value>, prefix: Path, keys: seq<Key>, c: Change, d: Change)
    requires StrictlySorted(keys) && keys != []
    requires c in DiffKey(before, after, prefix, keys[0])
    requires d in DiffKeys(before, after, prefix, keys[1..])
    ensures PathLess(c.path, d.path)
  {
    DiffKeyMembers(before, after, prefix, keys[0], c);
    DiffKeysMembers(before, after, prefix, keys[1..], d);
    var m :| 0 <= m < |keys[1..]| && keys[1..][m] == d.path[|prefix|];
    assert KeyLess(keys[0], keys[m + 1]);
    PathLessAt(c.path, d.path, |prefix|);
  }

  lemma {:induction false} DiffKeySorted(before: map<Key, Value>, after: map<Key, Value>, prefix: Path, k: Key)
    ensures ChangesSorted(DiffKey(before, after, prefix, k))
    decreases Dict(before), 0, 0
  {
    var a, b := Get(before, k), Get(after, k);
    if a.Dict? && b.Dict? {
      DiffSorted(a.entries, b.entries, ChildPath(prefix, k));
    }
  }

  /** No two entries of the output are reported at the same path. */
  lemma DiffPathsDistinct(before: map<Key, Value>, after: map<Key, Value>, prefix: Path)
    ensures var cs := Diff(before, after, prefix);
      forall i, j :: 0 <= i < |cs| && 0 <= j < |cs| && i != j ==> cs[i].path != cs[j].path
  {
    var cs := Diff(before, after, prefix);
    DiffSorted(before, after, prefix);
    forall i, j | 0 <= i < |cs| && 0 <= j < |cs| && i != j ensures cs[i].path != cs[j].path {
      PathLessIrreflexive(cs[i].path);
    }
  }

  // ---------------------------------------------------------------------------
  // Entries at one key

  /** Where at least one side of key `k` is not a dict there is no recursion:
      the output holds one change at path `prefix.k` when the two `get`
      results differ and nothing at or below `prefix.k` otherwise.  This covers
      a dict replaced by a scalar, an added key (`None -> new`) and a removed
      key (`old -> None`). */
  lemma NonDictEntryIsLeaf(before: map<Key, Value>, after: map<Key, Value>, prefix: Path, k: Key)
    requires !(Get(before, k).Dict? && Get(after, k).Dict?)
    ensures Get(before, k) != Get(after, k) ==>
      Change(ChildPath(prefix, k), Get(before, k), Get(after, k)) in Diff(before, after, prefix)
    ensures forall c :: c in Diff(before, after, prefix) && |prefix| < |c.path| && c.path[|prefix|] == k ==>
      Get(before, k) != Get(after, k) && c == Change(ChildPath(prefix, k), Get(before, k), Get(after, k))
  {
    var leaf := Change(ChildPath(prefix, k), Get(before, k), Get(after, k));
    DiffMembers(before, after, prefix, leaf);
    assert leaf.path[|prefix|..] == [k];
    forall c | c in Diff(before, after, prefix) && |prefix| < |c.path| && c.path[|prefix|] == k
      ensures Get(before, k) != Get(after, k) && c == leaf
    {
      DiffMembers(before, after, prefix, c);
      assert c.path[|prefix|..][0] == k;
      assert c.path == c.path[..|prefix|] + c.path[|prefix|..];
    }
  }

  /** A key only in `after` is reported as `None -> new`, once. */
  lemma KeyAdded(before: map<Key, Value>, after: map<Key, Value>, prefix: Path, k: Key)
    requires k !in before && k in after && after[k] != Null
    ensures Change(ChildPath(prefix, k), Null, after[k]) in Diff(before, after, prefix)
    ensures forall c :: c in Diff(before, after, prefix) && |prefix| < |c.path| && c.path[|prefix|] == k ==>
      c == Change(ChildPath(prefix, k), Null, after[k])
  {
    NonDictEntryIsLeaf(before, after, prefix, k);
  }

  /** A key only in `before` is reported as `old -> None`, once. */
  lemma KeyRemoved(before: map<Key, Value>, after: map<Key, Value>, prefix: Path, k: Key)
    requires k in before && k !in after && before[k] != Null
    ensures Change(ChildPath(prefix, k), before[k], Null) in Diff(before, after, prefix)
    ensures forall c :: c in Diff(before, after, prefix) && |prefix| < |c.path| && c.path[|prefix|] == k ==>
      c == Change(ChildPath(prefix, k), before[k], Null)
  {
    NonDictEntryIsLeaf(before, after, prefix, k);
  }

  /** Because a missing key reads as `None`, an entry that is `None` on one side
      and missing on the other is not reported. */
  lemma NoneMatchesMissing(before: map<Key, Value>, after: map<Key, Value>, prefix: Path, k: Key)
    requires (k in before && before[k] == Null && k !in after) || (k !in before && k in after && after[k] == Null)
    ensures forall c :: c in Diff(before, after, prefix) && |prefix| < |c.path| ==> c.path[|prefix|] != k
  {
    NonDictEntryIsLeaf(before, after, prefix, k);
  }

  /** Where both sides of key `k` are dicts, the entries below `prefix.k` are
      exactly the diff of the two sub-dicts under the path `prefix.k`. */
  lemma NestedDictsRecurse(before: map<Key, Value>, after: map<Key, Value>, prefix: Path, k: Key, c: Change)
    requires Get(before, k).Dict? && Get(after, k).Dict?
    ensures (c in Diff(before, after, prefix) && |prefix| < |c.path| && c.path[|prefix|] == k) <==>
      c in Diff(Get(before, k).entries, Get(after, k).entries, ChildPath(prefix, k))
  {
    DiffMembers(before, after, prefix, c);
    DiffKeyMembers(before, after, prefix, k, c);
  }

  // ---------------------------------------------------------------------------
  // When the output is empty

  /** Deep equality, except that an entry holding `None` and a missing key are
      not told apart (both read as `None` through `get`). */
  predicate SameUpToNone(before: map<Key, Value>, after: map<Key, Value>)
    decreases Dict(before)
  {
    forall k :: k in before.Keys + after.Keys ==>
      var a, b := Get(before, k), Get(after, k);
      if a.Dict? && b.Dict? then SameUpToNone(a.entries, b.entries) else a == b
  }

  lemma {:induction false} SameUpToNoneReflexive(d: map<Key, Value>)
    ensures SameUpToNone(d, d)
    decreases Dict(d)
  {
    forall k | k in d.Keys && d[k].Dict? ensures SameUpToNone(d[k].entries, d[k].entries) {
      SameUpToNoneReflexive(d[k].entries);
    }
  }

  lemma {:induction false} NoLeafDifference(before: map<Key, Value>, after: map<Key, Value>, q: Path, was: Value, now: Value)
    requires SameUpToNone(before, after)
    ensures !LeafDifference(before, after, q, was, now)
    decreases |q|
  {
    if |q| > 0 {
      var a, b := Get(before, q[0]), Get(after, q[0]);
      if a.Dict? && b.Dict? {
        assert q[0] in before.Keys + after.Keys;
        NoLeafDifference(a.entries, b.entries, q[1..], was, now);
      } else if q[0] !in before.Keys + after.Keys {
        assert a == Null == b;
      }
    }
  }

  lemma {:induction false} LeafDifferenceWitness(before: map<Key, Value>, after: map<Key, Value>)
    returns (q: Path, was: Value, now: Value)
    requires !SameUpToNone(before, after)
    ensures LeafDifference(before, after, q, was, now)
    decreases Dict(before)
  {
    var k :| k in before.Keys + after.Keys &&
      var a, b := Get(before, k), Get(after, k);
      !(if a.Dict? && b.Dict? then SameUpToNone(a.entries, b.entries) else a == b);
    var a, b := Get(before, k), Get(after, k);
    if a.Dict? && b.Dict? {
      var rest;
      rest, was, now := LeafDifferenceWitness(a.entries, b.entries);
      q := [k] + rest;
      assert q[1..] == rest;
    } else {
      q, was, now := [k], a, b;
    }
  }

  /** The output is empty exactly when the two dicts agree up to `None`
      entries; two dicts that differ only there yield no change at all. */
  lemma DiffEmptyIff(before: map<Key, Value>, after: map<Key, Value>, prefix: Path)
    ensures Diff(before, after, prefix) == [] <==> SameUpToNone(before, after)
  {
    var cs := Diff(before, after, prefix);
    if SameUpToNone(before, after) && cs != [] {
      DiffMembers(before, after, prefix, cs[0]);
      NoLeafDifference(before, after, cs[0].path[|prefix|..], cs[0].before, cs[0].after);
    }
    if !SameUpToNone(before, after) {
      var q, was, now := LeafDifferenceWitness(before, after);
      var c := Change(prefix + q, was, now);
      assert c.path[..|prefix|] == prefix && c.path[|prefix|..] == q;
      DiffMembers(before, after, prefix, c);
    }
  }

  /** Reflexivity: a dict compared with itself yields no change. */
  lemma DiffReflexive(d: map<Key, Value>, prefix: Path)
    ensures Diff(d, d, prefix) == []
  {
    SameUpToNoneReflexive(d);
    DiffEmptyIff(d, d, prefix);
  }

  // ---------------------------------------------------------------------------
  // Flat dicts

  /** The keys whose `get` results differ. */
  function DifferingKeys(before: map<Key, Value>, after: map<Key, Value>): set<Key>
  {
    set k | k in before.Keys + after.Keys && Get(before, k) != Get(after, k)
  }

  /** No key holds a dict on both sides, so nothing is recursed into. */
  predicate NoNestedPair(before: map<Key, Value>, after: map<Key, Value>)
  {
    forall k :: k in before && k in after ==> !(before[k].Dict? && after[k].Dict?)
  }

  /** For flat dicts the output has one entry per key whose values differ. */
  lemma FlatDiffLength(before: map<Key, Value>, after: map<Key, Value>, prefix: Path)
    requires NoNestedPair(before, after)
    ensures |Diff(before, after, prefix)| == |DifferingKeys(before, after)|
  {
    var keys := SortedKeys(before.Keys + after.Keys);
    SortedKeysSpec(before.Keys + after.Keys);
    SortedIsDistinct(keys);
    FlatDiffKeysLength(before, after, prefix, keys);
    DifferingKeysInAll(before, after, keys);
  }

  lemma DifferingKeysInAll(before: map<Key, Value>, after: map<Key, Value>, keys: seq<Key>)
    requires forall k :: k in keys <==> k in before.Keys + after.Keys
    ensures DifferingKeysIn(before, after, keys) == DifferingKeys(before, after)
  {
  }

  lemma SortedIsDistinct(keys: seq<Key>)
    requires StrictlySorted(keys)
    ensures Distinct(keys)
  {
    forall i, j | 0 <= i < j < |keys| ensures keys[i] != keys[j] {
      KeyLessIrreflexive(keys[i]);
    }
  }

  predicate Distinct(keys: seq<Key>)
  {
    forall i, j :: 0 <= i < j < |keys| ==> keys[i] != keys[j]
  }

  function DifferingKeysIn(before: map<Key, Value>, after: map<Key, Value>, keys: seq<Key>): set<Key>
  {
    set k | k in keys && Get(before, k) != Get(after, k)
  }

  lemma {:induction false} FlatDiffKeysLength(before: map<Key, Value>, after: map<Key, Value>, prefix: Path, keys: seq<Key>)
    requires NoNestedPair(before, after)
    requires Distinct(keys)
    ensures |DiffKeys(before, after, prefix, keys)| == |DifferingKeysIn(before, after, keys)|
    decreases |keys|
  {
    if keys != [] {
      var k := keys[0];
      FlatDiffKeysLength(before, after, prefix, keys[1..]);
      var here: set<Key> := if Get(before, k) != Get(after, k) then {k} else {};
      DifferingKeysInCons(before, after, keys);
      assert k !in keys[1..];
      LeafKeyLength(before, after, prefix, k);
    }
  }

  lemma DifferingKeysInCons(before: map<Key, Value>, after: map<Key, Value>, keys: seq<Key>)
    requires keys != []
    ensures DifferingKeysIn(before, after, keys) ==
      (if Get(before, keys[0]) != Get(after, keys[0]) then {keys[0]} else {}) + DifferingKeysIn(before, after, keys[1..])
  {
    assert forall k :: k in keys <==> k == keys[0] || k in keys[1..];
  }

  lemma LeafKeyLength(before: map<Key, Value>, after: map<Key, Value>, prefix: Path, k: Key)
    requires NoNestedPair(before, after)
    ensures |DiffKey(before, after, prefix, k)| == if Get(before, k) != Get(after, k) then 1 else 0
  {
    assert !(Get(before, k).Dict? && Get(after, k).Dict?);
  }

  // ---------------------------------------------------------------------------
  // Path building as written (see README, Findings)

  predicate KeyTruthy(k: Key)
  {
    match k
    case KStr(s) => s != ""
    case KInt(i) => i != 0
  }

  /** Truthiness of the Python value the source holds as `prefix`: `""` at the
      top level, the bare key one level down, a dotted string below that. */
  predicate PrefixTruthy(prefix: Path)
  {
    |prefix| >= 2 || (|prefix| == 1 && KeyTruthy(prefix[0]))
  }

  /** Line 6 as written: `f"{prefix}.{key}" if prefix else key`. */
  function SourceChildPath(prefix: Path, k: Key): Path
  {
    if PrefixTruthy(prefix) then prefix + [k] else [k]
  }

  /** The path the source reports for the change at structured path `p`. */
  function SourcePath(p: Path): Path
  {
    if p == [] then [] else SourceChildPath(SourcePath(p[..|p| - 1]), p[|p| - 1])
  }

  /** The output as written: every change reported at `SourcePath` of its path. */
  function SourceDiff(before: map<Key, Value>, after: map<Key, Value>): seq<Change>
  {
    var d := Diff(before, after, []);
    seq(|d|, i requires 0 <= i < |d| => Change(SourcePath(d[i].path), d[i].before, d[i].after))
  }

  /** Where every top-level key is truthy, as the field names of a
      `SharedConfig` are, the output as written is exactly `Diff`. */
  lemma SourceDiffIsDiff(before: map<Key, Value>, after: map<Key, Value>)
    requires forall k :: k in before.Keys + after.Keys ==> KeyTruthy(k)
    ensures SourceDiff(before, after) == Diff(before, after, [])
  {
    var d := Diff(before, after, []);
    forall i | 0 <= i < |d| ensures SourceDiff(before, after)[i] == d[i] {
      DiffMembers(before, after, [], d[i]);
      assert d[i].path[0..] == d[i].path;
      SourcePathIsFullPath(d[i].path);
    }
  }

  const CollideBefore: map<Key, Value> :=
    map[KStr("") := Dict(map[KStr("x") := Leaf(Num(1.0))]), KStr("x") := Leaf(Num(1.0))]
  const CollideAfter: map<Key, Value> :=
    map[KStr("") := Dict(map[KStr("x") := Leaf(Num(2.0))]), KStr("x") := Leaf(Num(2.0))]

  lemma CollidingNestedChange(c: Change)
    requires c == Change([KStr(""), KStr("x")], Leaf(Num(1.0)), Leaf(Num(2.0)))
    ensures c in Diff(CollideBefore, CollideAfter, [])
  {
    assert Reported(CollideBefore, CollideAfter, [], c) by {
      assert KStr("") != KStr("x");
      assert c.path[..0] == [] && c.path[0..] == c.path && c.path[1..] == [KStr("x")];
      assert Get(CollideBefore, KStr("")) == Dict(map[KStr("x") := Leaf(Num(1.0))]);
      assert Get(CollideAfter, KStr("")) == Dict(map[KStr("x") := Leaf(Num(2.0))]);
    }
    DiffMembers(CollideBefore, CollideAfter, [], c);
  }

  lemma CollidingTopChange(c: Change)
    requires c == Change([KStr("x")], Leaf(Num(1.0)), Leaf(Num(2.0)))
    ensures c in Diff(CollideBefore, CollideAfter, [])
  {
    assert Reported(CollideBefore, CollideAfter, [], c) by {
      assert KStr("") != KStr("x");
      assert c.path[..0] == [] && c.path[0..] == c.path;
    }
    DiffMembers(CollideBefore, CollideAfter, [], c);
  }

  lemma CollidingSourcePaths()
    ensures SourcePath([KStr(""), KStr("x")]) == [KStr("x")]
    ensures SourcePath([KStr("x")]) == [KStr("x")]
  {
    assert [KStr(""), KStr("x")][..1] == [KStr("")];
    assert [KStr("")][..0] == [];
    assert SourcePath([KStr("")]) == [KStr("")];
    assert [KStr("x")][..0] == [];
  }

  /** As written, a change nested under the key `""` is reported at the same
      path as a change of the top-level key `"x"`: comparing `CollideBefore`
      with `CollideAfter`, two changes are reported with the path `[x]`. */
  lemma SourcePathsCollide()
    ensures exists i, j ::
              0 <= i < j < |SourceDiff(CollideBefore, CollideAfter)| &&
              SourceDiff(CollideBefore, CollideAfter)[i].path == [KStr("x")] &&
              SourceDiff(CollideBefore, CollideAfter)[j].path == [KStr("x")]
  {
    var d := Diff(CollideBefore, CollideAfter, []);
    var sd := SourceDiff(CollideBefore, CollideAfter);
    CollidingNestedChange(Change([KStr(""), KStr("x")], Leaf(Num(1.0)), Leaf(Num(2.0))));
    CollidingTopChange(Change([KStr("x")], Leaf(Num(1.0)), Leaf(Num(2.0))));
    CollidingSourcePaths();
    var i :| 0 <= i < |d| && d[i].path == [KStr(""), KStr("x")];
    var j :| 0 <= j < |d| && d[j].path == [KStr("x")];
    assert sd[i].path == [KStr("x")] && sd[j].path == [KStr("x")];
    assert i != j;
    if i < j {
      assert 0 <= i < j < |sd| && sd[i].path == [KStr("x")] && sd[j].path == [KStr("x")];
    } else {
      assert 0 <= j < i < |sd| && sd[j].path == [KStr("x")] && sd[i].path == [KStr("x")];
    }
  }

  /** Where the first key of a path is truthy (never `""` or `0`), the source
      reports the full path, as `Diff` does. */
  lemma {:induction false} SourcePathIsFullPath(p: Path)
    requires p == [] || KeyTruthy(p[0])
    ensures SourcePath(p) == p
    decreases |p|
  {
    if p != [] {
      var init, k := p[..|p| - 1], p[|p| - 1];
      assert init == [] || init[0] == p[0];
      SourcePathIsFullPath(init);
      SourcePathSnoc(init, k);
      assert p == init + [k];
    }
  }

  lemma SourcePathSnoc(init: Path, k: Key)
    ensures SourcePath(init + [k]) == SourceChildPath(SourcePath(init), k)
  {
    assert (init + [k])[..|init|] == init;
  }

  /** The corrected paths keep every key: two changes reported at the same path
      were found by following the same keys. */
  lemma ChildPathInjective(p: Path, k: Key, p': Path, k': Key)
    requires ChildPath(p, k) == ChildPath(p', k')
    ensures p == p' && k == k'
  {
    assert p == ChildPath(p, k)[..|p|];
  }
}
