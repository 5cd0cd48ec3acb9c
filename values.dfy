/**
 * The nested dictionaries that `dict_diff` compares: the output of pydantic's
 * `model_dump` for a shared configuration.  Keys are strings or integers (the
 * `driver_cuda_map` field is keyed by integers), leaves are numbers or strings,
 * and `Null` is Python's `None`, which is also what `dict.get` returns for a
 * missing key.
 */
module Values {

  datatype Key = KStr(s: string) | KInt(i: int)

  /** A leaf value.  Python compares an `int` and a `float` by numeric value
      (`7 == 7.0`), so both are one `Num`. */
  datatype Scalar = Num(n: real) | Text(t: string)

  datatype Value = Null | Leaf(scalar: Scalar) | Dict(entries: map<Key, Value>)

  /** A field path, one key per nesting level. */
  type Path = seq<Key>

  /** `d.get(k)`: the entry at `k`, or `None` when `k` is missing. */
  function Get(d: map<Key, Value>, k: Key): Value
  {
    if k in d then d[k] else Null
  }

  /** Python's `<` on two strings: code point by code point, a proper prefix first. */
  predicate StrLess(a: string, b: string)
  {
    if a == [] then b != []
    else if b == [] then false
    else if a[0] == b[0] then StrLess(a[1..], b[1..])
    else a[0] < b[0]
  }

  /** The order `sorted` puts keys in: integers numerically, strings as Python
      compares them, and (a choice of this model) every integer before every string. */
  predicate KeyLess(a: Key, b: Key)
  {
    match (a, b)
    case (KInt(x), KInt(y)) => x < y
    case (KInt(_), KStr(_)) => true
    case (KStr(_), KInt(_)) => false
    case (KStr(s), KStr(t)) => StrLess(s, t)
  }

  lemma {:induction false} StrLessIrreflexive(a: string)
    ensures !StrLess(a, a)
  {
    if a != [] {
      StrLessIrreflexive(a[1..]);
    }
  }

  lemma {:induction false} StrLessTransitive(a: string, b: string, c: string)
    requires StrLess(a, b) && StrLess(b, c)
    ensures StrLess(a, c)
  {
    if a != [] && b != [] && c != [] && a[0] == b[0] && b[0] == c[0] {
      StrLessTransitive(a[1..], b[1..], c[1..]);
    }
  }

  lemma {:induction false} StrLessTotal(a: string, b: string)
    requires a != b
    ensures StrLess(a, b) || StrLess(b, a)
  {
    if a != [] && b != [] && a[0] == b[0] {
      assert a == [a[0]] + a[1..] && b == [b[0]] + b[1..];
      StrLessTotal(a[1..], b[1..]);
    }
  }

  lemma {:induction false} StrLessAsymmetric(a: string, b: string)
    requires StrLess(a, b)
    ensures !StrLess(b, a)
  {
    if StrLess(b, a) {
      StrLessTransitive(a, b, a);
      StrLessIrreflexive(a);
    }
  }

  lemma KeyLessIrreflexive(a: Key)
    ensures !KeyLess(a, a)
  {
    if a.KStr? { StrLessIrreflexive(a.s); }
  }

  /** `KeyLess` is a strict total order, which is what makes "sorted keys" one sequence. */
  lemma KeyLessStrictTotalOrder()
    ensures forall a :: !KeyLess(a, a)
    ensures forall a, b :: KeyLess(a, b) ==> !KeyLess(b, a)
    ensures forall a, b, c :: KeyLess(a, b) && KeyLess(b, c) ==> KeyLess(a, c)
    ensures forall a, b :: a != b ==> KeyLess(a, b) || KeyLess(b, a)
  {
    forall a ensures !KeyLess(a, a) {
      KeyLessIrreflexive(a);
    }
    forall a, b | KeyLess(a, b) ensures !KeyLess(b, a) {
      if a.KStr? && b.KStr? { StrLessAsymmetric(a.s, b.s); }
    }
    forall a, b, c | KeyLess(a, b) && KeyLess(b, c) ensures KeyLess(a, c) {
      if a.KStr? && b.KStr? && c.KStr? { StrLessTransitive(a.s, b.s, c.s); }
    }
    forall a, b | a != b ensures KeyLess(a, b) || KeyLess(b, a) {
      if a.KStr? && b.KStr? { StrLessTotal(a.s, b.s); }
    }
  }

  predicate IsLeast(m: Key, s: set<Key>)
  {
    m in s && forall k :: k in s && k != m ==> KeyLess(m, k)
  }

  lemma {:induction false} LeastExists(s: set<Key>)
    requires s != {}
    ensures exists m :: IsLeast(m, s)
    decreases |s|
  {
    var x :| x in s;
    if s == {x} {
      assert IsLeast(x, s);
    } else {
      LeastExists(s - {x});
      var rest :| IsLeast(rest, s - {x});
      KeyLessStrictTotalOrder();
      var m := if KeyLess(x, rest) then x else rest;
      assert IsLeast(m, s);
    }
  }

  predicate StrictlySorted(ks: seq<Key>)
  {
    forall i, j :: 0 <= i < j < |ks| ==> KeyLess(ks[i], ks[j])
  }

  /** `sorted(keys)`: the least key first, then the rest sorted. */
  function SortedKeys(s: set<Key>): seq<Key>
    decreases |s|
  {
    if s == {} then []
    else
      LeastExists(s);
      KeyLessStrictTotalOrder();
      var m :| IsLeast(m, s);
      [m] + SortedKeys(s - {m})
  }

  /** `sorted` returns the keys of `s` in increasing order, each exactly once. */
  lemma {:induction false} SortedKeysSpec(s: set<Key>)
    ensures StrictlySorted(SortedKeys(s))
    ensures forall k :: k in SortedKeys(s) <==> k in s
    ensures |SortedKeys(s)| == |s|
    decreases |s|
  {
    if s != {} {
      var r := SortedKeys(s);
      var m := r[0];
      LeastStep(s);
      var rest := SortedKeys(s - {m});
      SortedKeysSpec(s - {m});
      assert r == [m] + rest;
      forall i, j | 0 <= i < j < |r| ensures KeyLess(r[i], r[j]) {
        assert r[j] == rest[j - 1];
        if i == 0 {
          assert rest[j - 1] in rest;
          assert rest[j - 1] in s && rest[j - 1] != m;
        } else {
          assert r[i] == rest[i - 1];
          assert KeyLess(rest[i - 1], rest[j - 1]);
        }
      }
    }
  }

  /** One unfolding of `SortedKeys`: the head is the least key, the tail sorts the rest. */
  lemma LeastStep(s: set<Key>)
    requires s != {}
    ensures SortedKeys(s) != []
    ensures IsLeast(SortedKeys(s)[0], s)
    ensures SortedKeys(s) == [SortedKeys(s)[0]] + SortedKeys(s - {SortedKeys(s)[0]})
  {
  }
}
