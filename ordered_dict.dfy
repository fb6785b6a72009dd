/**
 * An insertion-ordered dictionary with string keys, as a sequence of
 * (key, value) pairs with distinct keys. It models both a JavaScript `Map`
 * and a plain object used as a dictionary: a write to a new key appends it,
 * a write to an existing key replaces the value and keeps the key's place.
 * Also the first-occurrence order of a sequence (`Dedup`), which is the
 * key order such a dictionary ends up with.
 */
module OrderedDict {
  import opened Wrappers

  type Dict<V> = seq<(string, V)>

  /** The keys of `d`, in insertion order. */
  function Keys<V>(d: Dict<V>): (ks: seq<string>)
    ensures |ks| == |d|
    ensures forall i :: 0 <= i < |d| ==> ks[i] == d[i].0
  {
    if d == [] then [] else [d[0].0] + Keys(d[1..])
  }

  predicate Distinct<T(==)>(s: seq<T>)
  {
    forall i, j :: 0 <= i < j < |s| ==> s[i] != s[j]
  }

  /** `d.get(k)`: the value stored under `k`, if any. */
  function Lookup<V>(d: Dict<V>, k: string): (r: Option<V>)
    ensures r.None? <==> k !in Keys(d)
    ensures r.Some? ==> (k, r.value) in d
  {
    if d == [] then None
    else if d[0].0 == k then Some(d[0].1)
    else Lookup(d[1..], k)
  }

  /** `d.set(k, v)` (or `obj[k] = v`): replace in place, or append a new key. */
  function Put<V>(d: Dict<V>, k: string, v: V): (r: Dict<V>)
    ensures Keys(r) == if k in Keys(d) then Keys(d) else Keys(d) + [k]
  {
    if d == [] then [(k, v)]
    else if d[0].0 == k then [(k, v)] + d[1..]
    else
      var rest := Put(d[1..], k, v);
      assert ([d[0]] + rest)[1..] == rest;
      [d[0]] + rest
  }

  /** After a write, the key reads back the written value and every other key reads as before. */
  lemma {:induction false} LookupAfterPut<V>(d: Dict<V>, k: string, v: V, k': string)
    ensures Lookup(Put(d, k, v), k') == if k' == k then Some(v) else Lookup(d, k')
  {
    if d != [] && d[0].0 != k {
      LookupAfterPut(d[1..], k, v, k');
    }
  }

  /** A write adds the written pair and keeps nothing that was not there before. */
  lemma {:induction false} PutPairs<V>(d: Dict<V>, k: string, v: V)
    ensures forall p :: p in Put(d, k, v) ==> p == (k, v) || p in d
  {
    if d != [] && d[0].0 != k {
      PutPairs(d[1..], k, v);
    }
  }

  /** The value under `k`, or an empty dictionary when `k` is absent. */
  function GetOrEmpty<V>(d: Dict<Dict<V>>, k: string): Dict<V>
  {
    match Lookup(d, k)
    case Some(g) => g
    case None => []
  }

  /** With distinct keys, looking up the key at position `i` finds the value at `i`. */
  lemma {:induction false} LookupAt<V>(d: Dict<V>, i: nat)
    requires Distinct(Keys(d)) && i < |d|
    ensures Lookup(d, d[i].0) == Some(d[i].1)
  {
    if i > 0 {
      assert Keys(d)[0] != Keys(d)[i];
      assert Keys(d[1..]) == Keys(d)[1..];
      LookupAt(d[1..], i - 1);
    }
  }

  /** A second write to the same key overrides the first, and the key keeps its place. */
  lemma {:induction false} PutPut<V>(d: Dict<V>, k: string, v1: V, v2: V)
    ensures Put(Put(d, k, v1), k, v2) == Put(d, k, v2)
  {
    if d != [] && d[0].0 != k {
      PutPut(d[1..], k, v1, v2);
    }
  }

  /** Appends the elements of `s`, left to right, that are not already present. */
  function AppendNew<T(==)>(d: seq<T>, s: seq<T>): seq<T>
  {
    if s == [] then d
    else
      var r := AppendNew(d, s[..|s| - 1]);
      if s[|s| - 1] in r then r else r + [s[|s| - 1]]
  }

  /** The elements of `s` in the order of their first occurrence. */
  function Dedup<T(==)>(s: seq<T>): seq<T>
  {
    AppendNew([], s)
  }

  lemma {:induction false} AppendNewConcat<T>(d: seq<T>, a: seq<T>, b: seq<T>)
    ensures AppendNew(d, a + b) == AppendNew(AppendNew(d, a), b)
  {
    if b == [] {
      assert a + b == a;
    } else {
      assert (a + b)[..|a + b| - 1] == a + b[..|b| - 1];
      AppendNewConcat(d, a, b[..|b| - 1]);
    }
  }

  /** `AppendNew` keeps `d` as a prefix, adds exactly the elements of `s`, and adds each once. */
  lemma {:induction false} AppendNewFacts<T>(d: seq<T>, s: seq<T>)
    requires Distinct(d)
    ensures Distinct(AppendNew(d, s))
    ensures |d| <= |AppendNew(d, s)| && AppendNew(d, s)[..|d|] == d
    ensures forall x :: x in AppendNew(d, s) ==> x in d || x in s
    ensures forall x :: x in d || x in s ==> x in AppendNew(d, s)
  {
    if s != [] {
      var s' := s[..|s| - 1];
      AppendNewFacts(d, s');
      assert s == s' + [s[|s| - 1]];
    }
  }

  /**
   * `Dedup(s)` is the first-occurrence order of `s`: it holds every element of
   * `s` and nothing else, each once, and an element stands before another
   * exactly when it is met first: it has occurred before any occurrence of the
   * later one.
   */
  lemma {:induction false} DedupIsFirstOccurrenceOrder<T>(s: seq<T>)
    ensures Distinct(Dedup(s))
    ensures forall x :: x in Dedup(s) ==> x in s
    ensures forall x :: x in s ==> x in Dedup(s)
    ensures forall i, j, q :: 0 <= i < j < |Dedup(s)| && 0 <= q < |s| && s[q] == Dedup(s)[j] ==>
              Dedup(s)[i] in s[..q]
  {
    AppendNewFacts([], s);
    if s != [] {
      var s', x := s[..|s| - 1], s[|s| - 1];
      DedupIsFirstOccurrenceOrder(s');
      AppendNewFacts([], s');
      var d, d' := Dedup(s), Dedup(s');
      assert s == s' + [x];
      forall i, j, q | 0 <= i < j < |d| && 0 <= q < |s| && s[q] == d[j]
        ensures d[i] in s[..q]
      {
        if x in d' {
          assert d == d';
          if q == |s| - 1 {
            // x already occurred earlier in s'; use that occurrence
            assert x in s';
            var q' :| 0 <= q' < |s'| && s'[q'] == x;
            assert s'[q'] == d'[j];
            assert d'[i] in s'[..q'];
            assert s'[..q'] == s[..q'];
            assert s[..q'] <= s[..q];
          } else {
            assert s'[q] == d'[j];
            assert d'[i] in s'[..q];
            assert s[..q] == s'[..q];
          }
        } else {
          assert d == d' + [x];
          if j == |d| - 1 {
            // d[j] == x, whose only occurrence is the last
            assert i < |d'|;
            assert d[i] == d'[i] && d'[i] in d';
            assert d'[i] in s';
            assert x !in s';
            assert q == |s| - 1;
            assert s[..q] == s';
          } else {
            assert d[j] == d'[j] && d[i] == d'[i];
            assert d'[j] != x;
            assert q < |s| - 1;
            assert s'[q] == d'[j];
            assert d'[i] in s'[..q];
            assert s[..q] == s'[..q];
          }
        }
      }
    }
  }
}
