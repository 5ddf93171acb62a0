/**
 * Plain JavaScript objects used as dictionaries whose enumeration order
 * matters. An object is its own properties as (key, value) pairs in
 * creation order, with unique keys. Assigning `o[k] = v` overwrites an
 * existing property in place or appends a new one, and `Object.values` /
 * `Object.entries` enumerate the array-index keys first in ascending
 * numeric order and then the other keys in creation order
 * (OrdinaryOwnPropertyKeys, section 10.1.11.1 of ECMA-262, 2022 edition).
 */
module JsObject {
  import opened Wrappers
  import StableSort
  import Text

  ghost predicate UniqueKeys<K, V>(o: seq<(K, V)>) {
    forall i, j :: 0 <= i < j < |o| ==> o[i].0 != o[j].0
  }

  /** The keys of `o` in creation order. */
  function Keys<K, V>(o: seq<(K, V)>): (ks: seq<K>)
    ensures |ks| == |o|
    ensures forall i :: 0 <= i < |o| ==> ks[i] == o[i].0
  {
    if o == [] then [] else [o[0].0] + Keys(o[1..])
  }

  /** The values of `o` in the order of its pairs. */
  function Values<K, V>(o: seq<(K, V)>): (vs: seq<V>)
    ensures |vs| == |o|
    ensures forall i :: 0 <= i < |o| ==> vs[i] == o[i].1
  {
    if o == [] then [] else [o[0].1] + Values(o[1..])
  }

  /** Taking one element out of a sequence takes it out of its multiset. */
  lemma MultisetRemove<T>(s: seq<T>, j: nat)
    requires j < |s|
    ensures multiset(s) == multiset(s[..j] + s[j + 1..]) + multiset{s[j]}
  {
    assert s == s[..j] + [s[j]] + s[j + 1..];
  }

  /** Taking entry `j` out takes its value out of the values. */
  lemma ValuesRemove<K, V>(o: seq<(K, V)>, j: nat)
    requires j < |o|
    ensures multiset(Values(o)) == multiset(Values(o[..j] + o[j + 1..])) + multiset{o[j].1}
  {
    var vs := Values(o);
    var rest := o[..j] + o[j + 1..];
    var cut := vs[..j] + vs[j + 1..];
    forall i | 0 <= i < |rest|
      ensures Values(rest)[i] == cut[i]
    {
      if i < j {
        assert rest[i] == o[i] && cut[i] == vs[i];
      } else {
        assert rest[i] == o[i + 1] && cut[i] == vs[i + 1];
      }
    }
    assert Values(rest) == cut;
    MultisetRemove(vs, j);
  }

  /** Where the first element of `a` sits in a reordering `b` of it. */
  lemma FindFirst<T>(a: seq<T>, b: seq<T>) returns (j: nat)
    requires multiset(a) == multiset(b) && a != []
    ensures j < |b| && b[j] == a[0]
  {
    assert a[0] in multiset(b);
    j :| 0 <= j < |b| && b[j] == a[0];
  }

  /** Removing the same element from two permutations of each other leaves permutations. */
  lemma RemoveMatching<T>(a: seq<T>, b: seq<T>, j: nat)
    requires multiset(a) == multiset(b)
    requires a != [] && j < |b| && b[j] == a[0]
    ensures multiset(a[1..]) == multiset(b[..j] + b[j + 1..])
  {
    MultisetRemove(b, j);
    MultisetRemove(a, 0);
    assert a[..0] + a[1..] == a[1..];
    AddCancel(multiset(a[1..]), multiset(b[..j] + b[j + 1..]), a[0]);
  }

  lemma AddCancel<T>(p: multiset<T>, q: multiset<T>, x: T)
    requires p + multiset{x} == q + multiset{x}
    ensures p == q
  {
    assert forall y :: p[y] == (p + multiset{x})[y] - multiset{x}[y];
    assert forall y :: q[y] == (q + multiset{x})[y] - multiset{x}[y];
  }

  /** Reordering the entries reorders their values the same way. */
  lemma {:induction false} ValuesPermutation<K, V>(a: seq<(K, V)>, b: seq<(K, V)>)
    requires multiset(a) == multiset(b)
    ensures multiset(Values(a)) == multiset(Values(b))
    decreases |a|
  {
    if a == [] {
      assert |multiset(b)| == 0;
    } else {
      var j := FindFirst(a, b);
      var tail, rest := a[1..], b[..j] + b[j + 1..];
      RemoveMatching(a, b, j);
      ValuesPermutation(tail, rest);
      assert a[..0] + a[1..] == tail;
      ValuesRemove(a, 0);
      ValuesRemove(b, j);
    }
  }

  /** An element at two positions is counted at least twice. */
  lemma DuplicateCount<T>(s: seq<T>, i: nat, j: nat)
    requires i < j < |s| && s[i] == s[j]
    ensures multiset(s)[s[i]] >= 2
  {
    var x := s[i];
    assert s == s[..j] + [x] + s[j + 1..];
    assert s[..j][i] == x;
    assert multiset(s[..j])[x] >= 1;
  }

  /** An element counted at least twice sits at two positions. */
  lemma TwoPositions<T>(s: seq<T>, x: T) returns (p: nat, q: nat)
    requires multiset(s)[x] >= 2
    ensures p < q < |s| && s[p] == x && s[q] == x
  {
    assert x in multiset(s);
    var j :| 0 <= j < |s| && s[j] == x;
    var rest := s[..j] + s[j + 1..];
    MultisetRemove(s, j);
    assert x in multiset(rest);
    var k :| 0 <= k < |rest| && rest[k] == x;
    if k < j {
      assert rest[k] == s[k];
      p, q := k, j;
    } else {
      assert rest[k] == s[k + 1];
      p, q := j, k + 1;
    }
  }

  /** Two pairs of a reordering with the same key would be one pair of `b` counted twice. */
  lemma ReorderedKeysDiffer<K, V>(a: seq<(K, V)>, b: seq<(K, V)>, i: nat, j: nat)
    requires multiset(a) == multiset(b) && UniqueKeys(b)
    requires i < j < |a|
    ensures a[i].0 != a[j].0
  {
    if a[i].0 == a[j].0 {
      assert a[i] in multiset(b) && a[j] in multiset(b);
      var p :| 0 <= p < |b| && b[p] == a[i];
      var q :| 0 <= q < |b| && b[q] == a[j];
      assert a[i] == a[j];
      DuplicateCount(a, i, j);
      var p', q' := TwoPositions(b, a[i]);
      assert false;
    }
  }

  /** Reordering the pairs of an object keeps its keys unique. */
  lemma ReorderKeepsUniqueKeys<K, V>(a: seq<(K, V)>, b: seq<(K, V)>)
    requires multiset(a) == multiset(b) && UniqueKeys(b)
    ensures UniqueKeys(a)
  {
    forall i, j | 0 <= i < j < |a|
      ensures a[i].0 != a[j].0
    {
      ReorderedKeysDiffer(a, b, i, j);
    }
  }

  /** `o[k]`: the value of the first pair with key `k`, if any. */
  function Get<K(==), V>(o: seq<(K, V)>, k: K): (r: Option<V>)
    ensures r.None? <==> k !in Keys(o)
    ensures r.Some? ==> (k, r.value) in o
  {
    if o == [] then None
    else
      assert o == [o[0]] + o[1..];
      assert Keys(o) == [o[0].0] + Keys(o[1..]);
      if o[0].0 == k then Some(o[0].1) else Get(o[1..], k)
  }

  /** With unique keys, `o[k]` is the value paired with `k`. */
  lemma {:induction false} GetUnique<K, V>(o: seq<(K, V)>, i: nat)
    requires UniqueKeys(o) && i < |o|
    ensures Get(o, o[i].0) == Some(o[i].1)
  {
    if i > 0 {
      assert UniqueKeys(o[1..]) by {
        forall a, b | 0 <= a < b < |o[1..]|
          ensures o[1..][a].0 != o[1..][b].0
        {
          assert o[1..][a] == o[a + 1] && o[1..][b] == o[b + 1];
        }
      }
      GetUnique(o[1..], i - 1);
    }
  }

  /** `o[k] = v`: overwrite in place when `k` is present, else append. */
  function Put<K(==), V>(o: seq<(K, V)>, k: K, v: V): (r: seq<(K, V)>)
    ensures k in Keys(o) ==> Keys(r) == Keys(o)
    ensures k !in Keys(o) ==> r == o + [(k, v)]
    ensures forall i :: 0 <= i < |r| ==> r[i] == (k, v) || r[i] in o
  {
    if o == [] then [(k, v)]
    else
      assert Keys(o) == [o[0].0] + Keys(o[1..]);
      if o[0].0 == k then
        assert Keys([(k, v)] + o[1..]) == [k] + Keys(o[1..]);
        [(k, v)] + o[1..]
      else
        var r := [o[0]] + Put(o[1..], k, v);
        assert Keys(r) == [o[0].0] + Keys(Put(o[1..], k, v));
        assert o == [o[0]] + o[1..];
        r
  }

  /** Reading back after `o[k] = v` sees `v` at `k` and nothing else changed. */
  lemma {:induction false} GetAfterPut<K, V>(o: seq<(K, V)>, k: K, v: V, k': K)
    ensures Get(Put(o, k, v), k') == if k' == k then Some(v) else Get(o, k')
  {
    if o != [] && o[0].0 != k {
      GetAfterPut(o[1..], k, v, k');
      var r := Put(o, k, v);
      assert r == [o[0]] + Put(o[1..], k, v);
      assert r[1..] == Put(o[1..], k, v);
    }
  }

  /** `o[k] = v` keeps the keys unique. */
  lemma PutUnique<K, V>(o: seq<(K, V)>, k: K, v: V)
    requires UniqueKeys(o)
    ensures UniqueKeys(Put(o, k, v))
  {
    var r := Put(o, k, v);
    if k in Keys(o) {
      assert forall i :: 0 <= i < |r| ==> r[i].0 == Keys(r)[i];
    } else {
      assert forall i :: 0 <= i < |o| ==> o[i].0 == Keys(o)[i];
    }
  }

  /** The elements of `s` that satisfy `p`, in order. */
  function Filter<T>(s: seq<T>, p: T -> bool): (r: seq<T>)
    ensures |r| <= |s|
    ensures forall i :: 0 <= i < |r| ==> r[i] in s && p(r[i])
    ensures forall i :: 0 <= i < |s| && p(s[i]) ==> s[i] in r
    ensures multiset(r) <= multiset(s)
  {
    if s == [] then []
    else
      assert s == [s[0]] + s[1..];
      (if p(s[0]) then [s[0]] else []) + Filter(s[1..], p)
  }

  /** The elements of `s` that fail `p`, in order. */
  function Reject<T>(s: seq<T>, p: T -> bool): (r: seq<T>)
    ensures forall i :: 0 <= i < |r| ==> r[i] in s && !p(r[i])
  {
    if s == [] then []
    else
      assert s == [s[0]] + s[1..];
      (if p(s[0]) then [] else [s[0]]) + Reject(s[1..], p)
  }

  /** Filter and Reject split `s` in two. */
  lemma {:induction false} FilterSplit<T>(s: seq<T>, p: T -> bool)
    ensures multiset(Filter(s, p)) + multiset(Reject(s, p)) == multiset(s)
  {
    if s != [] {
      assert s == [s[0]] + s[1..];
      FilterSplit(s[1..], p);
    }
  }

  /** Property keys that are array indices: integers 0 .. 2^32 - 2. */
  function IntIndex(k: int): Option<nat> {
    if 0 <= k < 0xFFFF_FFFF then Some(k) else None
  }

  /**
   * String property keys that are array indices: the canonical decimal text
   * (no sign, no leading zero) of an integer 0 .. 2^32 - 2.
   */
  function StringIndex(k: string): (r: Option<nat>)
    ensures r.Some? ==> r.value < 0xFFFF_FFFF && Text.ShowNat(r.value) == k
  {
    if k != [] && Text.AllDigits(k) && (k == "0" || k[0] != '0') && Text.DecimalValue(k) < 0xFFFF_FFFF then
      Text.ShowNatOfCanonical(k);
      Some(Text.DecimalValue(k))
    else None
  }

  /**
   * `Object.entries(o)`: entries whose key is an array index (as `index`
   * reports it), in ascending index order, then all other entries in
   * creation order.
   */
  function OwnEntries<K, V>(o: seq<(K, V)>, index: K -> Option<nat>): (r: seq<(K, V)>)
    ensures |r| == |o|
    ensures multiset(r) == multiset(o)
  {
    var isIndex := (e: (K, V)) => index(e.0).Some?;
    var indices := StableSort.SortDesc(Filter(o, isIndex), (e: (K, V)) => -(index(e.0).GetOr(0) as real));
    var r := indices + Reject(o, isIndex);
    FilterSplit(o, isIndex);
    assert multiset(r) == multiset(indices) + multiset(Reject(o, isIndex));
    assert |multiset(r)| == |multiset(o)|;
    r
  }

  /** Array-index keys come first, in ascending numeric order. */
  lemma OwnEntriesIndexOrder<K, V>(o: seq<(K, V)>, index: K -> Option<nat>)
    ensures var r := OwnEntries(o, index);
      forall i, j :: 0 <= i < j < |r| && index(r[j].0).Some? ==>
        index(r[i].0).Some? && index(r[i].0).value <= index(r[j].0).value
  {
    var r := OwnEntries(o, index);
    var isIndex := (e: (K, V)) => index(e.0).Some?;
    var indexed := Filter(o, isIndex);
    var others := Reject(o, isIndex);
    var byIndex := (e: (K, V)) => -(index(e.0).GetOr(0) as real);
    var sorted := StableSort.SortDesc(indexed, byIndex);
    assert r == sorted + others;
    StableSort.SortDescNonIncreasing(indexed, byIndex);
    forall j | |sorted| <= j < |r|
      ensures index(r[j].0).None?
    {
      assert r[j] == others[j - |sorted|];
    }
    forall i, j | 0 <= i < j < |r| && index(r[j].0).Some?
      ensures index(r[i].0).Some? && index(r[i].0).value <= index(r[j].0).value
    {
      assert r[i] == sorted[i] && r[j] == sorted[j];
      assert sorted[i] in multiset(indexed) && sorted[j] in multiset(indexed);
      assert byIndex(sorted[i]) >= byIndex(sorted[j]);
    }
  }

  /**
   * When every key is an array index, enumeration lists the keys in strictly
   * ascending numeric order, whatever order they were created in.
   */
  lemma OwnEntriesKeysAscending<V>(o: seq<(int, V)>)
    requires UniqueKeys(o) && forall k :: 0 <= k < |o| ==> IntIndex(o[k].0).Some?
    ensures var r := OwnEntries(o, IntIndex);
      forall i, j :: 0 <= i < j < |r| ==> r[i].0 < r[j].0
  {
    var r := OwnEntries(o, IntIndex);
    OwnEntriesIndexOrder(o, IntIndex);
    ReorderKeepsUniqueKeys(r, o);
    IndexOrderAscending(o, r);
  }

  lemma IndexOrderAscending<V>(o: seq<(int, V)>, r: seq<(int, V)>)
    requires multiset(r) == multiset(o) && UniqueKeys(r)
    requires forall k :: 0 <= k < |o| ==> IntIndex(o[k].0).Some?
    requires forall i, j :: 0 <= i < j < |r| && IntIndex(r[j].0).Some? ==>
               IntIndex(r[i].0).Some? && IntIndex(r[i].0).value <= IntIndex(r[j].0).value
    ensures forall i, j :: 0 <= i < j < |r| ==> r[i].0 < r[j].0
  {
    forall i, j | 0 <= i < j < |r|
      ensures r[i].0 < r[j].0
    {
      assert r[j] in multiset(o);
      var k :| 0 <= k < |o| && o[k] == r[j];
      assert IntIndex(r[j].0).Some?;
    }
  }
}
