/**
 * A stable sort that orders a sequence by a real-valued key, largest first.
 *
 * Array.prototype.sort is stable (ECMA-262, section 23.1.3.30 of the 2022
 * edition), and with a comparator of the form `(a, b) => key(b) - key(a)`
 * the result is fully determined: it is the one ordering that is
 * non-increasing in the key and keeps every group of equal keys in input
 * order. SortDesc computes that ordering by insertion, and
 * StableSortIsUnique shows that nothing else has both properties.
 */
module StableSort {

  /** `s` is ordered from the largest key to the smallest. */
  ghost predicate NonIncreasing<T>(s: seq<T>, key: T -> real) {
    forall i, j :: 0 <= i < j < |s| ==> key(s[i]) >= key(s[j])
  }

  /** The elements of `s` whose key is `c`, in their order in `s`. */
  function WithKey<T>(s: seq<T>, key: T -> real, c: real): seq<T> {
    if s == [] then []
    else (if key(s[0]) == c then [s[0]] else []) + WithKey(s[1..], key, c)
  }

  /** `r` keeps every group of equal keys of `s` in the order it had in `s`. */
  ghost predicate StableWrt<T>(r: seq<T>, s: seq<T>, key: T -> real) {
    forall c :: WithKey(r, key, c) == WithKey(s, key, c)
  }

  /** Places `x` in front of the first element whose key does not exceed x's. */
  function Insert<T>(x: T, s: seq<T>, key: T -> real): (r: seq<T>)
    ensures |r| == |s| + 1
    ensures multiset(r) == multiset(s) + multiset{x}
  {
    if s == [] || key(s[0]) <= key(x) then [x] + s
    else
      assert s == [s[0]] + s[1..];
      [s[0]] + Insert(x, s[1..], key)
  }

  /** Insertion sort: the stable ordering of `s` by descending key. */
  function SortDesc<T>(s: seq<T>, key: T -> real): (r: seq<T>)
    ensures |r| == |s|
    ensures multiset(r) == multiset(s)
  {
    if s == [] then []
    else
      assert s == [s[0]] + s[1..];
      Insert(s[0], SortDesc(s[1..], key), key)
  }

  lemma {:induction false} WithKeyConcat<T>(a: seq<T>, b: seq<T>, key: T -> real, c: real)
    ensures WithKey(a + b, key, c) == WithKey(a, key, c) + WithKey(b, key, c)
  {
    if a == [] {
      assert a + b == b;
    } else {
      var h := if key(a[0]) == c then [a[0]] else [];
      assert (a + b)[0] == a[0];
      assert (a + b)[1..] == a[1..] + b;
      WithKeyConcat(a[1..], b, key, c);
      calc {
        WithKey(a + b, key, c);
        h + WithKey(a[1..] + b, key, c);
        h + (WithKey(a[1..], key, c) + WithKey(b, key, c));
        (h + WithKey(a[1..], key, c)) + WithKey(b, key, c);
        WithKey(a, key, c) + WithKey(b, key, c);
      }
    }
  }

  lemma {:induction false} WithKeyMembers<T>(s: seq<T>, key: T -> real, c: real)
    ensures forall y :: y in WithKey(s, key, c) ==> y in s && key(y) == c
  {
    if s != [] {
      WithKeyMembers(s[1..], key, c);
    }
  }

  lemma {:induction false} InsertNonIncreasing<T>(x: T, s: seq<T>, key: T -> real)
    requires NonIncreasing(s, key)
    ensures NonIncreasing(Insert(x, s, key), key)
  {
    if s == [] || key(s[0]) <= key(x) {
      var r := [x] + s;
      forall i, j | 0 <= i < j < |r|
        ensures key(r[i]) >= key(r[j])
      {
        if i > 0 {
          assert r[i] == s[i - 1] && r[j] == s[j - 1];
        } else {
          assert r[j] == s[j - 1];
          assert key(s[0]) >= key(s[j - 1]);
        }
      }
    } else {
      var tail := Insert(x, s[1..], key);
      assert NonIncreasing(s[1..], key) by {
        forall i, j | 0 <= i < j < |s[1..]|
          ensures key(s[1..][i]) >= key(s[1..][j])
        {
          assert s[1..][i] == s[i + 1] && s[1..][j] == s[j + 1];
        }
      }
      InsertNonIncreasing(x, s[1..], key);
      var r := [s[0]] + tail;
      forall i, j | 0 <= i < j < |r|
        ensures key(r[i]) >= key(r[j])
      {
        if i > 0 {
          assert r[i] == tail[i - 1] && r[j] == tail[j - 1];
        } else {
          var y := tail[j - 1];
          assert y in multiset(tail);
          assert y == x || y in multiset(s[1..]);
          if y != x {
            assert y in s[1..];
            var k :| 0 <= k < |s[1..]| && s[1..][k] == y;
            assert s[k + 1] == y;
          }
        }
      }
    }
  }

  lemma {:induction false} InsertStable<T>(x: T, s: seq<T>, key: T -> real, c: real)
    ensures WithKey(Insert(x, s, key), key, c) == WithKey([x] + s, key, c)
  {
    if s == [] || key(s[0]) <= key(x) {
    } else {
      assert ([x] + s)[1..] == s;
      assert s == [s[0]] + s[1..];
      var tail := Insert(x, s[1..], key);
      assert ([s[0]] + tail)[1..] == tail;
      InsertStable(x, s[1..], key, c);
      assert ([x] + s[1..])[1..] == s[1..];
      WithKeyConcat([s[0]], s[1..], key, c);
    }
  }

  /** The insertion sort is ordered by descending key. */
  lemma {:induction false} SortDescNonIncreasing<T>(s: seq<T>, key: T -> real)
    ensures NonIncreasing(SortDesc(s, key), key)
  {
    if s != [] {
      SortDescNonIncreasing(s[1..], key);
      InsertNonIncreasing(s[0], SortDesc(s[1..], key), key);
    }
  }

  /** The insertion sort keeps each group of equal keys in input order. */
  lemma {:induction false} SortDescStable<T>(s: seq<T>, key: T -> real)
    ensures StableWrt(SortDesc(s, key), s, key)
  {
    if s != [] {
      SortDescStable(s[1..], key);
      forall c
        ensures WithKey(SortDesc(s, key), key, c) == WithKey(s, key, c)
      {
        var tail := SortDesc(s[1..], key);
        InsertStable(s[0], tail, key, c);
        assert ([s[0]] + tail)[1..] == tail;
        assert WithKey(tail, key, c) == WithKey(s[1..], key, c);
      }
    }
  }

  lemma FirstGroupNonEmpty<T>(s: seq<T>, key: T -> real)
    ensures s != [] ==> WithKey(s, key, key(s[0])) != []
  {
  }

  /**
   * Uniqueness: two orderings that are both non-increasing and agree on
   * every group of equal keys are the same sequence.
   */
  lemma {:induction false} OrderingsAgree<T>(a: seq<T>, b: seq<T>, key: T -> real)
    requires NonIncreasing(a, key) && NonIncreasing(b, key)
    requires StableWrt(a, b, key)
    ensures a == b
  {
    if a == [] || b == [] {
      FirstGroupNonEmpty(a, key);
      FirstGroupNonEmpty(b, key);
    } else {
      HeadsAgree(a, b, key);
      TailNonIncreasing(a, key);
      TailNonIncreasing(b, key);
      TailsStable(a, b, key);
      OrderingsAgree(a[1..], b[1..], key);
      assert a == [a[0]] + a[1..] && b == [b[0]] + b[1..];
    }
  }

  /** Two stable largest-first orderings of the same elements start alike. */
  lemma HeadsAgree<T>(a: seq<T>, b: seq<T>, key: T -> real)
    requires a != [] && b != []
    requires NonIncreasing(a, key) && NonIncreasing(b, key)
    requires StableWrt(a, b, key)
    ensures a[0] == b[0]
  {
    var ka, kb := key(a[0]), key(b[0]);
    WithKeyMembers(b, key, ka);
    WithKeyMembers(a, key, kb);
    assert WithKey(a, key, ka)[0] == a[0];
    assert a[0] in WithKey(b, key, ka);
    var i :| 0 <= i < |b| && b[i] == a[0];
    assert WithKey(b, key, kb)[0] == b[0];
    assert b[0] in WithKey(a, key, kb);
    var j :| 0 <= j < |a| && a[j] == b[0];
    assert kb >= ka && ka >= kb;
  }

  lemma TailNonIncreasing<T>(s: seq<T>, key: T -> real)
    requires s != [] && NonIncreasing(s, key)
    ensures NonIncreasing(s[1..], key)
  {
    forall i, j | 0 <= i < j < |s[1..]|
      ensures key(s[1..][i]) >= key(s[1..][j])
    {
      assert s[1..][i] == s[i + 1] && s[1..][j] == s[j + 1];
    }
  }

  /** Dropping a common first element keeps the groups of equal keys in step. */
  lemma TailsStable<T>(a: seq<T>, b: seq<T>, key: T -> real)
    requires a != [] && b != [] && a[0] == b[0]
    requires StableWrt(a, b, key)
    ensures StableWrt(a[1..], b[1..], key)
  {
    forall c
      ensures WithKey(a[1..], key, c) == WithKey(b[1..], key, c)
    {
      assert WithKey(a, key, c) == WithKey(b, key, c);
      var h := if key(a[0]) == c then [a[0]] else [];
      assert WithKey(a, key, c) == h + WithKey(a[1..], key, c);
      assert WithKey(b, key, c) == h + WithKey(b[1..], key, c);
      assert WithKey(a[1..], key, c) == (h + WithKey(a[1..], key, c))[|h|..];
      assert WithKey(b[1..], key, c) == (h + WithKey(b[1..], key, c))[|h|..];
    }
  }

  /**
   * Any ordering of `s` that is non-increasing and stable is the insertion
   * sort of `s`; so SortDesc is what every stable sort with this comparator
   * returns.
   */
  lemma StableSortIsUnique<T>(s: seq<T>, r: seq<T>, key: T -> real)
    requires NonIncreasing(r, key)
    requires StableWrt(r, s, key)
    ensures r == SortDesc(s, key)
  {
    SortDescNonIncreasing(s, key);
    SortDescStable(s, key);
    OrderingsAgree(r, SortDesc(s, key), key);
  }

  /** A prefix of a largest-first list is largest-first and part of the list. */
  lemma PrefixOfSorted<T>(sorted: seq<T>, key: T -> real, n: nat)
    requires n <= |sorted| && NonIncreasing(sorted, key)
    ensures NonIncreasing(sorted[..n], key)
    ensures multiset(sorted[..n]) <= multiset(sorted)
  {
    var top := sorted[..n];
    forall i, j | 0 <= i < j < n
      ensures key(top[i]) >= key(top[j])
    {
      assert top[i] == sorted[i] && top[j] == sorted[j];
    }
    assert sorted == top + sorted[n..];
  }

  /**
   * Cutting a largest-first list after `n` elements keeps every element
   * whose key is strictly above that of the last one kept.
   */
  lemma CutKeepsBest<T>(sorted: seq<T>, key: T -> real, n: nat, x: T)
    requires NonIncreasing(sorted, key)
    requires 0 < n <= |sorted| && x in sorted
    requires n == |sorted| || key(x) > key(sorted[n - 1])
    ensures x in sorted[..n]
  {
    var p :| 0 <= p < |sorted| && sorted[p] == x;
    if p >= n {
      assert false;
    }
    assert sorted[..n][p] == x;
  }

  /** `s` is strictly increasing in `rank`. */
  ghost predicate Ascending<T>(s: seq<T>, rank: T -> int) {
    forall i, j :: 0 <= i < j < |s| ==> rank(s[i]) < rank(s[j])
  }

  /** Where element `i` of `s` sits inside the group of its key. */
  lemma {:induction false} WithKeyPosition<T>(s: seq<T>, key: T -> real, i: nat) returns (p: nat)
    requires i < |s|
    ensures var g := WithKey(s, key, key(s[i]));
      p < |g| && g[p] == s[i]
    decreases |s|
  {
    var c := key(s[i]);
    var h := if key(s[0]) == c then [s[0]] else [];
    assert WithKey(s, key, c) == h + WithKey(s[1..], key, c);
    if i == 0 {
      p := 0;
    } else {
      assert s[1..][i - 1] == s[i];
      var p' := WithKeyPosition(s[1..], key, i - 1);
      p := |h| + p';
    }
  }

  /** Two elements with the same key keep their relative order inside its group. */
  lemma {:induction false} WithKeyPositions<T>(s: seq<T>, key: T -> real, i: nat, j: nat) returns (p: nat, q: nat)
    requires i < j < |s| && key(s[i]) == key(s[j])
    ensures var g := WithKey(s, key, key(s[i]));
      p < q < |g| && g[p] == s[i] && g[q] == s[j]
    decreases |s|
  {
    var c := key(s[i]);
    var h := if key(s[0]) == c then [s[0]] else [];
    assert WithKey(s, key, c) == h + WithKey(s[1..], key, c);
    assert s[1..][j - 1] == s[j];
    if i == 0 {
      var q' := WithKeyPosition(s[1..], key, j - 1);
      p, q := 0, 1 + q';
    } else {
      assert s[1..][i - 1] == s[i];
      var p', q' := WithKeyPositions(s[1..], key, i - 1, j - 1);
      p, q := |h| + p', |h| + q';
    }
  }

  /** The group of one key of a sequence increasing in `rank` is increasing in `rank`. */
  lemma {:induction false} WithKeyAscending<T>(s: seq<T>, key: T -> real, c: real, rank: T -> int)
    requires Ascending(s, rank)
    ensures Ascending(WithKey(s, key, c), rank)
    decreases |s|
  {
    if s != [] {
      var rest := s[1..];
      var tail := WithKey(rest, key, c);
      assert Ascending(rest, rank) by {
        forall i, j | 0 <= i < j < |rest|
          ensures rank(rest[i]) < rank(rest[j])
        {
          assert rest[i] == s[i + 1] && rest[j] == s[j + 1];
        }
      }
      WithKeyAscending(rest, key, c, rank);
      if key(s[0]) == c {
        var g := [s[0]] + tail;
        assert WithKey(s, key, c) == g;
        WithKeyMembers(rest, key, c);
        forall i, j | 0 <= i < j < |g|
          ensures rank(g[i]) < rank(g[j])
        {
          assert g[j] == tail[j - 1];
          if i == 0 {
            assert tail[j - 1] in rest;
            var k :| 0 <= k < |rest| && rest[k] == g[j];
            assert s[k + 1] == g[j];
          } else {
            assert g[i] == tail[i - 1];
          }
        }
      } else {
        assert WithKey(s, key, c) == tail;
      }
    }
  }

  /**
   * A stable largest-first ordering of a sequence increasing in `rank`
   * lists elements with equal keys in increasing `rank`.
   */
  lemma TiesAscending<T>(sorted: seq<T>, s: seq<T>, key: T -> real, rank: T -> int, i: nat, j: nat)
    requires StableWrt(sorted, s, key) && Ascending(s, rank)
    requires i < j < |sorted| && key(sorted[i]) == key(sorted[j])
    ensures rank(sorted[i]) < rank(sorted[j])
  {
    var c := key(sorted[i]);
    var p, q := WithKeyPositions(sorted, key, i, j);
    assert WithKey(sorted, key, c) == WithKey(s, key, c);
    WithKeyAscending(s, key, c, rank);
  }
}
