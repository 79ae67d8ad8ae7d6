/** A stable sort keyed by an integer, the behaviour both sorts of the
    pipeline rely on: `list.sort(key=..., reverse=True)` (a stable sort on
    the negated key) and `sort_values` on one category's events. */
module Sorting {

  /** Keys never decrease from left to right. */
  predicate SortedBy<T>(s: seq<T>, key: T -> int) {
    forall i, j :: 0 <= i < j < |s| ==> key(s[i]) <= key(s[j])
  }

  /** The elements whose key is `k`, in their original order. */
  function KeyFilter<T>(s: seq<T>, key: T -> int, k: int): (r: seq<T>)
    ensures |r| <= |s|
    ensures forall i :: 0 <= i < |r| ==> key(r[i]) == k
  {
    if s == [] then []
    else (if key(s[0]) == k then [s[0]] else []) + KeyFilter(s[1..], key, k)
  }

  /** Inserts `x` after every element whose key is at most `key(x)`, so an
      element inserted later stays behind the earlier ones with the same key. */
  function Insert<T>(s: seq<T>, key: T -> int, x: T): (r: seq<T>)
    ensures |r| == |s| + 1
  {
    if s == [] then [x]
    else if key(s[0]) <= key(x) then [s[0]] + Insert(s[1..], key, x)
    else [x] + s
  }

  /** Stable insertion sort by `key`. */
  function SortBy<T>(s: seq<T>, key: T -> int): (r: seq<T>)
    ensures |r| == |s|
  {
    if s == [] then [] else Insert(SortBy(s[..|s| - 1], key), key, s[|s| - 1])
  }

  lemma {:induction false} KeyFilterAppend<T>(a: seq<T>, b: seq<T>, key: T -> int, k: int)
    ensures KeyFilter(a + b, key, k) == KeyFilter(a, key, k) + KeyFilter(b, key, k)
  {
    if a == [] {
      assert a + b == b;
    } else {
      assert (a + b)[0] == a[0] && (a + b)[1..] == a[1..] + b;
      KeyFilterAppend(a[1..], b, key, k);
      var h := if key(a[0]) == k then [a[0]] else [];
      calc {
        KeyFilter(a + b, key, k);
        h + KeyFilter(a[1..] + b, key, k);
        h + (KeyFilter(a[1..], key, k) + KeyFilter(b, key, k));
        (h + KeyFilter(a[1..], key, k)) + KeyFilter(b, key, k);
      }
    }
  }

  /** Filtering four concatenated parts concatenates their filters. */
  lemma KeyFilterAppend4<T>(a: seq<T>, b: seq<T>, c: seq<T>, d: seq<T>, key: T -> int, k: int)
    ensures KeyFilter(a + b + c + d, key, k)
         == KeyFilter(a, key, k) + KeyFilter(b, key, k) + KeyFilter(c, key, k) + KeyFilter(d, key, k)
  {
    KeyFilterAppend(a + b + c, d, key, k);
    KeyFilterAppend(a + b, c, key, k);
    KeyFilterAppend(a, b, key, k);
  }

  /** No element of a sequence whose keys all exceed `k` has key `k`. */
  lemma {:induction false} KeyFilterAbove<T>(s: seq<T>, key: T -> int, k: int)
    requires forall i :: 0 <= i < |s| ==> key(s[i]) > k
    ensures KeyFilter(s, key, k) == []
  {
    if s != [] {
      KeyFilterAbove(s[1..], key, k);
    }
  }

  lemma {:induction false} InsertPermutation<T>(s: seq<T>, key: T -> int, x: T)
    ensures multiset(Insert(s, key, x)) == multiset(s) + multiset{x}
  {
    if s != [] && key(s[0]) <= key(x) {
      InsertPermutation(s[1..], key, x);
      assert s == [s[0]] + s[1..];
    }
  }

  lemma {:induction false} InsertSorted<T>(s: seq<T>, key: T -> int, x: T)
    requires SortedBy(s, key)
    ensures SortedBy(Insert(s, key, x), key)
  {
    var r := Insert(s, key, x);
    if s != [] && key(s[0]) <= key(x) {
      var t := Insert(s[1..], key, x);
      InsertSorted(s[1..], key, x);
      InsertPermutation(s[1..], key, x);
      assert r == [s[0]] + t;
      forall j | 0 < j < |r| ensures key(r[0]) <= key(r[j]) {
        assert r[j] == t[j - 1];
        assert r[j] in multiset(s[1..]) + multiset{x};
      }
    }
  }

  lemma KeyFilterCons<T>(x: T, s: seq<T>, key: T -> int, k: int)
    ensures KeyFilter([x] + s, key, k) == (if key(x) == k then [x] else []) + KeyFilter(s, key, k)
  {
    assert ([x] + s)[0] == x && ([x] + s)[1..] == s;
  }

  lemma ConsKeyFilter<T>(h: T, s: seq<T>, r: seq<T>, key: T -> int, k: int, extra: seq<T>)
    requires KeyFilter(s, key, k) == KeyFilter(r, key, k) + extra
    ensures KeyFilter([h] + s, key, k) == KeyFilter([h] + r, key, k) + extra
  {
    KeyFilterCons(h, s, key, k);
    KeyFilterCons(h, r, key, k);
  }

  lemma {:induction false} InsertKeyFilter<T>(s: seq<T>, key: T -> int, x: T, k: int)
    requires SortedBy(s, key)
    ensures KeyFilter(Insert(s, key, x), key, k)
         == KeyFilter(s, key, k) + (if key(x) == k then [x] else [])
  {
    if s == [] {
      KeyFilterCons(x, [], key, k);
      assert [x] + [] == [x];
    } else if key(s[0]) <= key(x) {
      var rest := s[1..];
      SortedTail(s, key);
      InsertKeyFilter(rest, key, x, k);
      assert Insert(s, key, x) == [s[0]] + Insert(rest, key, x);
      assert s == [s[0]] + rest;
      ConsKeyFilter(s[0], Insert(rest, key, x), rest, key, k, if key(x) == k then [x] else []);
    } else {
      KeyFilterCons(x, s, key, k);
      if key(x) == k {
        KeyFilterAbove(s, key, k);
      }
    }
  }


  /** The result of `SortBy` is ordered by key. */
  lemma {:induction false} SortBySorted<T>(s: seq<T>, key: T -> int)
    ensures SortedBy(SortBy(s, key), key)
  {
    if s != [] {
      SortBySorted(s[..|s| - 1], key);
      InsertSorted(SortBy(s[..|s| - 1], key), key, s[|s| - 1]);
    }
  }

  /** `SortBy` neither loses nor duplicates an element. */
  lemma {:induction false} SortByPermutation<T>(s: seq<T>, key: T -> int)
    ensures multiset(SortBy(s, key)) == multiset(s)
  {
    if s != [] {
      var p := s[..|s| - 1];
      SortByPermutation(p, key);
      InsertPermutation(SortBy(p, key), key, s[|s| - 1]);
      assert s == p + [s[|s| - 1]];
    }
  }

  /** Stability: the elements sharing one key keep their original order. */
  lemma {:induction false} SortByStable<T>(s: seq<T>, key: T -> int, k: int)
    ensures KeyFilter(SortBy(s, key), key, k) == KeyFilter(s, key, k)
  {
    if s != [] {
      var p := s[..|s| - 1];
      SortByStable(p, key, k);
      SortBySorted(p, key);
      InsertKeyFilter(SortBy(p, key), key, s[|s| - 1], k);
      assert s == p + [s[|s| - 1]];
      KeyFilterAppend(p, [s[|s| - 1]], key, k);
    }
  }

  /** No two positions carry the same key. */
  predicate DistinctKeys<T>(s: seq<T>, key: T -> int) {
    forall i, j :: 0 <= i < j < |s| ==> key(s[i]) != key(s[j])
  }

  /** Two positions of a sequence hold elements with the same key exactly
      when the key filter for that key has at least two elements. */
  lemma {:induction false} DistinctKeysByFilter<T>(s: seq<T>, key: T -> int)
    ensures DistinctKeys(s, key) <==> forall k :: |KeyFilter(s, key, k)| <= 1
  {
    if s != [] {
      DistinctKeysByFilter(s[1..], key);
      if DistinctKeys(s, key) {
        assert DistinctKeys(s[1..], key) by {
          forall i, j | 0 <= i < j < |s[1..]| ensures key(s[1..][i]) != key(s[1..][j]) {
            assert s[1..][i] == s[i + 1] && s[1..][j] == s[j + 1];
          }
        }
        forall k ensures |KeyFilter(s, key, k)| <= 1 {
          assert KeyFilter(s, key, k) == (if key(s[0]) == k then [s[0]] else []) + KeyFilter(s[1..], key, k);
          assert |KeyFilter(s[1..], key, k)| <= 1;
          if key(s[0]) == k {
            forall i | 0 <= i < |s[1..]| ensures key(s[1..][i]) != k {
              assert s[1..][i] == s[i + 1];
            }
            KeyFilterAbsent(s[1..], key, k);
          }
        }
      } else {
        var i, j :| 0 <= i < j < |s| && key(s[i]) == key(s[j]);
        var k := key(s[i]);
        if i == 0 {
          KeyFilterPresent(s[1..], key, k, j - 1);
          assert |KeyFilter(s, key, k)| >= 2;
        } else {
          assert !DistinctKeys(s[1..], key) by {
            assert key(s[1..][i - 1]) == key(s[1..][j - 1]);
          }
          var k' :| |KeyFilter(s[1..], key, k')| > 1;
          assert |KeyFilter(s, key, k')| > 1;
        }
      }
    }
  }

  lemma {:induction false} KeyFilterAbsent<T>(s: seq<T>, key: T -> int, k: int)
    requires forall i :: 0 <= i < |s| ==> key(s[i]) != k
    ensures KeyFilter(s, key, k) == []
  {
    if s != [] {
      KeyFilterAbsent(s[1..], key, k);
    }
  }

  lemma {:induction false} KeyFilterPresent<T>(s: seq<T>, key: T -> int, k: int, i: nat)
    requires i < |s| && key(s[i]) == k
    ensures |KeyFilter(s, key, k)| >= 1
  {
    if i > 0 {
      KeyFilterPresent(s[1..], key, k, i - 1);
    }
  }

  /** Stable sorting keeps keys distinct, and a sorted sequence with distinct
      keys is strictly increasing. */
  lemma SortByDistinct<T>(s: seq<T>, key: T -> int)
    requires DistinctKeys(s, key)
    ensures DistinctKeys(SortBy(s, key), key)
    ensures forall i, j :: 0 <= i < j < |s| ==> key(SortBy(s, key)[i]) < key(SortBy(s, key)[j])
  {
    var r := SortBy(s, key);
    DistinctKeysByFilter(s, key);
    forall k ensures |KeyFilter(r, key, k)| <= 1 {
      SortByStable(s, key, k);
    }
    DistinctKeysByFilter(r, key);
    SortBySorted(s, key);
  }

  lemma {:induction false} KeyFilterMember<T>(s: seq<T>, key: T -> int, k: int, x: T)
    requires x in KeyFilter(s, key, k)
    ensures x in s
  {
    if s != [] && x != s[0] {
      KeyFilterMember(s[1..], key, k, x);
    }
  }

  /** Filtering by one key keeps a sequence ordered by another key. */
  lemma {:induction false} KeyFilterKeepsSorted<T>(s: seq<T>, key: T -> int, k: int, other: T -> int)
    requires SortedBy(s, other)
    ensures SortedBy(KeyFilter(s, key, k), other)
  {
    if s != [] {
      assert SortedBy(s[1..], other) by {
        forall i, j | 0 <= i < j < |s[1..]| ensures other(s[1..][i]) <= other(s[1..][j]) {
          assert s[1..][i] == s[i + 1] && s[1..][j] == s[j + 1];
        }
      }
      KeyFilterKeepsSorted(s[1..], key, k, other);
      var tail := KeyFilter(s[1..], key, k);
      forall x | x in tail ensures other(s[0]) <= other(x) {
        KeyFilterMember(s[1..], key, k, x);
      }
      var h := if key(s[0]) == k then [s[0]] else [];
      assert KeyFilter(s, key, k) == h + tail;
    }
  }

  /** After a stable sort, the elements sharing one key are still in any
      order the input kept. */
  lemma SortByKeepsOrderWithinKey<T>(s: seq<T>, key: T -> int, k: int, other: T -> int)
    requires SortedBy(s, other)
    ensures SortedBy(KeyFilter(SortBy(s, key), key, k), other)
  {
    SortByStable(s, key, k);
    KeyFilterKeepsSorted(s, key, k, other);
  }

  /** Two sorted sequences whose keys meet in order concatenate to a sorted one. */
  lemma SortedConcat<T>(a: seq<T>, b: seq<T>, key: T -> int)
    requires SortedBy(a, key) && SortedBy(b, key)
    requires forall i, j :: 0 <= i < |a| && 0 <= j < |b| ==> key(a[i]) <= key(b[j])
    ensures SortedBy(a + b, key)
  {
  }

  /** How often an element occurs in a key filter. */
  lemma {:induction false} KeyFilterCount<T>(s: seq<T>, key: T -> int, k: int, x: T)
    ensures multiset(KeyFilter(s, key, k))[x] == if key(x) == k then multiset(s)[x] else 0
  {
    if s != [] {
      KeyFilterCount(s[1..], key, k, x);
      assert s == [s[0]] + s[1..];
      var h := if key(s[0]) == k then [s[0]] else [];
      assert KeyFilter(s, key, k) == h + KeyFilter(s[1..], key, k);
    }
  }

  /** Permuting a sequence permutes each of its key filters. */
  lemma KeyFilterPermutation<T>(s: seq<T>, r: seq<T>, key: T -> int, k: int)
    requires multiset(s) == multiset(r)
    ensures multiset(KeyFilter(s, key, k)) == multiset(KeyFilter(r, key, k))
  {
    var a, b := multiset(KeyFilter(s, key, k)), multiset(KeyFilter(r, key, k));
    forall x ensures a[x] == b[x] {
      KeyFilterCount(s, key, k, x);
      KeyFilterCount(r, key, k, x);
    }
    MultisetExtensionality(a, b);
  }

  lemma MultisetExtensionality<T>(a: multiset<T>, b: multiset<T>)
    requires forall x :: a[x] == b[x]
    ensures a == b
  {
  }

  /** Distinct keys survive any permutation. */
  lemma DistinctKeysPermutation<T>(s: seq<T>, r: seq<T>, key: T -> int)
    requires multiset(s) == multiset(r)
    requires DistinctKeys(s, key)
    ensures DistinctKeys(r, key)
  {
    DistinctKeysByFilter(s, key);
    forall k ensures |KeyFilter(r, key, k)| <= 1 {
      KeyFilterPermutation(s, r, key, k);
      assert |multiset(KeyFilter(r, key, k))| == |multiset(KeyFilter(s, key, k))|;
    }
    DistinctKeysByFilter(r, key);
  }

  lemma SortedTail<T>(s: seq<T>, key: T -> int)
    requires s != [] && SortedBy(s, key)
    ensures SortedBy(s[1..], key)
  {
    forall i, j | 0 <= i < j < |s[1..]| ensures key(s[1..][i]) <= key(s[1..][j]) {
      assert s[1..][i] == s[i + 1] && s[1..][j] == s[j + 1];
    }
  }

  lemma DistinctTail<T>(s: seq<T>, key: T -> int)
    requires s != [] && DistinctKeys(s, key)
    ensures DistinctKeys(s[1..], key)
  {
    forall i, j | 0 <= i < j < |s[1..]| ensures key(s[1..][i]) != key(s[1..][j]) {
      assert s[1..][i] == s[i + 1] && s[1..][j] == s[j + 1];
    }
  }

  /** Two sorted permutations of each other with distinct keys start alike,
      and what follows is again a permutation. */
  lemma SortedHeads<T>(s: seq<T>, r: seq<T>, key: T -> int)
    requires s != [] && multiset(s) == multiset(r)
    requires SortedBy(s, key) && SortedBy(r, key) && DistinctKeys(r, key)
    ensures r != [] && r[0] == s[0] && multiset(s[1..]) == multiset(r[1..])
  {
    assert s[0] in multiset(r);
    assert r != [];
    assert r[0] in multiset(s);
    var p :| 0 <= p < |r| && r[p] == s[0];
    var q :| 0 <= q < |s| && s[q] == r[0];
    assert key(r[0]) <= key(r[p]) && key(s[0]) <= key(s[q]);
    assert p == 0;
    assert s == [s[0]] + s[1..] && r == [r[0]] + r[1..];
    assert multiset(s[1..]) == multiset(s) - multiset{s[0]};
    assert multiset(r[1..]) == multiset(r) - multiset{r[0]};
  }

  /** With distinct keys there is only one sorted arrangement, so any sort,
      stable or not, produces it. */
  lemma {:induction false} SortedPermutationUnique<T>(s: seq<T>, r: seq<T>, key: T -> int)
    requires multiset(s) == multiset(r)
    requires SortedBy(s, key) && SortedBy(r, key) && DistinctKeys(s, key)
    ensures s == r
  {
    DistinctKeysPermutation(s, r, key);
    if s == [] {
      assert |multiset(r)| == 0;
    } else {
      SortedHeads(s, r, key);
      SortedTail(s, key);
      SortedTail(r, key);
      DistinctTail(s, key);
      SortedPermutationUnique(s[1..], r[1..], key);
      assert s == [s[0]] + s[1..] && r == [r[0]] + r[1..];
    }
  }

  /** Sorting a permutation of a sequence that is already sorted with
      distinct keys gives back that sequence. */
  lemma SortByRestores<T>(s: seq<T>, r: seq<T>, key: T -> int)
    requires multiset(s) == multiset(r)
    requires SortedBy(s, key) && DistinctKeys(s, key)
    ensures SortBy(r, key) == s
  {
    SortByPermutation(r, key);
    SortBySorted(r, key);
    SortedPermutationUnique(s, SortBy(r, key), key);
  }
}
