/** Ranking a URI-count map: `filterSort` (count bounds) and `rankByCount`
    (threshold only). Go ranges over the map in an unspecified order and
    sorts with the unstable `sort.Slice`, so both are methods whose contract
    fixes the output only up to the order of equal counts. */
module Ranking {
  import opened Seqs
  import opened GoLib

  datatype KVPair = KVPair(key: Bytes, value: int)

  /** The entry test of filterSort: kept unless `v < min`, or `max > 0` and `v > max`. */
  predicate InBounds(v: int, min: int, max: int) {
    !(v < min || (max > 0 && v > max))
  }

  /** The entry test of rankByCount: kept unless `v < threshold`. */
  predicate AtLeast(v: int, threshold: int) {
    !(v < threshold)
  }

  /** Non-increasing by value. */
  ghost predicate SortedByValue(s: seq<KVPair>) {
    forall i, j :: 0 <= i < j < |s| ==> s[i].value >= s[j].value
  }

  ghost predicate DistinctKeys(s: seq<KVPair>) {
    forall i, j :: 0 <= i < j < |s| ==> s[i].key != s[j].key
  }

  /** `p` is an entry of `m` that passes `keep`. */
  ghost predicate Selected(m: map<Bytes, int>, keep: int -> bool, p: KVPair) {
    p.key in m && p.value == m[p.key] && keep(p.value)
  }

  /* ---------------------------------------------------------------------
     Collecting the entries
     --------------------------------------------------------------------- */

  /** The `for k, v := range countMap` loop shared by both rankers: append
      every entry that passes `keep`, visiting keys in any order. */
  method SelectPairs(countMap: map<Bytes, int>, keep: int -> bool) returns (pairs: seq<KVPair>)
    ensures forall p :: p in pairs <==> Selected(countMap, keep, p)
    ensures DistinctKeys(pairs)
    ensures |pairs| <= |countMap|
  {
    pairs := [];
    var todo := countMap.Keys;
    while todo != {}
      invariant todo <= countMap.Keys
      invariant forall p :: p in pairs <==> p.key !in todo && Selected(countMap, keep, p)
      invariant DistinctKeys(pairs)
      invariant |pairs| + |todo| <= |countMap|
      decreases todo
    {
      var k :| k in todo;
      var v := countMap[k];
      if keep(v) {
        pairs := pairs + [KVPair(k, v)];
      }
      todo := todo - {k};
    }
  }

  /* ---------------------------------------------------------------------
     Sorting the pairs by descending Value (sort.Slice)
     --------------------------------------------------------------------- */

  lemma PrependSorted(x: KVPair, t: seq<KVPair>)
    requires SortedByValue(t)
    requires forall y :: y in t ==> y.value <= x.value
    ensures SortedByValue([x] + t)
  {
    var r := [x] + t;
    forall i, j | 0 <= i < j < |r|
      ensures r[i].value >= r[j].value
    {
      assert r[j] == t[j - 1];
      if i > 0 {
        assert r[i] == t[i - 1];
      }
    }
  }

  /** Every element of a sorted sequence is at most its first. */
  lemma SortedHeadBound(s: seq<KVPair>)
    requires SortedByValue(s) && s != []
    ensures forall y :: y in s[1..] ==> y.value <= s[0].value
  {
    forall y | y in s[1..]
      ensures y.value <= s[0].value
    {
      var k :| 0 <= k < |s[1..]| && s[1..][k] == y;
      assert s[k + 1] == y;
    }
  }

  /** A sequence holding the elements of `s` and one `p` holds nothing else. */
  lemma AddedMembers(r: seq<KVPair>, s: seq<KVPair>, p: KVPair)
    requires multiset(r) == multiset(s) + multiset{p}
    ensures forall y :: y in r ==> y == p || y in s
  {
    forall y | y in r
      ensures y == p || y in s
    {
      assert y in multiset(r);
    }
  }

  /** Keeping the first of a sorted sequence in front of `p` inserted into
      the rest keeps the order and adds exactly `p`. */
  lemma InsertStep(p: KVPair, s: seq<KVPair>, tail: seq<KVPair>)
    requires SortedByValue(s) && s != [] && p.value < s[0].value
    requires SortedByValue(tail) && multiset(tail) == multiset(s[1..]) + multiset{p}
    ensures SortedByValue([s[0]] + tail)
    ensures multiset([s[0]] + tail) == multiset(s) + multiset{p}
  {
    assert s == [s[0]] + s[1..];
    SortedHeadBound(s);
    AddedMembers(tail, s[1..], p);
    PrependSorted(s[0], tail);
    assert multiset([s[0]] + tail) == multiset{s[0]} + multiset(tail);
  }

  /** Insert `p` into a sorted sequence, before the first smaller value. */
  function Insert(p: KVPair, s: seq<KVPair>): (r: seq<KVPair>)
    requires SortedByValue(s)
    ensures SortedByValue(r)
    ensures multiset(r) == multiset(s) + multiset{p}
  {
    if s == [] || p.value >= s[0].value then
      PrependSorted(p, s);
      [p] + s
    else
      var tail := Insert(p, s[1..]);
      InsertStep(p, s, tail);
      [s[0]] + tail
  }

  /** Sort by non-increasing value. The order of equal values is this
      model's choice; the contract leaves it open. */
  function SortByValue(s: seq<KVPair>): (r: seq<KVPair>)
    ensures SortedByValue(r)
    ensures multiset(r) == multiset(s)
  {
    if s == [] then []
    else
      assert s == [s[0]] + s[1..];
      Insert(s[0], SortByValue(s[1..]))
  }

  /* ---------------------------------------------------------------------
     The two rankers
     --------------------------------------------------------------------- */

  /** filterSort: the entries with `min <= v` and (`max <= 0` or `v <= max`),
      each once, by non-increasing count. */
  method FilterSort(countMap: map<Bytes, int>, min: int, max: int) returns (pairs: seq<KVPair>)
    ensures forall p :: p in pairs <==>
              p.key in countMap && p.value == countMap[p.key]
              && min <= p.value && (max <= 0 || p.value <= max)
    ensures DistinctKeys(pairs)
    ensures SortedByValue(pairs)
    ensures |pairs| <= |countMap|
  {
    var selected := SelectPairs(countMap, v => InBounds(v, min, max));
    pairs := SortByValue(selected);
    assert forall p :: p in pairs <==> p in multiset(pairs);
    assert forall p :: p in selected <==> p in multiset(selected);
    PermutationKeepsDistinctKeys(selected, pairs);
  }

  /** rankByCount: the entries with `threshold <= v`, each once, by
      non-increasing count. */
  method RankByCount(countMap: map<Bytes, int>, threshold: int) returns (pairs: seq<KVPair>)
    ensures forall p :: p in pairs <==>
              p.key in countMap && p.value == countMap[p.key] && threshold <= p.value
    ensures DistinctKeys(pairs)
    ensures SortedByValue(pairs)
    ensures |pairs| <= |countMap|
  {
    var selected := SelectPairs(countMap, v => AtLeast(v, threshold));
    pairs := SortByValue(selected);
    assert forall p :: p in pairs <==> p in multiset(pairs);
    assert forall p :: p in selected <==> p in multiset(selected);
    PermutationKeepsDistinctKeys(selected, pairs);
  }

  /* ---------------------------------------------------------------------
     rankByCount is filterSort without an upper bound
     --------------------------------------------------------------------- */

  /** Distinct keys make the entries distinct. */
  predicate Distinct(s: seq<KVPair>) {
    forall i, j :: 0 <= i < j < |s| ==> s[i] != s[j]
  }

  /** A duplicate-free sequence holds each element at most once. */
  lemma {:induction false} DistinctAtMostOnce(s: seq<KVPair>, x: KVPair)
    requires Distinct(s)
    ensures multiset(s)[x] <= 1
  {
    if s != [] {
      assert s == [s[0]] + s[1..];
      assert Distinct(s[1..]) by {
        forall i, j | 0 <= i < j < |s[1..]|
          ensures s[1..][i] != s[1..][j]
        {
          assert s[1..][i] == s[i + 1] && s[1..][j] == s[j + 1];
        }
      }
      DistinctAtMostOnce(s[1..], x);
      if x == s[0] {
        forall k | 0 <= k < |s[1..]|
          ensures s[1..][k] != x
        {
          assert s[1..][k] == s[k + 1];
        }
      }
    }
  }

  /** An element found at two positions occurs at least twice. */
  lemma TwiceAtTwoPositions(s: seq<KVPair>, i: nat, j: nat)
    requires i < j < |s| && s[i] == s[j]
    ensures multiset(s)[s[i]] >= 2
  {
    assert s == s[..j] + [s[j]] + s[j + 1..];
    assert s[..j][i] == s[i];
  }

  /** Two duplicate-free sequences with the same members are permutations of each other. */
  lemma SameMembersPermutation(a: seq<KVPair>, b: seq<KVPair>)
    requires Distinct(a) && Distinct(b)
    requires forall x :: x in a <==> x in b
    ensures multiset(a) == multiset(b)
  {
    forall x
      ensures multiset(a)[x] == multiset(b)[x]
    {
      DistinctAtMostOnce(a, x);
      DistinctAtMostOnce(b, x);
      assert x in a <==> x in multiset(a);
      assert x in b <==> x in multiset(b);
    }
  }

  /** Reordering keeps keys distinct. */
  lemma PermutationKeepsDistinctKeys(a: seq<KVPair>, b: seq<KVPair>)
    requires multiset(a) == multiset(b) && DistinctKeys(a)
    ensures DistinctKeys(b)
  {
    forall i, j | 0 <= i < j < |b|
      ensures b[i].key != b[j].key
    {
      assert b[i] in multiset(a) && b[j] in multiset(a);
      var i' :| 0 <= i' < |a| && a[i'] == b[i];
      var j' :| 0 <= j' < |a| && a[j'] == b[j];
      if i' == j' {
        TwiceAtTwoPositions(b, i, j);
        DistinctKeysDistinct(a);
        DistinctAtMostOnce(a, b[i]);
        assert false;
      } else if i' < j' {
        assert a[i'].key != a[j'].key;
      } else {
        assert a[j'].key != a[i'].key;
      }
    }
  }

  lemma DistinctKeysDistinct(s: seq<KVPair>)
    requires DistinctKeys(s)
    ensures Distinct(s)
  {
  }

  /** Any output of rankByCount(m, t) and any output of filterSort(m, t, max)
      with `max <= 0` hold the same entries and are permutations of each other. */
  lemma RankByCountIsUnboundedFilterSort(
    m: map<Bytes, int>, t: int, max: int, ranked: seq<KVPair>, filtered: seq<KVPair>)
    requires max <= 0
    requires forall p :: p in ranked <==> p.key in m && p.value == m[p.key] && t <= p.value
    requires DistinctKeys(ranked)
    requires forall p :: p in filtered <==>
               p.key in m && p.value == m[p.key] && t <= p.value && (max <= 0 || p.value <= max)
    requires DistinctKeys(filtered)
    ensures forall p :: p in ranked <==> p in filtered
    ensures multiset(ranked) == multiset(filtered)
  {
    DistinctKeysDistinct(ranked);
    DistinctKeysDistinct(filtered);
    SameMembersPermutation(ranked, filtered);
  }

  /** Dropping one entry keeps an ordering by count. */
  lemma SortedRemove(b: seq<KVPair>, j: nat)
    requires j < |b| && SortedByValue(b)
    ensures SortedByValue(b[..j] + b[j + 1..])
  {
    var b' := b[..j] + b[j + 1..];
    forall i, l | 0 <= i < l < |b'|
      ensures b'[i].value >= b'[l].value
    {
      var i' := if i < j then i else i + 1;
      var l' := if l < j then l else l + 1;
      assert b'[i] == b[i'] && b'[l] == b[l'];
    }
  }

  lemma SortedTail(a: seq<KVPair>)
    requires a != [] && SortedByValue(a)
    ensures SortedByValue(a[1..])
  {
    forall i, l | 0 <= i < l < |a| - 1
      ensures a[1..][i].value >= a[1..][l].value
    {
      assert a[1..][i] == a[i + 1] && a[1..][l] == a[l + 1];
    }
  }

  /** Two orderings by count of the same entries start with the same count. */
  lemma SortedSameFirstCount(a: seq<KVPair>, b: seq<KVPair>)
    requires multiset(a) == multiset(b) && a != []
    requires SortedByValue(a) && SortedByValue(b)
    ensures b != [] && a[0].value == b[0].value
  {
    assert a[0] in multiset(b);
    assert b[0] in multiset(a);
  }

  /** In an ordering by count whose first count recurs at `j`, every count up
      to `j` is that count. */
  lemma PrefixTies(b: seq<KVPair>, j: nat)
    requires j < |b| && SortedByValue(b) && b[0].value == b[j].value
    ensures forall i :: 0 <= i <= j ==> b[i].value == b[j].value
  {
  }

  /** If `b` with position `j` removed has the counts of `a[1..]`, and every
      count before `j` equals the first, `b` has the counts of `a`. */
  lemma ShiftCounts(a: seq<KVPair>, b: seq<KVPair>, j: nat)
    requires j < |b| && |a| == |b| && a != []
    requires a[0].value == b[j].value
    requires forall i :: 0 <= i <= j ==> b[i].value == b[j].value
    requires forall i :: 0 <= i < |a| - 1 ==> a[1..][i].value == (b[..j] + b[j + 1..])[i].value
    ensures forall i :: 0 <= i < |a| ==> a[i].value == b[i].value
  {
    var b' := b[..j] + b[j + 1..];
    forall i | 0 <= i < |a|
      ensures a[i].value == b[i].value
    {
      if i > 0 {
        assert a[i] == a[1..][i - 1];
        if i - 1 < j {
          assert b'[i - 1] == b[i - 1];
        } else {
          assert b'[i - 1] == b[i];
        }
      }
    }
  }

  /** Two orderings by non-increasing count of the same entries have the same
      count at every position: they differ only in the order of ties. */
  lemma {:induction false} SortedPermutationsSameCounts(a: seq<KVPair>, b: seq<KVPair>)
    requires multiset(a) == multiset(b)
    requires SortedByValue(a) && SortedByValue(b)
    ensures |a| == |b|
    ensures forall i :: 0 <= i < |a| ==> a[i].value == b[i].value
    decreases |a|
  {
    assert |a| == |multiset(a)| == |multiset(b)| == |b|;
    if a != [] {
      SortedSameFirstCount(a, b);
      assert a[0] in multiset(b);
      assert a[0] in b;
      var j :| 0 <= j < |b| && b[j] == a[0];
      var b' := b[..j] + b[j + 1..];
      MultisetRemoveAt(b, j);
      assert a == [a[0]] + a[1..];
      assert multiset(a[1..]) == multiset(b');
      SortedRemove(b, j);
      SortedTail(a);
      SortedPermutationsSameCounts(a[1..], b');
      PrefixTies(b, j);
      ShiftCounts(a, b, j);
    }
  }

  /** rankByCount and filterSort with `max <= 0` give the same column of counts. */
  lemma RankByCountSameCounts(
    m: map<Bytes, int>, t: int, max: int, ranked: seq<KVPair>, filtered: seq<KVPair>)
    requires max <= 0
    requires forall p :: p in ranked <==> p.key in m && p.value == m[p.key] && t <= p.value
    requires DistinctKeys(ranked) && SortedByValue(ranked)
    requires forall p :: p in filtered <==>
               p.key in m && p.value == m[p.key] && t <= p.value && (max <= 0 || p.value <= max)
    requires DistinctKeys(filtered) && SortedByValue(filtered)
    ensures |ranked| == |filtered|
    ensures forall i :: 0 <= i < |ranked| ==> ranked[i].value == filtered[i].value
  {
    RankByCountIsUnboundedFilterSort(m, t, max, ranked, filtered);
    SortedPermutationsSameCounts(ranked, filtered);
  }

  /** filterSort({a: 5, b: 20, c: 15}, 10, 0) can only be [(b, 20), (c, 15)]. */
  lemma FilterSortExample(pairs: seq<KVPair>)
    requires var m := map["a" := 5, "b" := 20, "c" := 15];
             forall p :: p in pairs <==>
               p.key in m && p.value == m[p.key] && 10 <= p.value && (0 <= 0 || p.value <= 0)
    requires DistinctKeys(pairs) && SortedByValue(pairs)
    ensures pairs == [KVPair("b", 20), KVPair("c", 15)]
  {
    var expected := [KVPair("b", 20), KVPair("c", 15)];
    var m := map["a" := 5, "b" := 20, "c" := 15];
    forall p
      ensures p in pairs <==> p in expected
    {
      if p.key in m && p.value == m[p.key] && 10 <= p.value {
        assert p.key != "a";
        assert p == KVPair("b", 20) || p == KVPair("c", 15);
      }
    }
    DistinctKeysDistinct(pairs);
    SameMembersPermutation(pairs, expected);
    SortedPermutationsSameCounts(pairs, expected);
    assert |pairs| == 2;
    assert pairs[0] in expected && pairs[1] in expected;
  }
}
