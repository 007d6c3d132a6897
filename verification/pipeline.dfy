/** The command around the parser: every line of a file is digested into an
    entry, the entries of all files are folded into a count of 404 responses
    per URI, and the URIs seen at least ten times are ranked. */
module Pipeline {
  import opened Seqs
  import opened GoLib
  import opened Parser
  import Ranking

  /* ---------------------------------------------------------------------
     parseFile
     --------------------------------------------------------------------- */

  /** The outcome of parsing one file: the entries of all its lines, or the
      status of the first line that did not digest. */
  datatype FileResult = Entries(logs: seq<AccessLog>) | Aborted(status: Status)

  /** A line digests into a fresh entry without error. */
  predicate LineOk(line: Bytes) {
    Digest(ZeroLog, line).status == Ok
  }

  /** Line `k` is the first line that does not digest. */
  predicate FirstFailure(lines: seq<Bytes>, k: nat)
    requires k < |lines|
  {
    && !LineOk(lines[k])
    && forall j :: 0 <= j < k ==> LineOk(lines[j])
  }

  /** parseFile over the lines its scanner yields: each line is digested into
      a zero entry; the first failure abandons the file. */
  method ParseFile(lines: seq<Bytes>) returns (r: FileResult)
    ensures r.Entries? <==> forall k :: 0 <= k < |lines| ==> LineOk(lines[k])
    ensures r.Entries? ==>
              && |r.logs| == |lines|
              && forall k :: 0 <= k < |lines| ==> r.logs[k] == Digest(ZeroLog, lines[k]).log
    ensures r.Aborted? ==>
              exists k :: 0 <= k < |lines| && FirstFailure(lines, k)
                          && r.status == Digest(ZeroLog, lines[k]).status
  {
    var entries: seq<AccessLog> := [];
    var i := 0;
    while i < |lines|
      invariant i <= |lines|
      invariant |entries| == i
      invariant forall k :: 0 <= k < i ==> LineOk(lines[k]) && entries[k] == Digest(ZeroLog, lines[k]).log
    {
      var d := Digest(ZeroLog, lines[i]);
      if d.status != Ok {
        assert FirstFailure(lines, i);
        return Aborted(d.status);
      }
      var entries' := entries + [d.log];
      assert entries'[i] == d.log && entries'[..i] == entries;
      entries, i := entries', i + 1;
    }
    return Entries(entries);
  }

  /* ---------------------------------------------------------------------
     Counting 404 responses per URI
     --------------------------------------------------------------------- */

  /** `notFound[u]++` on a Go map: a missing key counts from zero. */
  function Bump(m: map<Bytes, int>, u: Bytes): (r: map<Bytes, int>)
    ensures r.Keys == m.Keys + {u}
    ensures r[u] == (if u in m then m[u] else 0) + 1
    ensures forall v :: v in m && v != u ==> r[v] == m[v]
  {
    m[u := if u in m then m[u] + 1 else 1]
  }

  ghost predicate NotFoundAt(e: AccessLog, u: Bytes) {
    e.statusCode == 404 && e.request.uri == u
  }

  /** One turn of the inner loop: a 404 entry bumps its URI. */
  function Tally(m: map<Bytes, int>, e: AccessLog): (r: map<Bytes, int>)
    ensures forall u :: u in r <==> u in m || NotFoundAt(e, u)
    ensures forall u :: u in r ==> r[u] == (if u in m then m[u] else 0) + (if NotFoundAt(e, u) then 1 else 0)
  {
    if e.statusCode == 404 then Bump(m, e.request.uri) else m
  }

  /** The inner loop over the entries of one batch, in order: no key is lost,
      no count goes down, and every new key is a URI some entry answered 404,
      counted at least once. */
  function FoldEntries(m: map<Bytes, int>, entries: seq<AccessLog>): (r: map<Bytes, int>)
    ensures m.Keys <= r.Keys
    ensures forall u :: u in m ==> m[u] <= r[u]
    ensures forall u :: u in r && u !in m ==> r[u] >= 1 && exists e :: e in entries && NotFoundAt(e, u)
    decreases |entries|
  {
    if entries == [] then m
    else
      var e := entries[0];
      assert e in entries && forall x :: x in entries[1..] ==> x in entries;
      FoldEntries(Tally(m, e), entries[1..])
  }

  /** The outer loop over the batches in the order the channel delivers them,
      with the same guarantees as the inner loop. */
  function FoldBatches(m: map<Bytes, int>, batches: seq<seq<AccessLog>>): (r: map<Bytes, int>)
    ensures m.Keys <= r.Keys
    ensures forall u :: u in m ==> m[u] <= r[u]
    ensures forall u :: u in r && u !in m ==>
              r[u] >= 1 && exists b, e :: b in batches && e in b && NotFoundAt(e, u)
    decreases |batches|
  {
    if batches == [] then m else FoldBatches(FoldEntries(m, batches[0]), batches[1..])
  }

  /** The `notFound` map after all batches, starting from an empty map. */
  function CountNotFound(batches: seq<seq<AccessLog>>): (r: map<Bytes, int>)
    ensures forall u :: u in r ==> r[u] >= 1 && exists b, e :: b in batches && e in b && NotFoundAt(e, u)
  {
    FoldBatches(map[], batches)
  }

  /** Reference: how many entries are 404 responses for `u`. */
  ghost function Count(entries: seq<AccessLog>, u: Bytes): (n: nat)
    ensures n <= |entries|
    decreases |entries|
  {
    if entries == [] then 0
    else (if NotFoundAt(entries[0], u) then 1 else 0) + Count(entries[1..], u)
  }

  /** Reference: all entries of all batches, in order. */
  ghost function Flatten(batches: seq<seq<AccessLog>>): seq<AccessLog>
    decreases |batches|
  {
    if batches == [] then [] else batches[0] + Flatten(batches[1..])
  }

  /** Folding a batch adds its 404 count to each URI and keeps every other key. */
  lemma {:induction false} FoldEntriesCounts(m: map<Bytes, int>, entries: seq<AccessLog>)
    ensures var r := FoldEntries(m, entries);
            && (forall u :: u in r <==> u in m || Count(entries, u) > 0)
            && (forall u :: u in r ==> r[u] == (if u in m then m[u] else 0) + Count(entries, u))
    decreases |entries|
  {
    if entries != [] {
      FoldEntriesCounts(Tally(m, entries[0]), entries[1..]);
    }
  }

  lemma {:induction false} FoldEntriesAppend(m: map<Bytes, int>, a: seq<AccessLog>, b: seq<AccessLog>)
    ensures FoldEntries(m, a + b) == FoldEntries(FoldEntries(m, a), b)
    decreases |a|
  {
    if a != [] {
      assert (a + b)[0] == a[0];
      assert (a + b)[1..] == a[1..] + b;
      FoldEntriesAppend(Tally(m, a[0]), a[1..], b);
    } else {
      assert a + b == b;
    }
  }

  /** The two nested loops are one fold over the concatenated entries. */
  lemma {:induction false} FoldBatchesFlatten(m: map<Bytes, int>, batches: seq<seq<AccessLog>>)
    ensures FoldBatches(m, batches) == FoldEntries(m, Flatten(batches))
    decreases |batches|
  {
    if batches != [] {
      FoldEntriesAppend(m, batches[0], Flatten(batches[1..]));
      FoldBatchesFlatten(FoldEntries(m, batches[0]), batches[1..]);
    }
  }

  /** The map built by the fold holds, for exactly the URIs answered 404 at
      least once, the number of 404 responses for that URI. */
  lemma CountNotFoundSpec(batches: seq<seq<AccessLog>>)
    ensures var r := CountNotFound(batches);
            && (forall u :: u in r <==> Count(Flatten(batches), u) > 0)
            && (forall u :: u in r ==> r[u] == Count(Flatten(batches), u))
  {
    FoldBatchesFlatten(map[], batches);
    FoldEntriesCounts(map[], Flatten(batches));
  }

  lemma {:induction false} CountAppend(a: seq<AccessLog>, b: seq<AccessLog>, u: Bytes)
    ensures Count(a + b, u) == Count(a, u) + Count(b, u)
    decreases |a|
  {
    if a != [] {
      assert (a + b)[0] == a[0];
      assert (a + b)[1..] == a[1..] + b;
      CountAppend(a[1..], b, u);
    } else {
      assert a + b == b;
    }
  }

  lemma {:induction false} FlattenAppend(a: seq<seq<AccessLog>>, b: seq<seq<AccessLog>>)
    ensures Flatten(a + b) == Flatten(a) + Flatten(b)
    decreases |a|
  {
    if a != [] {
      assert (a + b)[0] == a[0];
      assert (a + b)[1..] == a[1..] + b;
      FlattenAppend(a[1..], b);
    } else {
      assert a + b == b;
    }
  }

  /** The count over all batches is the count in batch `j` plus the count
      over the other batches. */
  lemma CountFlattenRemove(bs: seq<seq<AccessLog>>, j: nat, u: Bytes)
    requires j < |bs|
    ensures Count(Flatten(bs), u) == Count(bs[j], u) + Count(Flatten(bs[..j] + bs[j + 1..]), u)
  {
    var pre, x, post := bs[..j], bs[j], bs[j + 1..];
    assert bs == pre + ([x] + post);
    assert [x] + post == [x] + post;
    FlattenAppend(pre, [x] + post);
    FlattenAppend([x], post);
    assert Flatten([x]) == x;
    FlattenAppend(pre, post);
    CountAppend(Flatten(pre), x + Flatten(post), u);
    CountAppend(x, Flatten(post), u);
    CountAppend(Flatten(pre), Flatten(post), u);
  }

  /** The count over all batches does not depend on the order of the batches. */
  lemma {:induction false} CountFlattenPermutation(bs1: seq<seq<AccessLog>>, bs2: seq<seq<AccessLog>>, u: Bytes)
    requires multiset(bs1) == multiset(bs2)
    ensures Count(Flatten(bs1), u) == Count(Flatten(bs2), u)
    decreases |bs1|
  {
    if bs1 == [] {
      assert |bs2| == |multiset(bs2)| == 0;
    } else {
      assert bs1[0] in multiset(bs2);
      var j :| 0 <= j < |bs2| && bs2[j] == bs1[0];
      var rest1, rest2 := bs1[1..], bs2[..j] + bs2[j + 1..];
      MultisetRemoveAt(bs2, j);
      assert bs1 == [bs1[0]] + rest1;
      assert multiset(rest1) == multiset(rest2);
      CountFlattenPermutation(rest1, rest2, u);
      CountAppend(bs1[0], Flatten(rest1), u);
      CountFlattenRemove(bs2, j, u);
    }
  }

  /** The batches of the files arrive over the channel in whatever order the
      goroutines finish; the resulting map is the same for every order. */
  lemma CountNotFoundOrderIndependent(bs1: seq<seq<AccessLog>>, bs2: seq<seq<AccessLog>>)
    requires multiset(bs1) == multiset(bs2)
    ensures CountNotFound(bs1) == CountNotFound(bs2)
  {
    CountNotFoundSpec(bs1);
    CountNotFoundSpec(bs2);
    forall u
      ensures Count(Flatten(bs1), u) == Count(Flatten(bs2), u)
    {
      CountFlattenPermutation(bs1, bs2, u);
    }
  }

  /* ---------------------------------------------------------------------
     The whole run
     --------------------------------------------------------------------- */

  /** One run of the command over the lines of its input files: None when
      some file has a line that does not digest (the process exits before
      printing), otherwise the URIs with at least ten 404 responses, ranked. */
  method Run(files: seq<seq<Bytes>>) returns (r: Option<seq<Ranking.KVPair>>, batches: seq<seq<AccessLog>>)
    ensures r.None? <==>
              exists f :: 0 <= f < |files| && exists k :: 0 <= k < |files[f]| && !LineOk(files[f][k])
    ensures r.Some? ==>
              && |batches| == |files|
              && (forall f :: 0 <= f < |files| ==> |batches[f]| == |files[f]|)
              && (forall f, k :: 0 <= f < |files| && 0 <= k < |files[f]| ==>
                    batches[f][k] == Digest(ZeroLog, files[f][k]).log)
              && (forall p :: p in r.value <==> Count(Flatten(batches), p.key) >= 10 && p.value == Count(Flatten(batches), p.key))
              && Ranking.DistinctKeys(r.value)
              && Ranking.SortedByValue(r.value)
  {
    batches := [];
    var f := 0;
    while f < |files|
      invariant f <= |files|
      invariant |batches| == f
      invariant forall g :: 0 <= g < f ==> |batches[g]| == |files[g]|
      invariant forall g, k :: 0 <= g < f && 0 <= k < |files[g]| ==>
                  batches[g][k] == Digest(ZeroLog, files[g][k]).log
      invariant forall g :: 0 <= g < f ==> forall k :: 0 <= k < |files[g]| ==> LineOk(files[g][k])
    {
      var parsed := ParseFile(files[f]);
      if parsed.Aborted? {
        var k :| 0 <= k < |files[f]| && FirstFailure(files[f], k);
        assert !LineOk(files[f][k]);
        return None, batches;
      }
      batches := batches + [parsed.logs];
      f := f + 1;
    }
    var notFound := CountNotFound(batches);
    CountNotFoundSpec(batches);
    var ranked := Ranking.RankByCount(notFound, 10);
    r := Some(ranked);
  }
}
