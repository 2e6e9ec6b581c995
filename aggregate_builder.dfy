/**
 * The aggregate builder (app.js:91-99) and the pipeline of the `/view/:id`
 * handler from the metadata records to the triple handed to the page:
 * `eventMap` keyed by `eventId`, `metaMap` keyed by `id` (plain objects
 * filled by `forEach`, last write wins) and the request/response tuples.
 */
module AggregateBuilder {
  import opened Wrappers
  import opened Records
  import opened Seqs
  import opened Correlator
  import opened BatchPlanner
  import opened DetailMerger

  /** Index `i` holds the last record of `xs` under its key. */
  ghost predicate IsLastWithKey<T>(xs: seq<T>, key: T -> string, i: int)
  {
    0 <= i < |xs| && forall j :: i < j < |xs| ==> key(xs[j]) != key(xs[i])
  }

  /** `m` holds exactly the keys of `xs`, each mapped to the last record under it. */
  ghost predicate LastWriteIndex<T>(xs: seq<T>, key: T -> string, m: map<string, T>)
  {
    && (forall k :: k in m <==> exists i :: 0 <= i < |xs| && key(xs[i]) == k)
    && (forall i :: IsLastWithKey(xs, key, i) ==> key(xs[i]) in m && m[key(xs[i])] == xs[i])
  }

  lemma IndexStepKeys<T>(done: seq<T>, x: T, key: T -> string, m: map<string, T>,
                         next: seq<T>, m': map<string, T>)
    requires next == done + [x] && m' == m[key(x) := x]
    requires forall k :: k in m <==> exists i :: 0 <= i < |done| && key(done[i]) == k
    ensures forall k :: k in m' <==> exists i :: 0 <= i < |next| && key(next[i]) == k
  {
    forall k | k in m' ensures exists l :: 0 <= l < |next| && key(next[l]) == k {
      if k == key(x) {
        assert key(next[|done|]) == k;
      } else {
        var l :| 0 <= l < |done| && key(done[l]) == k;
        assert key(next[l]) == k;
      }
    }
    forall l | 0 <= l < |next| ensures key(next[l]) in m' {
      if l < |done| {
        assert key(done[l]) == key(next[l]);
      }
    }
  }

  lemma IndexStepValues<T>(done: seq<T>, x: T, key: T -> string, m: map<string, T>)
    requires forall i :: IsLastWithKey(done, key, i) ==> key(done[i]) in m && m[key(done[i])] == done[i]
    ensures var next, m' := done + [x], m[key(x) := x];
            forall i :: IsLastWithKey(next, key, i) ==> key(next[i]) in m' && m'[key(next[i])] == next[i]
  {
    var next, m' := done + [x], m[key(x) := x];
    forall l | IsLastWithKey(next, key, l)
      ensures key(next[l]) in m' && m'[key(next[l])] == next[l]
    {
      if l < |done| {
        assert next[l] == done[l] && next[|done|] == x;
        assert key(x) != key(next[l]);
        forall j | l < j < |done| ensures key(done[j]) != key(done[l]) {
          assert next[j] == done[j];
        }
      }
    }
  }

  /** One `forEach` step: assigning the next record keeps the index exact. */
  lemma IndexStep<T>(done: seq<T>, x: T, key: T -> string, m: map<string, T>)
    requires LastWriteIndex(done, key, m)
    ensures LastWriteIndex(done + [x], key, m[key(x) := x])
  {
    IndexStepKeys(done, x, key, m, done + [x], m[key(x) := x]);
    IndexStepValues(done, x, key, m);
  }

  /** app.js:91-94 and 96-99: `xs.forEach(x => m[key(x)] = x)`. */
  method IndexBy<T>(xs: seq<T>, key: T -> string) returns (m: map<string, T>)
    ensures LastWriteIndex(xs, key, m)
  {
    m := map[];
    for i := 0 to |xs|
      invariant LastWriteIndex(xs[..i], key, m)
    {
      IndexStep(xs[..i], xs[i], key, m);
      assert xs[..i + 1] == xs[..i] + [xs[i]];
      m := m[key(xs[i]) := xs[i]];
    }
    assert xs[..|xs|] == xs;
  }

  /** Some record is the last one under key `k` whenever any record has that key. */
  lemma {:induction false} LastWithKeyExists<T>(xs: seq<T>, key: T -> string, k: string)
    requires exists i :: 0 <= i < |xs| && key(xs[i]) == k
    ensures exists i :: IsLastWithKey(xs, key, i) && key(xs[i]) == k
  {
    var n := |xs| - 1;
    if key(xs[n]) == k {
      assert IsLastWithKey(xs, key, n);
    } else {
      var init := xs[..n];
      var i :| 0 <= i < |xs| && key(xs[i]) == k;
      assert key(init[i]) == k;
      LastWithKeyExists(init, key, k);
      var l :| IsLastWithKey(init, key, l) && key(init[l]) == k;
      assert xs[l] == init[l];
      forall j | l < j < |xs| ensures key(xs[j]) != key(xs[l]) {
        if j < n {
          assert xs[j] == init[j];
        }
      }
      assert IsLastWithKey(xs, key, l);
    }
  }

  /** Building the index twice from the same records gives the same map. */
  lemma LastWriteIndexUnique<T>(xs: seq<T>, key: T -> string, m1: map<string, T>, m2: map<string, T>)
    requires LastWriteIndex(xs, key, m1) && LastWriteIndex(xs, key, m2)
    ensures m1 == m2
  {
    forall k | k in m1 ensures k in m2 && m1[k] == m2[k] {
      LastWithKeyExists(xs, key, k);
      var i :| IsLastWithKey(xs, key, i) && key(xs[i]) == k;
    }
    assert m1.Keys == m2.Keys;
  }

  /**
   * With the details sorted most recent first, the record `eventMap` keeps
   * under an id is the oldest of the records carrying it.
   */
  lemma EventMapKeepsOldest(details: seq<Detail>, eventMap: map<string, Detail>, i: nat)
    requires NonIncreasing(details) && LastWriteIndex(details, EventKey, eventMap)
    requires i < |details|
    ensures details[i].eventId in eventMap
    ensures eventMap[details[i].eventId].eventDate <= details[i].eventDate
  {
    var k := details[i].eventId;
    assert EventKey(details[i]) == k;
    LastWithKeyExists(details, EventKey, k);
    var l :| IsLastWithKey(details, EventKey, l) && EventKey(details[l]) == k;
    assert i <= l;
  }

  /** What the handler hands to the page. */
  datatype Aggregate = Aggregate(eventMap: map<string, Detail>, metaMap: map<string, Meta>, pairs: seq<Pair>)

  /** app.js:78-85 without the network: the detail service's answer for each batch, by position. */
  function FetchAll(batches: seq<seq<string>>, fetch: seq<string> -> seq<Detail>): (r: seq<seq<Detail>>)
    ensures |r| == |batches|
    ensures forall b :: 0 <= b < |batches| ==> r[b] == fetch(batches[b])
  {
    seq(|batches|, b requires 0 <= b < |batches| => fetch(batches[b]))
  }

  /**
   * `Promise.all` keeps issue order: the answers to earlier batches come
   * first, and so do their details once the answers are concatenated.
   */
  lemma FetchAllAppend(b1: seq<seq<string>>, b2: seq<seq<string>>, fetch: seq<string> -> seq<Detail>)
    ensures FetchAll(b1 + b2, fetch) == FetchAll(b1, fetch) + FetchAll(b2, fetch)
    ensures Flatten(FetchAll(b1 + b2, fetch)) == Flatten(FetchAll(b1, fetch)) + Flatten(FetchAll(b2, fetch))
  {
    assert FetchAll(b1 + b2, fetch) == FetchAll(b1, fetch) + FetchAll(b2, fetch);
    FlattenConcat(FetchAll(b1, fetch), FetchAll(b2, fetch));
  }

  /**
   * app.js:39-99: correlate, plan the batches, merge what the detail service
   * returns for them (`fetch`, one call per batch) and index both sides.
   */
  method BuildAggregate(metas: seq<Meta>, fetch: seq<string> -> seq<Detail>)
    returns (agg: Aggregate, batches: seq<seq<string>>, details: seq<Detail>)
    ensures agg.pairs == ExpectedPairs(metas)
    ensures IsChunking(EventIds(agg.pairs), BATCH_SIZE, batches)
    ensures details == SortedByDate(Flatten(FetchAll(batches, fetch)))
    ensures IsStableSortOf(details, Flatten(FetchAll(batches, fetch)))
    ensures LastWriteIndex(details, EventKey, agg.eventMap)
    ensures LastWriteIndex(metas, MetaKey, agg.metaMap)
  {
    var tuples := Correlate(metas);
    var eventIds := EventIds(tuples);
    batches := ChunkArray(eventIds, BATCH_SIZE);
    details := MergeDetails(FetchAll(batches, fetch));
    var eventMap := IndexBy(details, EventKey);
    var metaMap := IndexBy(metas, MetaKey);
    agg := Aggregate(eventMap, metaMap, tuples);
  }
}
