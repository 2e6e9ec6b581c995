/**
 * The batch planner: `tuples.flat().filter(Boolean)` turns the tuples into
 * the list of ids to fetch (app.js:72), and `chunkArray` cuts that list into
 * consecutive slices of at most BATCH_SIZE ids (app.js:61-69).
 */
module BatchPlanner {
  import opened Wrappers
  import opened Records
  import opened Seqs

  /** app.js:61 */
  const BATCH_SIZE: nat := 100

  /** `tuples.flat()`: both sides of every tuple, in order. */
  function FlatPairs(ps: seq<Pair>): (r: seq<Option<string>>)
    ensures |r| == 2 * |ps|
  {
    if ps == [] then [] else [ps[0].req, ps[0].res] + FlatPairs(ps[1..])
  }

  /** `.filter(Boolean)`: drops nulls and empty strings, keeps everything else in order. */
  function KeepTruthy(xs: seq<Option<string>>): (r: seq<string>)
    ensures |r| <= |xs| && "" !in r
  {
    if xs == [] then []
    else (if Truthy(xs[0]) then [xs[0].value] else []) + KeepTruthy(xs[1..])
  }

  /** app.js:72: the ids whose details are requested. */
  function EventIds(tuples: seq<Pair>): (r: seq<string>)
    ensures |r| <= 2 * |tuples| && "" !in r
  {
    KeepTruthy(FlatPairs(tuples))
  }

  ghost predicate OnSomeSide(ps: seq<Pair>, x: string)
  {
    exists p :: 0 <= p < |ps| && (ps[p].req == Some(x) || ps[p].res == Some(x))
  }

  /** `flat` lays the two sides of tuple `p` at positions `2p` and `2p + 1`. */
  lemma {:induction false} FlatPairsLayout(ps: seq<Pair>)
    ensures |FlatPairs(ps)| == 2 * |ps|
    ensures forall p :: 0 <= p < |ps| ==> FlatPairs(ps)[2 * p] == ps[p].req && FlatPairs(ps)[2 * p + 1] == ps[p].res
  {
    if ps != [] {
      FlatPairsLayout(ps[1..]);
      forall p | 1 <= p < |ps|
        ensures FlatPairs(ps)[2 * p] == ps[p].req && FlatPairs(ps)[2 * p + 1] == ps[p].res
      {
        assert FlatPairs(ps)[2 * p] == FlatPairs(ps[1..])[2 * (p - 1)];
        assert FlatPairs(ps)[2 * p + 1] == FlatPairs(ps[1..])[2 * (p - 1) + 1];
      }
    }
  }

  /** The filter keeps every truthy id exactly as often as it occurs, and nothing else. */
  lemma {:induction false} KeepTruthyCounts(xs: seq<Option<string>>)
    ensures forall x :: x != "" ==> multiset(KeepTruthy(xs))[x] == multiset(xs)[Some(x)]
  {
    if xs != [] {
      KeepTruthyCounts(xs[1..]);
      assert xs == [xs[0]] + xs[1..];
    }
  }

  /**
   * The filter works element by element and keeps order: filtering two lists
   * one after the other is filtering their concatenation.
   */
  lemma {:induction false} KeepTruthyAppend(xs: seq<Option<string>>, ys: seq<Option<string>>)
    ensures KeepTruthy(xs + ys) == KeepTruthy(xs) + KeepTruthy(ys)
  {
    if xs != [] {
      assert (xs + ys)[0] == xs[0];
      assert (xs + ys)[1..] == xs[1..] + ys;
      KeepTruthyAppend(xs[1..], ys);
    } else {
      assert xs + ys == ys;
    }
  }

  /** `flat` keeps tuple order: the sides of earlier tuples come first. */
  lemma {:induction false} FlatPairsAppend(ps: seq<Pair>, qs: seq<Pair>)
    ensures FlatPairs(ps + qs) == FlatPairs(ps) + FlatPairs(qs)
  {
    if ps != [] {
      assert (ps + qs)[0] == ps[0];
      assert (ps + qs)[1..] == ps[1..] + qs;
      FlatPairsAppend(ps[1..], qs);
    } else {
      assert ps + qs == qs;
    }
  }

  /**
   * The requested ids keep tuple order: the ids of earlier tuples come first,
   * and each tuple gives its truthy request side, then its truthy response side.
   */
  lemma EventIdsAppend(ps: seq<Pair>, qs: seq<Pair>)
    ensures EventIds(ps + qs) == EventIds(ps) + EventIds(qs)
  {
    FlatPairsAppend(ps, qs);
    KeepTruthyAppend(FlatPairs(ps), FlatPairs(qs));
  }

  /** One tuple contributes its truthy sides, request first. */
  lemma EventIdsOfOne(p: Pair)
    ensures EventIds([p]) == (if Truthy(p.req) then [p.req.value] else []) + (if Truthy(p.res) then [p.res.value] else [])
  {
    assert FlatPairs([p]) == [p.req] + [p.res];
    KeepTruthyAppend([p.req], [p.res]);
    assert [p.req][1..] == [] && [p.res][1..] == [];
  }

  /** A value occurs in the flattening exactly when it stands on some side of some tuple. */
  lemma {:induction false} FlatPairsMembers(ps: seq<Pair>, v: Option<string>)
    ensures v in FlatPairs(ps) <==> exists p :: 0 <= p < |ps| && (ps[p].req == v || ps[p].res == v)
  {
    if ps != [] {
      FlatPairsMembers(ps[1..], v);
      if exists p :: 0 <= p < |ps| && (ps[p].req == v || ps[p].res == v) {
        var p :| 0 <= p < |ps| && (ps[p].req == v || ps[p].res == v);
        if p > 0 {
          assert ps[1..][p - 1] == ps[p];
        }
      }
      if exists p :: 0 <= p < |ps[1..]| && (ps[1..][p].req == v || ps[1..][p].res == v) {
        var p :| 0 <= p < |ps[1..]| && (ps[1..][p].req == v || ps[1..][p].res == v);
        assert ps[p + 1] == ps[1..][p];
      }
    }
  }

  /** An id is requested exactly when it is non-empty and stands on some side of some tuple. */
  lemma EventIdsMembers(tuples: seq<Pair>, x: string)
    ensures x in EventIds(tuples) <==> x != "" && OnSomeSide(tuples, x)
  {
    var flat := FlatPairs(tuples);
    KeepTruthyCounts(flat);
    FlatPairsMembers(tuples, Some(x));
    if x != "" {
      assert x in EventIds(tuples) <==> multiset(EventIds(tuples))[x] > 0;
      assert Some(x) in flat <==> multiset(flat)[Some(x)] > 0;
    }
  }

  /** Ids are not deduplicated: every truthy side of every tuple is requested once per occurrence. */
  lemma EventIdsKeepDuplicates(tuples: seq<Pair>, x: string)
    requires x != ""
    ensures multiset(EventIds(tuples))[x] == multiset(FlatPairs(tuples))[Some(x)]
  {
    KeepTruthyCounts(FlatPairs(tuples));
  }

  /** The chain a <- c <- b asks for `c` twice. */
  lemma ChainRequestsTwice()
    ensures EventIds([Pair(Some("a"), Some("c")), Pair(Some("c"), Some("b"))]) == ["a", "c", "c", "b"]
  {
    var ps := [Pair(Some("a"), Some("c")), Pair(Some("c"), Some("b"))];
    var flat := [Some("a"), Some("c"), Some("c"), Some("b")];
    FlatPairsLayout(ps);
    assert FlatPairs(ps) == flat;
    assert flat[1..][1..][1..][1..] == [];
    assert KeepTruthy(flat) == ["a"] + KeepTruthy(flat[1..]);
    assert KeepTruthy(flat[1..]) == ["c"] + KeepTruthy(flat[1..][1..]);
    assert KeepTruthy(flat[1..][1..]) == ["c"] + KeepTruthy(flat[1..][1..][1..]);
    assert KeepTruthy(flat[1..][1..][1..]) == ["b"] + KeepTruthy([]);
  }

  /** Lone records contribute only their request side. */
  lemma NullSidesDropped()
    ensures EventIds([Pair(Some("x"), None), Pair(Some(""), Some("y"))]) == ["x", "y"]
  {
    var ps := [Pair(Some("x"), None), Pair(Some(""), Some("y"))];
    var flat := [Some("x"), None, Some(""), Some("y")];
    FlatPairsLayout(ps);
    assert FlatPairs(ps) == flat;
    assert flat[1..][1..][1..][1..] == [];
    assert KeepTruthy(flat) == ["x"] + KeepTruthy(flat[1..]);
    assert KeepTruthy(flat[1..]) == KeepTruthy(flat[1..][1..]);
    assert KeepTruthy(flat[1..][1..]) == KeepTruthy(flat[1..][1..][1..]);
    assert KeepTruthy(flat[1..][1..][1..]) == ["y"] + KeepTruthy([]);
  }

  /** Start of the `k`-th slice, `k * size`, written additively for the loop proof. */
  function Offset(k: nat, size: nat): nat
  {
    if k == 0 then 0 else Offset(k - 1, size) + size
  }

  lemma {:induction false} OffsetIsProduct(k: nat, size: nat)
    ensures Offset(k, size) == k * size
  {
    if k > 0 {
      OffsetIsProduct(k - 1, size);
      assert (k - 1) * size + size == k * size;
    }
  }

  /** `chunks` partitions `arr` in order into non-empty slices of `size`, only the last one shorter. */
  ghost predicate IsChunking<T>(arr: seq<T>, size: nat, chunks: seq<seq<T>>)
  {
    && Flatten(chunks) == arr
    && (forall k :: 0 <= k < |chunks| ==> 0 < |chunks[k]| <= size)
    && (forall k :: 0 <= k < |chunks| - 1 ==> |chunks[k]| == size)
  }

  /** Peeling the first slice off a chunking leaves a chunking of the rest. */
  lemma ChunkingTail<T>(arr: seq<T>, size: nat, chunks: seq<seq<T>>)
    requires IsChunking(arr, size, chunks) && chunks != []
    ensures |chunks[0]| <= |arr| && arr[..|chunks[0]|] == chunks[0]
    ensures IsChunking(arr[|chunks[0]|..], size, chunks[1..])
    ensures |chunks| > 1 <==> |arr| > size
  {
    var rest := chunks[1..];
    assert Flatten(chunks) == chunks[0] + Flatten(rest);
    if |chunks| > 1 {
      assert Flatten(rest) == rest[0] + Flatten(rest[1..]);
      assert |chunks[0]| == size && |Flatten(rest)| > 0;
    }
  }

  /** The slicing is determined by `arr` and `size`: any two chunkings coincide. */
  lemma {:induction false} ChunkingUnique<T>(arr: seq<T>, size: nat, c1: seq<seq<T>>, c2: seq<seq<T>>)
    requires IsChunking(arr, size, c1) && IsChunking(arr, size, c2)
    ensures c1 == c2
    decreases |arr|
  {
    if c1 == [] || c2 == [] {
      if c1 != [] {
        ChunkingTail(arr, size, c1);
      } else if c2 != [] {
        ChunkingTail(arr, size, c2);
      }
    } else {
      ChunkingTail(arr, size, c1);
      ChunkingTail(arr, size, c2);
      if |c1| > 1 {
        assert |c1[0]| == size == |c2[0]|;
      } else {
        assert c1[0] == arr && |c2| == 1;
        assert Flatten(c2) == c2[0] + Flatten(c2[1..]);
        assert c2[1..] == [];
      }
      assert c1[0] == c2[0];
      ChunkingUnique(arr[|c1[0]|..], size, c1[1..], c2[1..]);
      assert c1 == [c1[0]] + c1[1..] && c2 == [c2[0]] + c2[1..];
    }
  }

  /** 250 identifiers with the batch size of 100 go out as batches of 100, 100 and 50. */
  lemma TwoHundredFiftyIds<T>(arr: seq<T>, chunks: seq<seq<T>>)
    requires |arr| == 250 && IsChunking(arr, BATCH_SIZE, chunks)
    ensures |chunks| == 3 && |chunks[0]| == 100 && |chunks[1]| == 100 && |chunks[2]| == 50
  {
    ChunkingTail(arr, BATCH_SIZE, chunks);
    var a1, c1 := arr[|chunks[0]|..], chunks[1..];
    ChunkingTail(a1, BATCH_SIZE, c1);
    var a2, c2 := a1[|c1[0]|..], c1[1..];
    ChunkingTail(a2, BATCH_SIZE, c2);
  }

  /** Appending a slice after full slices extends a chunking. */
  lemma ChunkingSnoc<T>(pre: seq<T>, size: nat, chunks: seq<seq<T>>, chunk: seq<T>)
    requires IsChunking(pre, size, chunks) && 0 < |chunk| <= size
    requires chunks != [] ==> |chunks[|chunks| - 1]| == size
    ensures IsChunking(pre + chunk, size, chunks + [chunk])
  {
    FlattenAppend(chunks, chunk);
    var next := chunks + [chunk];
    assert forall k :: 0 <= k < |chunks| ==> next[k] == chunks[k];
  }

  /** app.js:63-69: consecutive slices of `size` elements, the last one possibly shorter. */
  method ChunkArray<T>(arr: seq<T>, size: nat) returns (chunks: seq<seq<T>>)
    requires size > 0
    ensures IsChunking(arr, size, chunks)
    ensures |arr| <= |chunks| * size && (chunks == [] || (|chunks| - 1) * size < |arr|)
  {
    chunks := [];
    var i := 0;
    while i < |arr|
      invariant i == Offset(|chunks|, size)
      invariant chunks == [] || i - size < |arr|
      invariant IsChunking(arr[..Min(i, |arr|)], size, chunks)
      invariant chunks != [] && i <= |arr| ==> |chunks[|chunks| - 1]| == size
    {
      var end := Min(i + size, |arr|);
      var chunk := arr[i .. end];
      ChunkingSnoc(arr[..i], size, chunks, chunk);
      assert arr[..end] == arr[..i] + chunk;
      chunks := chunks + [chunk];
      i := i + size;
    }
    assert arr[..Min(i, |arr|)] == arr;
    OffsetIsProduct(|chunks|, size);
    if chunks != [] {
      assert (|chunks| - 1) * size == |chunks| * size - size;
    }
  }
}
