/**
 * The identifier correlator of the `/view/:id` handler: it walks the
 * metadata records once, filling `requestMap` (request id to the id of the
 * record answering it, or null) and `responseMap` (response id to request
 * id), then emits one `[reqId, resId]` tuple per `requestMap` entry and, in a
 * second loop, a `[null, resId]` tuple for every response whose request never
 * became a tuple.
 *
 * The reference definition is ExpectedPairs: every record registers exactly
 * one request key (its truthy `requestId`, or else its own `id`), the keys
 * come out in order of first registration, and each key carries the id of
 * the last record that answers it.
 */
module Correlator {
  import opened Wrappers
  import opened Records
  import opened Seqs
  import opened OrderedMaps

  /** The `requestMap` key a record registers: its truthy `requestId`, or else its own `id`. */
  function RegKey(m: Meta): string
  {
    if HasRequestId(m) then m.requestId.value else m.id
  }

  function RegKeys(ms: seq<Meta>): seq<string>
  {
    seq(|ms|, i requires 0 <= i < |ms| => RegKey(ms[i]))
  }

  /** The distinct elements of `xs`, in order of first occurrence. */
  function Dedup<T(==)>(xs: seq<T>): seq<T>
  {
    if xs == [] then []
    else
      var d := Dedup(xs[..|xs| - 1]);
      if xs[|xs| - 1] in d then d else d + [xs[|xs| - 1]]
  }

  /** Record `m` answers request `k`. */
  predicate Responds(m: Meta, k: string)
  {
    HasRequestId(m) && m.requestId.value == k
  }

  /** The id of the last record answering `k`, if any. */
  function LastResponder(ms: seq<Meta>, k: string): Option<string>
  {
    if ms == [] then None
    else if Responds(ms[|ms| - 1], k) then Some(ms[|ms| - 1].id)
    else LastResponder(ms[..|ms| - 1], k)
  }

  ghost predicate IsLastResponder(ms: seq<Meta>, k: string, i: int)
  {
    0 <= i < |ms| && Responds(ms[i], k) && forall j :: i < j < |ms| ==> !Responds(ms[j], k)
  }

  /** The tuples the correlator should produce, as a declarative reference. */
  function ExpectedPairs(ms: seq<Meta>): seq<Pair>
  {
    var keys := Dedup(RegKeys(ms));
    seq(|keys|, p requires 0 <= p < |keys| => Pair(Some(keys[p]), LastResponder(ms, keys[p])))
  }

  // ---------------------------------------------------------------------
  // Dedup: membership, distinctness, first-occurrence order

  lemma DedupSnoc<T>(xs: seq<T>, x: T)
    ensures Dedup(xs + [x]) == if x in Dedup(xs) then Dedup(xs) else Dedup(xs) + [x]
  {
    assert (xs + [x])[..|xs + [x]| - 1] == xs;
  }

  lemma {:induction false} DedupMembers<T>(xs: seq<T>)
    ensures forall x :: x in Dedup(xs) ==> x in xs
    ensures forall x :: x in xs ==> x in Dedup(xs)
    ensures Distinct(Dedup(xs))
  {
    if xs != [] {
      var init := xs[..|xs| - 1];
      DedupMembers(init);
      assert xs == init + [xs[|xs| - 1]];
    }
  }

  /** A key never moves once registered: the keys seen in a prefix are a prefix of all keys. */
  lemma {:induction false} DedupPrefix<T>(xs: seq<T>, n: nat)
    requires n <= |xs|
    ensures Dedup(xs[..n]) <= Dedup(xs)
  {
    if n < |xs| {
      var init := xs[..|xs| - 1];
      DedupPrefix(init, n);
      assert init[..n] == xs[..n];
    } else {
      assert xs[..n] == xs;
    }
  }

  /** Whenever a later key has occurred in a prefix of the input, every earlier key has too. */
  lemma DedupOrder<T>(xs: seq<T>, p: nat, q: nat, n: nat)
    requires p < q < |Dedup(xs)| && n <= |xs|
    requires Dedup(xs)[q] in xs[..n]
    ensures Dedup(xs)[p] in xs[..n]
  {
    var pre := xs[..n];
    var d, e := Dedup(xs), Dedup(pre);
    DedupPrefix(xs, n);
    DedupMembers(xs);
    DedupMembers(pre);
    assert d[q] in e;
    var i :| 0 <= i < |e| && e[i] == d[q];
    assert d[i] == d[q];
    assert q < |e|;
    assert d[p] in e;
  }

  // ---------------------------------------------------------------------
  // LastResponder: the last record naming a key wins

  lemma {:induction false} LastResponderNone(ms: seq<Meta>, k: string)
    ensures LastResponder(ms, k).None? <==> forall i :: 0 <= i < |ms| ==> !Responds(ms[i], k)
  {
    if ms != [] {
      var init := ms[..|ms| - 1];
      LastResponderNone(init, k);
      if !Responds(ms[|ms| - 1], k) {
        assert forall i :: 0 <= i < |init| ==> init[i] == ms[i];
      }
    }
  }

  lemma {:induction false} LastResponderWitness(ms: seq<Meta>, k: string)
    ensures LastResponder(ms, k).Some? ==>
      exists i :: IsLastResponder(ms, k, i) && ms[i].id == LastResponder(ms, k).value
  {
    if ms != [] {
      var init := ms[..|ms| - 1];
      if Responds(ms[|ms| - 1], k) {
        assert IsLastResponder(ms, k, |ms| - 1);
      } else if LastResponder(init, k).Some? {
        LastResponderWitness(init, k);
        var i :| IsLastResponder(init, k, i) && init[i].id == LastResponder(init, k).value;
        assert IsLastResponder(ms, k, i);
      }
    }
  }

  lemma {:induction false} LastResponderIsLast(ms: seq<Meta>, k: string)
    ensures forall i :: IsLastResponder(ms, k, i) ==> LastResponder(ms, k) == Some(ms[i].id)
  {
    if ms != [] {
      var init := ms[..|ms| - 1];
      if Responds(ms[|ms| - 1], k) {
        forall i | IsLastResponder(ms, k, i) ensures i == |ms| - 1 {}
      } else {
        LastResponderIsLast(init, k);
        forall i | IsLastResponder(ms, k, i) ensures IsLastResponder(init, k, i) {}
      }
    }
  }

  /** The stored response id is the id of the last record answering `k`, and null when none does. */
  lemma LastResponderCharacterized(ms: seq<Meta>, k: string)
    ensures LastResponder(ms, k).None? <==> forall i :: 0 <= i < |ms| ==> !Responds(ms[i], k)
    ensures LastResponder(ms, k).Some? ==>
      exists i :: IsLastResponder(ms, k, i) && ms[i].id == LastResponder(ms, k).value
    ensures forall i :: IsLastResponder(ms, k, i) ==> LastResponder(ms, k) == Some(ms[i].id)
  {
    LastResponderNone(ms, k);
    LastResponderWitness(ms, k);
    LastResponderIsLast(ms, k);
  }

  /** A key nobody registered has no responder: every responder registers the key it answers. */
  lemma NoKeyNoResponder(ms: seq<Meta>, k: string)
    requires k !in Dedup(RegKeys(ms))
    ensures LastResponder(ms, k) == None
  {
    LastResponderCharacterized(ms, k);
    DedupMembers(RegKeys(ms));
    forall i | 0 <= i < |ms| ensures !Responds(ms[i], k) {
      assert RegKeys(ms)[i] == RegKey(ms[i]);
    }
  }

  lemma PrefixStep(ms: seq<Meta>, i: nat)
    requires i < |ms|
    ensures RegKeys(ms[..i + 1]) == RegKeys(ms[..i]) + [RegKey(ms[i])]
    ensures forall k :: LastResponder(ms[..i + 1], k) ==
                        if Responds(ms[i], k) then Some(ms[i].id) else LastResponder(ms[..i], k)
  {
    assert ms[..i + 1][..i] == ms[..i];
  }

  // ---------------------------------------------------------------------
  // The correlator as the source runs it

  /**
   * The two maps after the records `ms`: the request keys in first
   * registration order, each with its last responder, and every response
   * pointing at a request key.
   */
  ghost predicate Registered(ms: seq<Meta>, requestMap: OrderedMap<string, Option<string>>,
                             responseMap: OrderedMap<string, string>)
  {
    && requestMap.Valid() && responseMap.Valid()
    && requestMap.keys == Dedup(RegKeys(ms))
    && (forall k :: k in requestMap.values ==> requestMap.values[k] == LastResponder(ms, k))
    && (forall r :: r in responseMap.values ==> responseMap.values[r] in requestMap.values)
  }

  /** Registering key `k` once more extends the request keys as `Map.set` does. */
  lemma RegisterKeys(ms: seq<Meta>, i: nat, requestMap: OrderedMap<string, Option<string>>, v: Option<string>)
    requires i < |ms| && requestMap.Valid() && requestMap.keys == Dedup(RegKeys(ms[..i]))
    ensures requestMap.Set(RegKey(ms[i]), v).keys == Dedup(RegKeys(ms[..i + 1]))
  {
    var k := RegKey(ms[i]);
    PrefixStep(ms, i);
    DedupSnoc(RegKeys(ms[..i]), k);
    assert requestMap.Has(k) <==> k in requestMap.keys;
  }

  /** After a response to `k`, the value of `k` is the new record and every other value stays. */
  lemma RegisterValues(ms: seq<Meta>, i: nat, values: map<string, Option<string>>)
    requires i < |ms| && HasRequestId(ms[i])
    requires forall k :: k in values ==> values[k] == LastResponder(ms[..i], k)
    ensures var values' := values[ms[i].requestId.value := Some(ms[i].id)];
            forall k :: k in values' ==> values'[k] == LastResponder(ms[..i + 1], k)
  {
    PrefixStep(ms, i);
  }

  /** A record with a truthy `requestId` (app.js:44-46) keeps the maps registered. */
  lemma RegisterResponse(ms: seq<Meta>, i: nat, requestMap: OrderedMap<string, Option<string>>,
                         responseMap: OrderedMap<string, string>)
    requires i < |ms| && HasRequestId(ms[i]) && Registered(ms[..i], requestMap, responseMap)
    ensures Registered(ms[..i + 1], requestMap.Set(ms[i].requestId.value, Some(ms[i].id)),
                       responseMap.Set(ms[i].id, ms[i].requestId.value))
  {
    RegisterKeys(ms, i, requestMap, Some(ms[i].id));
    RegisterValues(ms, i, requestMap.values);
  }

  /** A record without `requestId` answers nothing: every stored response stays the last one. */
  lemma LoneKeepsValues(ms: seq<Meta>, i: nat, values: map<string, Option<string>>)
    requires i < |ms| && !HasRequestId(ms[i])
    requires forall k :: k in values ==> values[k] == LastResponder(ms[..i], k)
    ensures forall k :: k in values ==> values[k] == LastResponder(ms[..i + 1], k)
  {
    PrefixStep(ms, i);
  }

  /** A record without `requestId` (app.js:47-49) keeps the maps registered. */
  lemma RegisterLone(ms: seq<Meta>, i: nat, requestMap: OrderedMap<string, Option<string>>,
                     responseMap: OrderedMap<string, string>)
    requires i < |ms| && !HasRequestId(ms[i]) && Registered(ms[..i], requestMap, responseMap)
    ensures !requestMap.Has(ms[i].id) ==>
              Registered(ms[..i + 1], requestMap.Set(ms[i].id, None), responseMap)
    ensures requestMap.Has(ms[i].id) ==> Registered(ms[..i + 1], requestMap, responseMap)
  {
    var id := ms[i].id;
    LoneKeepsValues(ms, i, requestMap.values);
    if requestMap.Has(id) {
      RegisterKeys(ms, i, requestMap, requestMap.values[id]);
    } else {
      RegisterKeys(ms, i, requestMap, None);
      assert id !in Dedup(RegKeys(ms[..i]));
      NoKeyNoResponder(ms[..i], id);
      PrefixStep(ms, i);
    }
  }

  /** app.js:39-59: fill the two maps, emit the request entries, then the orphan responses. */
  method Correlate(metas: seq<Meta>) returns (tuples: seq<Pair>)
    ensures tuples == ExpectedPairs(metas)
  {
    tuples := [];
    var requestMap: OrderedMap<string, Option<string>> := Empty();
    var responseMap: OrderedMap<string, string> := Empty();
    for i := 0 to |metas|
      invariant Registered(metas[..i], requestMap, responseMap)
    {
      var meta := metas[i];
      if HasRequestId(meta) {
        RegisterResponse(metas, i, requestMap, responseMap);
        requestMap := requestMap.Set(meta.requestId.value, Some(meta.id));
        responseMap := responseMap.Set(meta.id, meta.requestId.value);
      } else {
        RegisterLone(metas, i, requestMap, responseMap);
        if !requestMap.Has(meta.id) {
          requestMap := requestMap.Set(meta.id, None);
        }
      }
    }
    assert metas[..|metas|] == metas;

    for p := 0 to |requestMap.keys|
      invariant |tuples| == p
      invariant forall q :: 0 <= q < p ==>
        tuples[q] == Pair(Some(requestMap.keys[q]), requestMap.values[requestMap.keys[q]])
    {
      var reqId := requestMap.keys[p];
      tuples := tuples + [Pair(Some(reqId), requestMap.values[reqId])];
    }
    assert tuples == ExpectedPairs(metas);

    for p := 0 to |responseMap.keys|
      invariant tuples == ExpectedPairs(metas)
    {
      var resId := responseMap.keys[p];
      var reqId := responseMap.values[resId];
      assert reqId in requestMap.keys;
      var q :| 0 <= q < |requestMap.keys| && requestMap.keys[q] == reqId;
      assert tuples[q].req == Some(reqId);
      if FirstIndex(tuples, (t: Pair) => t.req == Some(reqId)).None? {
        tuples := tuples + [Pair(None, Some(resId))];
      }
    }
  }

  // ---------------------------------------------------------------------
  // What the emitted tuples are

  ghost predicate InSomePair(pairs: seq<Pair>, x: string)
  {
    exists p :: 0 <= p < |pairs| && (pairs[p].req == Some(x) || pairs[p].res == Some(x))
  }

  /** Record `i` is the last one answering the request it names. */
  ghost predicate IsLastResponse(ms: seq<Meta>, i: int)
  {
    0 <= i < |ms| && HasRequestId(ms[i]) && IsLastResponder(ms, ms[i].requestId.value, i)
  }

  /** Every tuple has a request side, and no two tuples share it. */
  lemma PairsDistinctRequests(ms: seq<Meta>)
    ensures forall p :: 0 <= p < |ExpectedPairs(ms)| ==> ExpectedPairs(ms)[p].req.Some?
    ensures forall p, q :: 0 <= p < q < |ExpectedPairs(ms)| ==> ExpectedPairs(ms)[p].req != ExpectedPairs(ms)[q].req
  {
    DedupMembers(RegKeys(ms));
  }

  /** A tuple `[k, _]` exists exactly when some record registers `k`. */
  lemma PairForEveryRegistration(ms: seq<Meta>, k: string)
    ensures (exists p :: 0 <= p < |ExpectedPairs(ms)| && ExpectedPairs(ms)[p].req == Some(k))
        <==> (exists i :: 0 <= i < |ms| && RegKey(ms[i]) == k)
  {
    var keys := Dedup(RegKeys(ms));
    DedupMembers(RegKeys(ms));
    if exists i :: 0 <= i < |ms| && RegKey(ms[i]) == k {
      var i :| 0 <= i < |ms| && RegKey(ms[i]) == k;
      assert RegKeys(ms)[i] == k;
      assert k in keys;
      var p :| 0 <= p < |keys| && keys[p] == k;
      assert ExpectedPairs(ms)[p].req == Some(k);
    }
    if exists p :: 0 <= p < |ExpectedPairs(ms)| && ExpectedPairs(ms)[p].req == Some(k) {
      var p :| 0 <= p < |ExpectedPairs(ms)| && ExpectedPairs(ms)[p].req == Some(k);
      assert keys[p] in RegKeys(ms);
      var i :| 0 <= i < |ms| && RegKeys(ms)[i] == k;
      assert RegKey(ms[i]) == k;
    }
  }

  /**
   * The response side of the tuple for key `k` is the id of the last record
   * naming `k`, and null when no record names it; earlier responders to `k`
   * are overwritten.
   */
  lemma PairResponseIsLastResponder(ms: seq<Meta>, p: nat)
    requires p < |ExpectedPairs(ms)|
    ensures var k := ExpectedPairs(ms)[p].req.value;
      && (ExpectedPairs(ms)[p].res.None? <==> forall i :: 0 <= i < |ms| ==> !Responds(ms[i], k))
      && (forall i :: IsLastResponder(ms, k, i) ==> ExpectedPairs(ms)[p].res == Some(ms[i].id))
  {
    LastResponderCharacterized(ms, Dedup(RegKeys(ms))[p]);
  }

  /**
   * Tuples come out in order of first registration: whenever the key of a
   * later tuple has been registered by the first `n` records, so has the key
   * of every earlier tuple.
   */
  lemma PairsInRegistrationOrder(ms: seq<Meta>, p: nat, q: nat, n: nat)
    requires p < q < |ExpectedPairs(ms)| && n <= |ms|
    requires ExpectedPairs(ms)[q].req.value in RegKeys(ms[..n])
    ensures ExpectedPairs(ms)[p].req.value in RegKeys(ms[..n])
  {
    assert RegKeys(ms)[..n] == RegKeys(ms[..n]);
    DedupOrder(RegKeys(ms), p, q, n);
  }

  /**
   * The ids that reach some tuple: every registered key, and the id of each
   * record that is the last to answer its request. Nothing else; in
   * particular a responder overwritten by a later one drops out unless it
   * registers a key of its own.
   */
  lemma IdsInPairs(ms: seq<Meta>, x: string)
    ensures InSomePair(ExpectedPairs(ms), x) <==>
              (exists i :: 0 <= i < |ms| && RegKey(ms[i]) == x) ||
              (exists i :: IsLastResponse(ms, i) && ms[i].id == x)
  {
    var pairs, keys := ExpectedPairs(ms), Dedup(RegKeys(ms));
    DedupMembers(RegKeys(ms));
    PairForEveryRegistration(ms, x);
    if InSomePair(pairs, x) {
      var p :| 0 <= p < |pairs| && (pairs[p].req == Some(x) || pairs[p].res == Some(x));
      if pairs[p].req != Some(x) {
        LastResponderCharacterized(ms, keys[p]);
        var i :| IsLastResponder(ms, keys[p], i) && ms[i].id == x;
        assert IsLastResponse(ms, i);
      }
    }
    if exists i :: IsLastResponse(ms, i) && ms[i].id == x {
      var i :| IsLastResponse(ms, i) && ms[i].id == x;
      var k := ms[i].requestId.value;
      assert RegKeys(ms)[i] == k;
      assert k in keys;
      var p :| 0 <= p < |keys| && keys[p] == k;
      LastResponderCharacterized(ms, k);
      assert pairs[p].res == Some(x);
    }
  }

  // ---------------------------------------------------------------------
  // Worked inputs

  /** Unfolds ExpectedPairs on a two-record input. */
  lemma ExpectedPairsOfTwo(m0: Meta, m1: Meta)
    ensures var k0, k1 := RegKey(m0), RegKey(m1);
            var ms := [m0, m1];
            ExpectedPairs(ms) ==
              if k0 == k1 then [Pair(Some(k0), LastResponder(ms, k0))]
              else [Pair(Some(k0), LastResponder(ms, k0)), Pair(Some(k1), LastResponder(ms, k1))]
  {
    var ms := [m0, m1];
    assert RegKeys(ms) == [RegKey(m0)] + [RegKey(m1)];
    assert [RegKey(m0)] == [] + [RegKey(m0)];
    DedupSnoc([], RegKey(m0));
    DedupSnoc([RegKey(m0)], RegKey(m1));
  }

  /** Unfolds LastResponder on a two-record input. */
  lemma LastResponderOfTwo(m0: Meta, m1: Meta, k: string)
    ensures LastResponder([m0, m1], k) ==
              if Responds(m1, k) then Some(m1.id) else if Responds(m0, k) then Some(m0.id) else None
  {
    var ms, init := [m0, m1], [m0];
    assert ms[..|ms| - 1] == init;
    assert init[..|init| - 1] == [];
    assert LastResponder(init, k) == if Responds(m0, k) then Some(m0.id) else None;
  }

  /** A request followed by its response gives one tuple; the null is overwritten in place. */
  lemma RequestThenResponse()
    ensures ExpectedPairs([Meta("a", None), Meta("b", Some("a"))]) == [Pair(Some("a"), Some("b"))]
  {
    ExpectedPairsOfTwo(Meta("a", None), Meta("b", Some("a")));
    LastResponderOfTwo(Meta("a", None), Meta("b", Some("a")), "a");
  }

  /** A response seen before its request: the later request record does not reset the entry. */
  lemma ResponseThenRequest()
    ensures ExpectedPairs([Meta("b", Some("a")), Meta("a", None)]) == [Pair(Some("a"), Some("b"))]
  {
    ExpectedPairsOfTwo(Meta("b", Some("a")), Meta("a", None));
    LastResponderOfTwo(Meta("b", Some("a")), Meta("a", None), "a");
  }

  /** A lone record gives a tuple with a null response side. */
  lemma LoneRecord()
    ensures ExpectedPairs([Meta("x", None)]) == [Pair(Some("x"), None)]
  {
  }

  /** A response to an id no record carries still yields a tuple keyed by that id. */
  lemma ResponseToMissingRequest()
    ensures ExpectedPairs([Meta("r2", Some("missing"))]) == [Pair(Some("missing"), Some("r2"))]
  {
  }

  /** Two responses to one request: the earlier responder `b` is in no tuple. */
  lemma EarlierResponderDropped()
    ensures ExpectedPairs([Meta("b", Some("a")), Meta("c", Some("a"))]) == [Pair(Some("a"), Some("c"))]
    ensures !InSomePair(ExpectedPairs([Meta("b", Some("a")), Meta("c", Some("a"))]), "b")
  {
    var ms := [Meta("b", Some("a")), Meta("c", Some("a"))];
    ExpectedPairsOfTwo(ms[0], ms[1]);
    LastResponderOfTwo(ms[0], ms[1], "a");
    assert ExpectedPairs(ms)[0] == Pair(Some("a"), Some("c"));
  }

  /** A chain a <- c <- b: `c` is the response of one tuple and the request of another. */
  lemma ChainSharesId()
    ensures ExpectedPairs([Meta("c", Some("a")), Meta("b", Some("c"))])
         == [Pair(Some("a"), Some("c")), Pair(Some("c"), Some("b"))]
  {
    ExpectedPairsOfTwo(Meta("c", Some("a")), Meta("b", Some("c")));
    LastResponderOfTwo(Meta("c", Some("a")), Meta("b", Some("c")), "a");
    LastResponderOfTwo(Meta("c", Some("a")), Meta("b", Some("c")), "c");
  }

  /** One id answering two requests appears as the response of two tuples. */
  lemma OneIdAnswersTwo()
    ensures var ps := ExpectedPairs([Meta("b", Some("a")), Meta("b", Some("c"))]);
            |ps| == 2 && ps[0].req != ps[1].req && ps[0].res == ps[1].res == Some("b")
  {
    ExpectedPairsOfTwo(Meta("b", Some("a")), Meta("b", Some("c")));
    LastResponderOfTwo(Meta("b", Some("a")), Meta("b", Some("c")), "a");
    LastResponderOfTwo(Meta("b", Some("a")), Meta("b", Some("c")), "c");
  }
}
