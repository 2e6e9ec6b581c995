# Event correlation and aggregation pipeline

This project models the core of the case-event viewer in Dafny. For one case, the viewer:

- loads the metadata records of the case;
- pairs requests with their responses;
- fetches the full event details in batches of 100 identifiers;
- merges the batches into one list, newest first;
- indexes everything by identifier for the page.

The pipeline sits in `app.js:39-99`. It is modelled module by module:

- `Correlator` (`correlator.dfy`): the two insertion-ordered maps `requestMap` / `responseMap` and the tuples emitted from them (`app.js:39-59`). `Correlate` is the imperative loop, written over `OrderedMaps.OrderedMap`. That type is a JavaScript `Map` with its insertion order: `set` on a present key keeps the key's position (section 23.1.3.9 of ECMA-262). The loop is proved equal to `ExpectedPairs`. That reference definition pairs every registered request key, deduplicated in first-registration order, with the id of the last record that answered it. Each record registers exactly one key: its truthy `requestId` if it has one, otherwise its own `id`.
- `BatchPlanner` (`batch_planner.dfy`): covers three things.
  - The identifier list `tuples.flat().filter(Boolean)` (`app.js:72`). It keeps order and duplicates, and drops null and empty identifiers.
  - `chunkArray` (`app.js:63-69`), as a loop over slices.
  - `BATCH_SIZE` (`app.js:61`).
- `DetailMerger` (`detail_merger.dfy`): the concatenation of the batch results in issue order (`app.js:88`). It is followed by the stable sort on `eventDate`, descending (`app.js:89`). The sort works in place on an `array`. It is specified by `SortedByDate`, a stable insertion sort on sequences. Any stable non-increasing sort of the same input is proved equal to `SortedByDate`.
- `AggregateBuilder` (`aggregate_builder.dfy`): the `forEach` loops that fill `eventMap` and `metaMap` (`app.js:91-99`), where the last write wins. It also has `BuildAggregate`, the whole pipeline from metadata to the aggregate. The detail service is a function parameter `fetch`, applied to each batch by position.
- `ClientRules` (`client_rules.dfy`): two rules of the script embedded in the page.
  - The tuple and side chosen for a clicked event (`showModal`, `app.js:361-365`).
  - The class and label of the status badge (`app.js:418-441`).
- `Records`, `OrderedMaps`, `Seqs`, `Wrappers`: the records and the JavaScript built-ins the pipeline uses.
  - `Array.prototype.find` is `FirstIndex`.
  - `flatMap` with the identity (`app.js:88`) is `Flatten`; `tuples.flat()` (`app.js:72`) is `BatchPlanner.FlatPairs`.

`eventDate` is an integer timestamp: the date string is already parsed. A null tuple side and an absent or null `requestId` are `None` in an `Option`. For `status`, `None` stands for an absent status only; a `null` status is not modelled (see "## Left out").

## Model

| member | source | states |
|---|---|---|
| Correlator.Correlate | app.js:39-59 | The emitted tuples are exactly `ExpectedPairs(metas)`: the `requestMap` entries in first-insertion order. The orphan loop over `responseMap` never appends, because every response's request id is already a request key. |
| OrderedMaps.OrderedMap.Set | app.js:44-48 | `Map.set` keeps the map well formed and stores the value. A present key keeps its place in the key order; a new key goes to the end. |
| OrderedMaps.OrderedMap.Has | app.js:47 | `requestMap.has(id)` holds exactly when `id` is one of the map's keys. |
| OrderedMaps.Empty | app.js:40-41 | A new `Map` is well formed and has no keys. |
| Correlator.RegisterResponse | app.js:44-46 | A record with a truthy `requestId` keeps both maps consistent with the records so far. The request id stays at its first-registration place, now mapped to this record's `id`, and this `id` points back at it. |
| Correlator.RegisterLone | app.js:47-49 | A record without `requestId` adds its `id` with a null response only when the key is new. A key already present keeps its place and value. |
| Correlator.LastResponderCharacterized | app.js:44-46 | The response id stored for a request key is the `id` of the last record whose truthy `requestId` names it. It is null exactly when no record names it. |
| Correlator.PairsDistinctRequests | app.js:52-54 | Every tuple has a non-null request side, so no tuple is null on both sides. No two tuples have the same request side. |
| Correlator.PairForEveryRegistration | app.js:43-54 | A tuple with request side `k` exists if and only if some record registers `k`: a truthy `requestId` equal to `k`, or no `requestId` and `id` equal to `k`. |
| Correlator.PairResponseIsLastResponder | app.js:43-54 | A tuple's response side is null exactly when no record names its request id. Otherwise it is the `id` of the last record that does. |
| Correlator.PairsInRegistrationOrder | app.js:43-54 | Tuples appear in the order their request keys were first registered. If a later tuple's key is registered within the first `n` records, so is every earlier tuple's key. |
| Correlator.IdsInPairs | app.js:43-59 | An identifier appears in some tuple exactly when some record registers it, or it is the `id` of the last record naming some request. So an earlier responder to a request appears in no tuple, unless that id registers a key itself or is the last responder to another request. |
| Correlator.RequestThenResponse | app.js:43-54 | A request record followed by its response gives the single tuple `[a, b]`. |
| Correlator.ResponseThenRequest | app.js:43-54 | A response that arrives before its request gives the same single tuple `[a, b]`. The later request record does not reset the response to null. |
| Correlator.LoneRecord | app.js:47-49 | A record without `requestId` that nothing answers gives `[id, null]`. |
| Correlator.ResponseToMissingRequest | app.js:44-46 | A response whose request is absent still gives `[requestId, id]`. |
| Correlator.EarlierResponderDropped | app.js:44-46 | Two responses to `a` give only `[a, c]`. The earlier responder `b` appears in no tuple. |
| Correlator.ChainSharesId | app.js:43-54 | In the chain a ← c ← b, `c` appears in two tuples: as the response of `a` and as the request of `b`. |
| Correlator.OneIdAnswersTwo | app.js:43-54 | One `id` that answers two requests appears as the response side of two tuples. |
| BatchPlanner.FlatPairs | app.js:72 | `tuples.flat()` has two entries per tuple; `BatchPlanner.FlatPairsLayout` places each of them. |
| BatchPlanner.KeepTruthy | app.js:72 | `filter(Boolean)` never lengthens the list and keeps no empty identifier. `BatchPlanner.KeepTruthyCounts` gives the exact counts, and `BatchPlanner.KeepTruthyAppend` gives the order. |
| BatchPlanner.EventIds | app.js:72 | The requested identifiers number at most two per tuple and include no empty one. `BatchPlanner.EventIdsAppend` and `BatchPlanner.EventIdsOfOne` fix their order. |
| BatchPlanner.FlatPairsLayout | app.js:72 | `flat` lays the tuples out as request, response, request, response, …, in tuple order. |
| BatchPlanner.KeepTruthyCounts | app.js:72 | `filter(Boolean)` keeps every non-empty identifier as many times as it occurs, and drops null. |
| BatchPlanner.KeepTruthyAppend | app.js:72 | `filter(Boolean)` keeps order: filtering a concatenation is concatenating the filtered parts. |
| BatchPlanner.FlatPairsAppend | app.js:72 | `flat` keeps tuple order: the sides of earlier tuples come first. |
| BatchPlanner.EventIdsAppend | app.js:72 | The identifiers of earlier tuples are requested before those of later tuples. |
| BatchPlanner.EventIdsOfOne | app.js:72 | One tuple contributes its truthy request side, then its truthy response side. Together with `EventIdsAppend` this determines the whole list. |
| BatchPlanner.EventIdsMembers | app.js:72 | An identifier is requested if and only if it is non-empty and sits on one side of some tuple. |
| BatchPlanner.EventIdsKeepDuplicates | app.js:72 | An identifier is requested as many times as it occurs on tuple sides: there is no deduplication. |
| BatchPlanner.ChainRequestsTwice | app.js:72 | For the chain a ← c ← b the identifiers are `a, c, c, b`. |
| BatchPlanner.NullSidesDropped | app.js:72 | Null and empty sides are dropped and the order is kept. |
| BatchPlanner.ChunkArray | app.js:63-69 | The chunks concatenate back to the input. Each is non-empty and at most `size` long, and all but the last are exactly `size` long. There are ceil(n / size) of them, and none for empty input. |
| BatchPlanner.ChunkingUnique | app.js:63-69 | These properties determine the chunks: two splittings that both satisfy them are equal. |
| BatchPlanner.TwoHundredFiftyIds | app.js:61-76 | With `BATCH_SIZE` = 100, 250 identifiers go out as three batches of 100, 100 and 50. |
| DetailMerger.SortedByDateSorted | app.js:89 | The sorted details are non-increasing in `eventDate` and are a permutation of the input. |
| DetailMerger.SortedByDateTies | app.js:89 | Details with the same `eventDate` keep their input order. |
| DetailMerger.SortedByDateProps | app.js:89 | `SortedByDate` is a stable non-increasing sort of its input. |
| DetailMerger.StableSortUnique | app.js:89 | Two non-increasing sequences that agree on the sub-sequence of each date are equal. So the stable sort has one result. |
| DetailMerger.StableSortIsSortedByDate | app.js:89 | Every stable descending sort of the input equals `SortedByDate`. |
| DetailMerger.TieKeepsBatchOrder | app.js:78-89 | A two-batch instance of the tie rule: of two single-record batches with equal dates, the record from the earlier-issued batch comes first, whichever batch completes first. The general rule is `IsStableSortOf` in `DetailMerger.MergeDetails`. |
| DetailMerger.InsertIntoPrefix | app.js:89 | One pass of the in-place sort moves `a[i]` into the sorted prefix `a[..i]` at the place a stable insertion puts it. The rest of the array is unchanged. |
| DetailMerger.SortByDateDescending | app.js:89 | The array is sorted in place and afterwards holds `SortedByDate` of its old contents. |
| DetailMerger.MergeDetails | app.js:88-89 | The merged details are the batch results concatenated in issue order, then stably sorted newest first. They are a permutation of the concatenation. |
| AggregateBuilder.IndexStep | app.js:92-94 | One `forEach` assignment turns the index of a prefix into the index of the prefix extended by one record. |
| AggregateBuilder.IndexBy | app.js:91-99 | The keys of the built object are exactly the keys of the records. Each key maps to the last record with that key. |
| AggregateBuilder.LastWriteIndexUnique | app.js:91-99 | The last-write-wins index of a list is unique, so building `eventMap` / `metaMap` twice from the same inputs gives identical maps. |
| AggregateBuilder.EventMapKeepsOldest | app.js:89-94 | Over the sorted details, `eventMap` keeps for each `eventId` the oldest of its duplicates. |
| AggregateBuilder.FetchAll | app.js:78-88 | Definition of `Promise.all` by position: one result per batch, the result at position `b` being the service's answer to batch `b`. Completion order is not modelled. |
| AggregateBuilder.FetchAllAppend | app.js:78-88 | The answers to earlier batches come first, and so do their details once the answers are concatenated (`flatMap`, app.js:88). |
| AggregateBuilder.BuildAggregate | app.js:39-99 | The whole pipeline: the tuples are `ExpectedPairs`, and the batches are the chunking of the identifier list into slices of 100 (the last one possibly shorter), which `BatchPlanner.ChunkingUnique` makes unique. The details are the stable newest-first sort of the batch results in issue order. Both maps are the last-write-wins indexes. |
| Seqs.FirstIndex | app.js:361 | `Array.prototype.find` stops at the first element that satisfies the predicate. It finds nothing exactly when no element does. |
| ClientRules.SelectPair | app.js:361-365 | The chosen tuple is the first one holding the clicked id on either side. `isRequest` holds iff that tuple's first side is the clicked id. The clicked event is looked up for the request tab when `isRequest` and for the response tab otherwise, also when no tuple matches; in that case there is no request. |
| ClientRules.ChainClickShowsResponse | app.js:361-365 | In the chain a ← c ← b, clicking `c` shows it as the response of `a`. |
| ClientRules.IntToStringRoundTrip | app.js:433-437 | The number written into a status label reads back as the status. |
| ClientRules.Lookup | app.js:364-365 | Definition of the property read `eventMap[id]` on a string-keyed map: a null side or a missing id finds nothing. |
| ClientRules.LookupFindsLastDetail | app.js:364-365 | Over the `eventMap` built from the details, a clicked id finds a record exactly when some detail carries it. The record found carries that id and is the last detail with it. |
| ClientRules.RenderStatus | app.js:418-441 | An absent or zero status shows the bare `status` class and no text. Otherwise 1xx is a warning, 2xx a success, and every other non-zero status an error. The class and the label always name the same category, although the two chains test the ranges in different orders. A shown label is exactly the category word, the status number and `)`: it starts with the word, ends with the number and `)`, and has no other characters. |

## Left out

- Express routing, static files, the port, configuration loading and logging (`app.js:1-37`, `app.js:508-517`): these are I/O plumbing.
- The metadata GET and the batch POSTs with `Promise.all` (`app.js:35`, `app.js:78-86`): these are network and concurrency. The metadata list is an input. Each batch's result is `fetch(batch)`, taken by batch position, which is what `Promise.all` resolves to.
- A failing fetch and the HTTP 500 path (`app.js:509-512`): failures are not modelled; `fetch` always returns.
- `renderUrl` (`app.js:15-21`): it is a wrapper over `String.replace` with regular expressions.
- Date parsing (`new Date(...)`) and the `NaN` comparator for unparsable dates (`app.js:89`): `eventDate` is an integer timestamp.
- The HTML/CSS template, the `JSON.stringify` embedding and all other DOM code: formatting, highlighting, copying, tabs (`app.js:103-504`, apart from the two rules above).
- JavaScript's coercion of object keys to strings (`app.js:93`, `app.js:98`): keys are strings, so a literal `"null"` or `"undefined"` key is not modelled.
- The key order of the plain objects `eventMap` / `metaMap`: they are `map`s. The key order only decides the order of equal-date rows in the page's event list (`app.js:326-327`), which is left out with the DOM code.
- Correlator.Correlate: `requestMap` and `responseMap` are local values that the loop reassigns, not shared mutable objects. They never escape the handler, so no aliasing is lost.
- BatchPlanner.ChunkArray: the count ceil(n / size) is stated as the two bounds `n <= k * size` and `(k - 1) * size < n`, which determine it.
- ClientRules.IntToString: it writes the decimal digits that `String(n)` writes only for |n| < 10^21; above that JavaScript switches to exponent notation, which is not modelled.
- ClientRules.RenderStatus: the status is modelled as an optional integer. A numeric string such as `"200"` is compared by its numeric value and classified like the number, except that `"0"` is not `0` under `===` and shows `Error (0)`. `null` and non-numeric values fall to the error branch. A non-integer status such as `150.5` is shown as `Warning (150.5)`. None of these cases is modelled.
- AggregateBuilder.IndexBy, ClientRules.Lookup: the keys inherited from `Object.prototype` are not modelled. Assigning to `eventMap["__proto__"]` (`app.js:93`, `app.js:98`) creates no own key, so `JSON.stringify` drops that record. Reading `eventMap["constructor"]` or `eventMap["toString"]` (`app.js:364-365`) finds an inherited member where `Lookup` finds nothing. The model treats the object as a plain string-keyed `map`.

## What the code does not guarantee

- An identifier can drop out of every pair. When two records name the same request, the earlier responder is overwritten. It then appears in no pair, unless that id registers a key itself or is the last responder to another request (`Correlator.EarlierResponderDropped`, `Correlator.IdsInPairs`).
- An identifier can lie in two pairs. In a chain a ← c ← b, the middle id `c` is the response of `a` and the request of `b` (`Correlator.ChainSharesId`), and clicking it shows it as the response (`ClientRules.ChainClickShowsResponse`).
- One id can be the response of two pairs, when two records with that id name different requests (`Correlator.OneIdAnswersTwo`).
- The loop over `responseMap` (`app.js:55-59`) that would add `[null, id]` for an unmatched response never adds anything. Its request id is always already a request key (`Correlator.Correlate`).

Equal dates, on the other hand, are ordered deterministically. `Promise.all` resolves to its results by position, and the sort is stable. So records with equal dates keep batch-issue order, whichever batch completes first (`DetailMerger.TieKeepsBatchOrder`, `DetailMerger.MergeDetails`, `DetailMerger.StableSortUnique`).
