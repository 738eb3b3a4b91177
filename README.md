# Cassette: record/replay store for outbound interactions

This project models the cassette of vcrpy (`vcr/cassette.py`, class
`Cassette`) in Dafny and proves properties of the model. A cassette is the
in-memory store behind record/replay testing. It has three parts:

- a map from request to response (`requests`), with at most one response
  per request, where a later `append` for a request overwrites the earlier
  response;
- a replay counter per request (`playCounts`), where a request that was never
  marked counts as 0, and its aggregate `PlayCount()`;
- a conversion between the map and a sequence of `{request, response}`
  records (`Serialize` / `Deserialize`), used by the storage layer.

Requests and responses are opaque values compared only for equality, so they
are the type parameters `Req` and `Resp`.

Files and modules:

- `wrappers.dfy`, module `Wrappers`: `Option`.
- `records.dfy`, module `Records`: the `Record` datatype; `ApplyRecords`,
  the store a sequence of records rebuilds when written in order with the last
  write winning; `Listing`, "this sequence lists exactly the pairs of this
  map"; and the round-trip lemmas.
- `play_counts.dfy`, module `PlayCounts`: the zero-default counter accessor
  `CountIn`, the sum `SumCounts` over a counter map, and `Tallies`, which says
  the counters count the occurrences of each request in a history of calls.
- `cassette.dfy`, module `Cassettes`: the class `Cassette`. Its fields
  `requests` and `playCounts` are updated in place by `Append`, `MarkPlayed`
  and `Deserialize`. A ghost field `played` records every request passed to
  `MarkPlayed`. `Valid()` states that the counters tally `played`, so
  `PlayCount()` is the number of `MarkPlayed` calls since construction.

Storage is not modelled as I/O. `Cassette.Load` takes
`Option<seq<Record>>` in place of the result of reading the cassette file.
`None` stands for any `IOError` raised while reading (a missing file, but also an
unreadable one); either way the result is an empty cassette at the same path.

## Model

| member | source | states |
|---|---|---|
| Cassettes.Cassette.constructor | vcr/cassette.py:24-29 | a new cassette keeps its path and has no replays; with absent or empty data its store is empty, otherwise it is the store the data's records rebuild in order |
| Cassettes.Cassette.Load | vcr/cassette.py:16-22 | loading from stored records gives the store they rebuild; when reading raised any `IOError` (a missing or an unreadable file) it gives an empty cassette at the same path, not an error; play count is 0 either way |
| Cassettes.Cassette.Serialize | vcr/cassette.py:35-40 | the output lists exactly the stored pairs: one record per stored request, no request twice, every record agreeing with the store, so its length is `Len()` |
| Cassettes.Cassette.Deserialize | vcr/cassette.py:42-45 | the new store is the old one with the records written in sequence order (later records win); counters untouched, so the counter invariant `Valid()` is preserved |
| Cassettes.Cassette.PlayCount | vcr/cassette.py:47-49 | in a valid cassette, the aggregate play count equals the number of `MarkPlayed` calls since construction |
| Cassettes.Cassette.PlayCountOf | vcr/cassette.py:51-55 | in a valid cassette, a request's counter equals the number of `MarkPlayed` calls for that request, so 0 for one never marked |
| Cassettes.Cassette.MarkPlayed | vcr/cassette.py:51-55 | the request's counter goes up by exactly 1 (from 0 if never marked), whether or not the request is stored; every other counter and the store are unchanged; the aggregate grows by exactly 1 |
| Cassettes.Cassette.Append | vcr/cassette.py:57-59 | afterwards the request is contained and its response is the new one (overwriting any earlier one); every other request's entry and all counters are unchanged, so `Valid()` is preserved; `Len()` grows by 1 for a new request and stays the same for a stored one |
| Cassettes.Cassette.Response | vcr/cassette.py:61-63 | returns the stored response; returns `None` exactly when the request is not stored (the missing-key error) |
| Cassettes.Cassette.Len | vcr/cassette.py:68-70 | the number of distinct stored requests; 0 exactly for an empty store |
| Cassettes.Cassette.Contains | vcr/cassette.py:72-74 | true exactly when `Response` finds a stored response |
| Cassettes.ReloadSaved | vcr/cassette.py:16-45 | serializing a cassette and loading the result at its path gives a fresh cassette with the same request/response map, the same size and no replays |
| Records.ApplyRecords | vcr/cassette.py:42-45 | the rebuilt store holds the old keys plus every request mentioned in the records; a key no record mentions keeps its old response |
| Records.ApplyRecordsSnoc | vcr/cassette.py:42-45 | records are applied in order: applying `rs + [x]` is applying `rs` and then overwriting `x.request` with `x.response` |
| Records.LastWriteWins | vcr/cassette.py:42-45 | the response stored for a request is the one in the last record that mentions it |
| Records.RequestsOfSnoc | vcr/cassette.py:35-40 | adding a record to a serialized sequence adds exactly its request to the requests it mentions |
| Records.DistinctRequestsCount | vcr/cassette.py:35-40 | records whose requests never repeat are as many as the distinct requests they carry |
| Records.ListingLength | vcr/cassette.py:35-40 | a sequence listing a store holds exactly one record per stored pair |
| Records.ApplyAgreeing | vcr/cassette.py:35-45 | writing records that agree with a map and cover it, in any order and with repeats, into a part of that map rebuilds exactly the map |
| Records.DeserializeListing | vcr/cassette.py:35-45 | round trip: deserializing any listing of a store into an empty store reproduces the store, and the listing's length is the store's size |
| PlayCounts.SumCountsRemove | vcr/cassette.py:47-49 | the aggregate is one counter plus the sum of all the others, for any counter |
| PlayCounts.SumCountsUpdate | vcr/cassette.py:47-55 | setting one counter moves the aggregate by the difference between the new and the old value (old value 0 when the counter was absent) |
| PlayCounts.SumCountsZero | vcr/cassette.py:47-49 | counters that are all zero give an aggregate of zero |
| PlayCounts.TalliesAt | vcr/cassette.py:51-55 | counters that tally a history give every request, marked or not, its number of occurrences in that history |
| PlayCounts.TalliesMark | vcr/cassette.py:51-55 | bumping one counter by one keeps the counters tallying the history extended by that request |
| PlayCounts.TalliesSum | vcr/cassette.py:47-55 | counters that tally a history sum to the length of that history: the aggregate is the total number of marks |

## Left out

- `save` (vcr/cassette.py:31-33) and the file I/O of `load_cassette` / `save_cassette`: durable storage is reading and writing files. `Load` takes the storage result as a parameter instead, and `ReloadSaved` stands for a save followed by a load.
- `__enter__` / `__exit__` and `install` / `reset` (vcr/cassette.py:76-83): they install and remove a process-wide patch of network libraries, which cannot be seen from this file.
- The `Counter` import fallback (vcr/cassette.py:5-8): the counter is a `map<Req, nat>` with the zero-default accessor `CountIn`.
- `__str__` (vcr/cassette.py:65-66): presentation only.
- The iteration order of the dict in `serialize`: it is unspecified, so `Serialize` picks keys in an arbitrary order and its contract is stated as set and map equality, not as a fixed sequence.
- Cassettes.Cassette.PlayCount: a ghost function, not executable code. Summing the values of a map whose keys have an arbitrary type means picking keys one at a time, and a compiled function may only make a choice that is unique. An executable method with a loop could compute the sum; the model states the total as a function instead.
- Cassettes.Cassette.Response: a missing key, where the source raises `KeyError`, is modelled as the result `None`. A caller that does not handle `None` stands for a caller that lets the exception propagate.
- Stored records are assumed to be well-formed `{request, response}` pairs. A malformed record raises `KeyError` or `TypeError` part-way through the loop in `deserialize` (vcr/cassette.py:44-45), leaves the earlier records applied, and escapes `load`, which catches only `IOError`; this is not modelled.
- Python truthiness in `if data:` is modelled only for the values storage can return: an absent result (`None`) and the empty record list.
