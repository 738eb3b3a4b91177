/**
 * The cassette: an in-memory store of request/response pairs with a
 * per-request replay counter, convertible to and from a sequence of
 * `{request, response}` records.
 */
module Cassettes {
  import opened Wrappers
  import opened Records
  import opened PlayCounts

  class Cassette<Req(==), Resp> {
    /** The storage location the cassette is saved to. */
    const path: string
    /** The recorded interactions: at most one response per request. */
    var requests: map<Req, Resp>
    /** Replay counters; a request absent from the map counts as 0. */
    var playCounts: map<Req, nat>
    /** Every request passed to MarkPlayed since construction, in call order. */
    ghost var played: seq<Req>

    /** The counters tally the calls of MarkPlayed. */
    ghost predicate Valid()
      reads this
    {
      Tallies(playCounts, played)
    }

    /**
     * A cassette at `path`, filled from `data` when data is present and
     * non-empty, with no replays.
     */
    constructor (path: string, data: Option<seq<Record<Req, Resp>>>)
      ensures Valid()
      ensures this.path == path
      ensures requests == if data.Some? then ApplyRecords(map[], data.value) else map[]
      ensures playCounts == map[] && played == []
    {
      this.path := path;
      requests := map[];
      playCounts := map[];
      played := [];
      new;
      if data.Some? && data.value != [] {
        Deserialize(data.value);
      }
    }

    /**
     * The cassette stored at `path`. `stored` is what storage returned for
     * that location; `None` stands for any `IOError` raised while reading it
     * (a missing file, but also an unreadable one), which yields an empty
     * cassette at `path` rather than an error.
     */
    static method Load(path: string, stored: Option<seq<Record<Req, Resp>>>) returns (c: Cassette<Req, Resp>)
      ensures fresh(c) && c.Valid()
      ensures c.path == path
      ensures stored.None? ==> c.requests == map[]
      ensures stored.Some? ==> c.requests == ApplyRecords(map[], stored.value)
      ensures c.playCounts == map[] && c.PlayCount() == 0
    {
      match stored
      case Some(records) =>
        c := new Cassette(path, Some(records));
      case None =>
        c := new Cassette(path, None);
    }

    /** One record per stored pair, in no particular order. */
    method Serialize() returns (records: seq<Record<Req, Resp>>)
      ensures Listing(records, requests)
      ensures |records| == Len()
    {
      records := [];
      var pending := requests.Keys;
      while pending != {}
        invariant pending <= requests.Keys
        invariant RequestsOf(records) == requests.Keys - pending
        invariant forall i :: 0 <= i < |records| ==> records[i].request in requests && requests[records[i].request] == records[i].response
        invariant forall i, j :: 0 <= i < j < |records| ==> records[i].request != records[j].request
        decreases pending
      {
        var q :| q in pending;
        RequestsOfSnoc(records, Record(q, requests[q]));
        records := records + [Record(q, requests[q])];
        pending := pending - {q};
      }
      ListingLength(records, requests);
    }

    /** Writes the records of `source` into the store in order; a later record for a request wins. */
    method Deserialize(source: seq<Record<Req, Resp>>)
      modifies this`requests
      ensures old(Valid()) ==> Valid()
      ensures requests == ApplyRecords(old(requests), source)
      ensures playCounts == old(playCounts) && played == old(played)
    {
      for i := 0 to |source|
        invariant requests == ApplyRecords(old(requests), source[..i])
      {
        ApplyRecordsSnoc(old(requests), source[..i], source[i]);
        assert source[..i + 1] == source[..i] + [source[i]];
        requests := requests[source[i].request := source[i].response];
      }
      assert source[..|source|] == source;
    }

    /** The total number of replays: the number of MarkPlayed calls since construction. */
    ghost function PlayCount(): (n: nat)
      reads this
      ensures Valid() ==> n == |played|
    {
      if Valid() then
        TalliesSum(playCounts, played);
        SumCounts(playCounts)
      else
        SumCounts(playCounts)
    }

    /** The number of replays of `request`, 0 when it was never marked. */
    function PlayCountOf(request: Req): (n: nat)
      reads this
      ensures Valid() ==> n == multiset(played)[request]
    {
      CountIn(playCounts, request)
    }

    /** Records one replay of `request`, whether or not it is stored. */
    method MarkPlayed(request: Req)
      requires Valid()
      modifies this`playCounts, this`played
      ensures Valid()
      ensures playCounts == old(playCounts)[request := old(PlayCountOf(request)) + 1]
      ensures played == old(played) + [request]
      ensures requests == old(requests)
      ensures PlayCountOf(request) == old(PlayCountOf(request)) + 1
      ensures playCounts - {request} == old(playCounts) - {request}
      ensures PlayCount() == old(PlayCount()) + 1
    {
      var bumped := CountIn(playCounts, request) + 1;
      TalliesMark(playCounts, played, request);
      playCounts := playCounts[request := bumped];
      played := played + [request];
    }

    /** Stores `response` for `request`, replacing any earlier response. */
    method Append(request: Req, response: Resp)
      modifies this`requests
      ensures old(Valid()) ==> Valid()
      ensures requests == old(requests)[request := response]
      ensures playCounts == old(playCounts) && played == old(played)
      ensures Contains(request) && Response(request) == Some(response)
      ensures requests - {request} == old(requests) - {request}
      ensures Len() == if old(Contains(request)) then old(Len()) else old(Len()) + 1
    {
      requests := requests[request := response];
    }

    /** The response stored for `request`; `None` when there is none (a missing key). */
    function Response(request: Req): (r: Option<Resp>)
      reads this
      ensures r.Some? <==> request in requests.Keys
      ensures r.Some? ==> r.value == requests[request]
    {
      if request in requests then Some(requests[request]) else None
    }

    /** The number of distinct stored requests. */
    function Len(): (n: nat)
      reads this
      ensures n == |requests.Keys|
      ensures n == 0 <==> requests == map[]
    {
      |requests|
    }

    /** Whether a response is stored for `request`. */
    predicate Contains(request: Req)
      reads this
      ensures Contains(request) <==> Response(request).Some?
    {
      request in requests
    }
  }

  /**
   * Saving a cassette and loading what was saved at its path gives a new
   * cassette with the same recorded interactions and no replays.
   */
  method ReloadSaved<Req, Resp>(c: Cassette<Req, Resp>) returns (copy: Cassette<Req, Resp>)
    ensures fresh(copy) && copy.Valid()
    ensures copy.path == c.path
    ensures copy.requests == c.requests && copy.Len() == c.Len()
    ensures copy.PlayCount() == 0
  {
    var saved := c.Serialize();
    copy := Cassette.Load(c.path, Some(saved));
    DeserializeListing(saved, c.requests);
  }
}
