/**
 * The serialized form of a cassette: a sequence of `{request, response}`
 * records, and the store that a sequence of records rebuilds when its
 * records are written one after the other (last write wins).
 */
module Records {

  /** One persisted interaction. */
  datatype Record<Req, Resp> = Record(request: Req, response: Resp)

  /** The set of requests mentioned anywhere in `rs`. */
  function RequestsOf<Req, Resp>(rs: seq<Record<Req, Resp>>): set<Req>
  {
    set i | 0 <= i < |rs| :: rs[i].request
  }

  /** Appending a record adds its request to the requests mentioned. */
  lemma RequestsOfSnoc<Req, Resp>(rs: seq<Record<Req, Resp>>, x: Record<Req, Resp>)
    ensures RequestsOf(rs + [x]) == RequestsOf(rs) + {x.request}
  {
    var ext := rs + [x];
    assert ext[|rs|] == x;
    forall q | q in RequestsOf(rs)
      ensures q in RequestsOf(ext)
    {
      var i :| 0 <= i < |rs| && rs[i].request == q;
      assert ext[i] == rs[i];
    }
  }

  /**
   * Writes the records of `rs` into the store `store`, first record first,
   * each one overwriting whatever the store held for its request.
   */
  function ApplyRecords<Req, Resp>(store: map<Req, Resp>, rs: seq<Record<Req, Resp>>): (r: map<Req, Resp>)
    ensures r.Keys == store.Keys + RequestsOf(rs)
    ensures forall q :: q in store && q !in RequestsOf(rs) ==> r[q] == store[q]
    decreases |rs|
  {
    if rs == [] then store
    else
      assert RequestsOf(rs) == {rs[0].request} + RequestsOf(rs[1..]);
      ApplyRecords(store[rs[0].request := rs[0].response], rs[1..])
  }

  /** Applying `rs + [x]` is applying `rs` and then overwriting with `x`. */
  lemma {:induction false} ApplyRecordsSnoc<Req, Resp>(store: map<Req, Resp>, rs: seq<Record<Req, Resp>>, x: Record<Req, Resp>)
    ensures ApplyRecords(store, rs + [x]) == ApplyRecords(store, rs)[x.request := x.response]
    decreases |rs|
  {
    if rs == [] {
      assert [x][1..] == [];
    } else {
      assert (rs + [x])[1..] == rs[1..] + [x];
      ApplyRecordsSnoc(store[rs[0].request := rs[0].response], rs[1..], x);
    }
  }

  /**
   * Last write wins: the response stored for a request is the one of the
   * last record that mentions it.
   */
  lemma {:induction false} LastWriteWins<Req, Resp>(store: map<Req, Resp>, rs: seq<Record<Req, Resp>>, i: nat)
    requires i < |rs|
    requires forall j :: i < j < |rs| ==> rs[j].request != rs[i].request
    ensures rs[i].request in ApplyRecords(store, rs)
    ensures ApplyRecords(store, rs)[rs[i].request] == rs[i].response
    decreases |rs|
  {
    if i == |rs| - 1 {
      ApplyRecordsSnoc(store, rs[..i], rs[i]);
      assert rs[..i] + [rs[i]] == rs;
    } else {
      var last := rs[|rs| - 1];
      var front := rs[..|rs| - 1];
      assert front + [last] == rs;
      ApplyRecordsSnoc(store, front, last);
      LastWriteWins(store, front, i);
    }
  }

  /**
   * `rs` lists exactly the pairs of `m`: every record agrees with `m`,
   * every request of `m` appears, and no request appears twice.
   */
  ghost predicate Listing<Req, Resp>(rs: seq<Record<Req, Resp>>, m: map<Req, Resp>)
  {
    && RequestsOf(rs) == m.Keys
    && (forall i :: 0 <= i < |rs| ==> rs[i].request in m && m[rs[i].request] == rs[i].response)
    && (forall i, j :: 0 <= i < j < |rs| ==> rs[i].request != rs[j].request)
  }

  /** Requests that never repeat are as many as the records that carry them. */
  lemma {:induction false} DistinctRequestsCount<Req, Resp>(rs: seq<Record<Req, Resp>>)
    requires forall i, j :: 0 <= i < j < |rs| ==> rs[i].request != rs[j].request
    ensures |RequestsOf(rs)| == |rs|
    decreases |rs|
  {
    if rs != [] {
      var tail := rs[1..];
      assert RequestsOf(rs) == {rs[0].request} + RequestsOf(tail);
      forall k | 0 <= k < |tail|
        ensures tail[k].request != rs[0].request
      {
        assert tail[k] == rs[k + 1];
      }
      assert rs[0].request !in RequestsOf(tail);
      DistinctRequestsCount(tail);
    }
  }

  /** A listing holds exactly one record per stored pair. */
  lemma ListingLength<Req, Resp>(rs: seq<Record<Req, Resp>>, m: map<Req, Resp>)
    requires Listing(rs, m)
    ensures |rs| == |m|
  {
    DistinctRequestsCount(rs);
    assert |m| == |m.Keys|;
  }

  /**
   * Writing records that all agree with `m` into a part of `m`, when
   * together they cover `m`, rebuilds exactly `m`, whatever their order.
   */
  lemma {:induction false} ApplyAgreeing<Req, Resp>(acc: map<Req, Resp>, rs: seq<Record<Req, Resp>>, m: map<Req, Resp>)
    requires forall q :: q in acc ==> q in m && acc[q] == m[q]
    requires forall i :: 0 <= i < |rs| ==> rs[i].request in m && m[rs[i].request] == rs[i].response
    requires acc.Keys + RequestsOf(rs) == m.Keys
    ensures ApplyRecords(acc, rs) == m
    decreases |rs|
  {
    if rs != [] {
      assert RequestsOf(rs) == {rs[0].request} + RequestsOf(rs[1..]);
      ApplyAgreeing(acc[rs[0].request := rs[0].response], rs[1..], m);
    }
  }

  /** Round trip: deserializing a listing of `m` into an empty store gives back `m`. */
  lemma {:induction false} DeserializeListing<Req, Resp>(rs: seq<Record<Req, Resp>>, m: map<Req, Resp>)
    requires Listing(rs, m)
    ensures ApplyRecords(map[], rs) == m
    ensures |rs| == |m|
  {
    ApplyAgreeing(map[], rs, m);
    ListingLength(rs, m);
  }
}
