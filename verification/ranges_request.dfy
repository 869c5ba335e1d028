/**
 The query parameters of the ranges request built by `GetRevisionsByRanges`.
 Only the parameter map is modelled; the method, path, body serialisation
 and the exchange itself belong to the HTTP connection. Go strings are byte
 strings, so parameter values are `seq<byte>`.
 */
module RangesRequest {
  import opened GoTypes
  import opened RevisionCodec

  type QueryParams = map<string, seq<byte>>

  /** The query of one ranges request: the batch and collection always, and
      the resume cursor, in encoded form, only when it is positive. */
  function RangesQuery(batchId: seq<byte>, collection: seq<byte>, resume: int64): (q: QueryParams)
    ensures "batchId" in q && q["batchId"] == batchId
    ensures "collection" in q && q["collection"] == collection
    ensures "resume" in q <==> resume > 0
    ensures "resume" in q ==> q["resume"] == Encode(resume)
    ensures "resume" in q ==> Decode(q["resume"]) == resume && 1 <= |q["resume"]| <= 11
    ensures forall key :: key in q ==> key in {"batchId", "collection", "resume"}
  {
    var base := map["batchId" := batchId, "collection" := collection];
    if resume > 0 then
      RoundTrip(resume);
      base["resume" := Encode(resume)]
    else
      base
  }

  /** A request with a non-positive cursor is indistinguishable from the
      first request of a walk. */
  lemma NonPositiveCursorIsOmitted(batchId: seq<byte>, collection: seq<byte>, resume: int64)
    requires resume <= 0
    ensures RangesQuery(batchId, collection, resume) == RangesQuery(batchId, collection, 0)
  {
  }
}
