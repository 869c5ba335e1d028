/**
 The JSON form of a revision (`RevisionInt64.MarshalJSON` and
 `UnmarshalJSON`): the encoded revision inside a JSON string. Both Go methods
 also return an `error`, which is always nil; the model returns the value
 alone.
 */
module RevisionJson {
  import opened GoTypes
  import opened RevisionTables
  import opened RevisionCodec

  /** `MarshalJSON`: a quoted string holding the encoded revision; zero (and,
      because the encoder writes nothing for them, every negative revision)
      becomes the empty JSON string. */
  function MarshalJSON(n: int64): (r: seq<byte>)
    ensures |r| >= 2 && r[0] == Quote && r[|r| - 1] == Quote
    ensures r[1..|r| - 1] == Encode(n)
    ensures n <= 0 <==> r == [Quote, Quote]
    ensures n > 0 ==> |r| <= 13
  {
    if n == 0 then [Quote, Quote] else [Quote] + Encode(n) + [Quote]
  }

  /** `UnmarshalJSON`: decode the bytes as they arrive. The quotes of a JSON
      string need no special handling because the decoder skips every quote:
      a JSON string decodes as its content. */
  function UnmarshalJSON(revision: seq<byte>): (n: int64)
    ensures n == Decode(Unquoted(revision))
    ensures |revision| >= 2 && revision[0] == Quote && revision[|revision| - 1] == Quote ==>
              n == Decode(revision[1..|revision| - 1])
  {
    UnquotedDecodesAlike(revision);
    if |revision| >= 2 && revision[0] == Quote && revision[|revision| - 1] == Quote then
      var inner := revision[1..|revision| - 1];
      assert revision == [Quote] + inner + [Quote];
      QuotedDecodesAsBare(inner);
      Decode(revision)
    else
      Decode(revision)
  }

  /** Unmarshalling what was marshalled restores every non-negative revision;
      a negative one comes back as 0. */
  lemma MarshalRoundTrip(n: int64)
    ensures UnmarshalJSON(MarshalJSON(n)) == if n >= 0 then n else 0
  {
    if n >= 0 {
      RoundTrip(n);
    }
  }
}
