# Revision codec and resumable range walk

A Dafny model of two parts of the Go driver's replication support.

- **The revision codec** (`revision.go`). A document revision is an `int64`. On the wire it is written as a
  big-endian base-64 numeral over the alphabet `-`, `_`, `A`–`Z`, `a`–`z`, `0`–`9`.
  - The model covers the two lookup tables, `encodeRevision`, `decodeRevision`, and the JSON methods of
    `RevisionInt64`.
  - It also covers the rule that the ranges request sends the `resume` cursor, encoded, only when it is positive.
- **The resumable range walk** (the `getRanges` loop of `test/revisions_test.go`). The walk asks for one range of
  revisions page by page. Each round sends the cursor the previous page returned, and collects the first row of
  every answer until a page comes back with cursor 0.

Modules, one per file:

| module | file | contents |
|---|---|---|
| `GoTypes` | `go_types.dfy` | `byte`, `int64`, and `Wrap64`, the wrap-around of Go's 64-bit arithmetic |
| `RevisionTables` | `revision_tables.dfy` | the encoding and decoding tables, with a closed-form description of the alphabet they are checked against |
| `RevisionCodec` | `revision_codec.dfy` | decoding as an exact fold plus one `Wrap64`; the source's loop that wraps at every step; encoding as a recursive digit string and as the source's 12-byte buffer loop; round trips, shortest form, length bounds |
| `RevisionJson` | `revision_json.dfy` | `MarshalJSON` and `UnmarshalJSON` |
| `RangesRequest` | `ranges_request.dfy` | the query parameters of the ranges request |
| `RangeWalk` | `range_walk.dfy` | the walk against a scripted page server, and its completeness against a paginating server |

The page server is a finite script: round `k` receives `replies[k]`. A reply is either a page or a failed round
trip. The walk terminates because each round consumes one scripted reply, so no page limit is needed. A request
beyond the end of the script ends the walk as `Unanswered`.

Where the code differs from the natural reading of its purpose, the model follows the code:
- **Quotes.** The decoder skips every `"` byte wherever it stands, not just one surrounding pair of quotes
  (`QuoteSkippedAnywhere`). Unmarshalling a JSON string works because of this, not because the quotes are stripped.
- **First row only.** The walk keeps only the first row (`Ranges[0]`) of every page, not one accumulator per
  requested range. A page with no rows at all would make Go index out of bounds; the model ends the walk with `NoRows`.
- **Negative values.** Every negative revision encodes to the empty string, like zero, because the encoding loop
  only runs while the value is positive. So `MarshalJSON` writes `""` for all of them.
- **Decoder overflow.** Decoding eleven symbols can overflow `int64`. `G----------` is 2^63 and decodes to the
  smallest `int64` (`HighBitNotRestored`). Nothing the encoder produces ever overflows (`RoundTrip`).

## Model

| member | source | states |
|---|---|---|
| `GoTypes.Wrap64` | revision.go:64-70 | the `int64` that Go's arithmetic yields is congruent to the exact result modulo 2^64, and equals it when it fits |
| `GoTypes.WrapCongruent` | revision.go:70 | wrapping depends only on the residue modulo 2^64, so wrapping after every operation agrees with wrapping once |
| `RevisionTables.DigitOf` | revision.go:43-60 | a byte's digit is in 0..63; for an alphabet symbol it is that symbol's position in the alphabet, and for any other byte it is 0 |
| `RevisionTables.SymbolOf` | revision.go:39-42 | the symbol of a digit is an alphabet byte, never the quote, and `DigitOf` maps it back to the digit |
| `RevisionTables.EncodingTableMatchesAlphabet` | revision.go:39-42 | the 64-entry encoding table lists `-`, `_`, `A`–`Z`, `a`–`z`, `0`–`9` in digit order |
| `RevisionTables.DecodingTableMatchesAlphabet` | revision.go:43-60 | every one of the 256 decoding-table entries is the alphabet position of its index, and 0 off the alphabet |
| `RevisionTables.EncodingTableIsSymbolOf` | revision.go:39-42 | the encoding table is `SymbolOf`, entry by entry |
| `RevisionTables.DecodingTableIsDigitOf` | revision.go:43-60 | the decoding table is `DigitOf` on every byte |
| `RevisionTables.SymbolsAreTheEncodingTable` | revision.go:39-42 | a byte is in the alphabet exactly when it occurs in the encoding table |
| `RevisionTables.TablesInverse` | revision.go:39-60 | `decodingTable[encodingTable[d]] == d` for every digit 0..63, so the 64 symbols are distinct |
| `RevisionTables.DecodingTableShape` | revision.go:43-60 | decoding-table values are below 64; bytes outside the alphabet look up to 0; bytes inside map back to themselves through the encoding table |
| `RevisionTables.QuoteIsNotASymbol` | revision.go:39-42 | the quote byte is not in the alphabet, so skipping it never drops a digit |
| `RevisionTables.AlphabetLandmarks` | revision.go:39-60 | `-`→0, `_`→1, `A`→2, `Z`→27, `a`→28, `z`→53, `0`→54, `9`→63, and the quote looks up to 0 |
| `RevisionCodec.DecodeValue` | revision.go:63-74 | the exact value of the decoder's fold over `k` bytes lies in [0, 64^k) |
| `RevisionCodec.Decode` | revision.go:63-74 | the decoder's `int64` result is the exact fold reduced modulo 2^64, and equals it when it fits |
| `RevisionCodec.DecodeRevision` | revision.go:63-74 | the loop that wraps after every multiplication and addition returns `Decode(revision)`, which for up to ten bytes is the exact value |
| `RevisionCodec.WrapMulAdd` | revision.go:70 | one decoding step on a wrapped accumulator gives the wrap of the exact step |
| `RevisionCodec.ShortInputsDoNotWrap` | revision.go:63-74 | decoding at most ten bytes never wraps |
| `RevisionCodec.DecodeIsPositional` | revision.go:63-74 | the decoder computes the positional base-64 value of the digits it reads, most significant first |
| `RevisionCodec.QuoteSkippedAnywhere` | revision.go:66-69 | inserting a quote byte at any position leaves the decoded value unchanged |
| `RevisionCodec.QuotedDecodesAsBare` | revision.go:66-69 | a numeral between two quotes decodes like the bare numeral |
| `RevisionCodec.ForeignByteReadsAsZero` | revision.go:43-70 | a non-quote byte outside the alphabet decodes exactly like `-` (digit 0) in its place; decoding has no error path |
| `RevisionCodec.UnquotedDecodesAlike` | revision.go:66-69 | deleting every quote byte leaves the digits read and the decoded value unchanged |
| `RevisionCodec.PrefixValueBounded` | revision.go:66-71 | the exact accumulator never decreases: every prefix decodes to at most the whole input |
| `RevisionCodec.EncodeDigits` | revision.go:84-88 | the emitted digit string consists of alphabet symbols only, never the quote |
| `RevisionCodec.Encode` | revision.go:76-91 | zero and every negative revision encode to the empty string; a positive one to 1..11 alphabet symbols with no leading `-` |
| `RevisionCodec.EncodeRevision` | revision.go:76-91 | the 12-byte buffer loop returns exactly `Encode(revision)` and never overflows the buffer |
| `RevisionCodec.EncodeLength` | revision.go:81-90 | the encoding of `n` fits in `k` symbols if and only if `n < 64^k` |
| `RevisionCodec.Int64FitsElevenDigits` | revision.go:81-88 | every positive `int64` encodes to between 1 and 11 symbols |
| `RevisionCodec.Int64MaxTakesElevenDigits` | revision.go:81-88 | the largest `int64` takes all 11 symbols, so the 11-symbol bound is tight |
| `RevisionCodec.LeadingDigitNonZero` | revision.go:84-88 | the encoding of a positive number is non-empty and never starts with the zero symbol |
| `RevisionCodec.DecodeEncodeValue` | revision.go:63-91 | over unbounded integers, decoding undoes encoding for every `n >= 0` |
| `RevisionCodec.RoundTrip` | revision.go:63-91 | `Decode(Encode(n)) == n` for every `n` in [0, 2^63-1], and every intermediate accumulator stays within [0, n], so nothing wraps |
| `RevisionCodec.CanonicalIsPositive` | revision.go:63-74 | a non-empty numeral without a leading `-` decodes to a positive number |
| `RevisionCodec.EncodeDecodeCanonical` | revision.go:63-91 | every numeral over the alphabet without a leading `-` is the encoding of the value it decodes to, so the shortest form is unique |
| `RevisionCodec.EncodeIsShortest` | revision.go:63-91 | no byte string denotes a value with fewer bytes than that value's encoding |
| `RevisionCodec.SmallValues` | revision.go:76-91 | `encode(1)` is `_`, `encode(64)` is `_-`, and the empty string decodes to 0 |
| `RevisionCodec.HighBitNotRestored` | revision.go:63-91 | the 11-symbol numeral `G----------` decodes to the smallest `int64`, which encodes to the empty string |
| `RevisionJson.MarshalJSON` | revision.go:99-111 | the result is the encoded revision between two quotes; it is `""` exactly when the revision is not positive, and at most 13 bytes otherwise |
| `RevisionJson.UnmarshalJSON` | revision.go:93-97 | the value decoded is that of the input with every quote removed; a JSON string decodes as its content |
| `RevisionJson.MarshalRoundTrip` | revision.go:93-111 | unmarshalling the marshalled form restores every non-negative revision, and turns a negative one into 0 |
| `RangesRequest.RangesQuery` | revision.go:171-175 | the query always carries the batch and the collection; it carries `resume` if and only if the cursor is positive, with the cursor's encoding as value, which decodes back to the cursor; there are no other keys |
| `RangesRequest.NonPositiveCursorIsOmitted` | revision.go:173-175 | a request with a non-positive cursor is the same as one with no cursor |
| `RangeWalk.Walk` | test/revisions_test.go:61-81 | request `k` is the range with the cursor the previous page returned (0 first); every reply before the last continues the walk; the walk stops at the first reply that does not; the outcome is decided by that reply |
| `RangeWalk.GetRanges` | test/revisions_test.go:61-81 | the first request has no `resume` parameter; each later cursor is the previous page's; the walk completes if and only if it reaches a page with rows and cursor 0, and then returns the first rows of all pages in order; a failed round, a page without rows and an exhausted script each abort; a well-formed script is read to its end |
| `RangeWalk.FirstRowsCons` | test/revisions_test.go:73 | the accumulated rows of a script are the first page's row followed by the rows of the rest |
| `RangeWalk.PaginateIsWellFormed` | test/revisions_test.go:69-79 | a server paging a list of positive revisions answers with continuing pages followed by exactly one final page with cursor 0 |
| `RangeWalk.PaginateFirstRows` | test/revisions_test.go:73 | the first rows of the pages, concatenated, are the original revisions in order |
| `RangeWalk.PaginateLength` | test/revisions_test.go:83-85 | a list of `n` revisions takes ceil(n / size) pages, and one page when empty |
| `RangeWalk.PaginationIsComplete` | test/revisions_test.go:83-85 | pagination by any page size gives a script the walk reads to the end, whose rows are exactly the revisions, in ceil(n / size) pages |
| `RangeWalk.WalkPaginatedServer` | test/revisions_test.go:61-85 | against a server paging the revisions by any size, the walk returns exactly those revisions in order, after ceil(n / size) requests |

## Left out

- HTTP plumbing is not modelled: building requests and paths, `SetQuery`, the request body, `conn.Do`,
  `CheckStatus` and `ParseBody` in `GetRevisionTree`, `GetRevisionsByRanges` and `GetRevisionDocuments`. These
  are network I/O and calls into the connection library. A failed exchange of any kind appears in the walk as a
  `Failed` reply.
- `MarshalVPack` and `UnmarshalVPack` are not modelled. They hand the same encoder and decoder to the external
  velocypack builder and slice API.
- The document-fetch loop of `GetRevisionDocuments` is not modelled. It maps a foreign JSON parser over the
  response array.
- `RevisionTree` and `RevisionTreeNode` are left out. They are plain records with no behaviour and the walk does
  not use them.
- The test scaffolding is left out: database, collection and batch setup, the timeout context, and
  server-dependent assertions such as the tree depth and the document comparison.
- `RevisionJson.MarshalJSON` and `RevisionJson.UnmarshalJSON` return the value alone. The Go methods also return
  an `error`, which is always nil.
- `RevisionCodec.EncodeDigits` models `revision & 0x3f` and `revision >>= 6` as `% 64` and `/ 64`. The loop only
  runs while the value is positive, and for positive values these agree.
- `RangeWalk.GetRanges` replaces the live server with a finite script of replies. A server that keeps returning
  non-zero cursors forever is not modelled; in the model it shows up as `Unanswered` once the script runs out.
- `RangeWalk.GetRanges` treats `require.NoError` as ending the walk with `RoundFailed`. The test aborts at that
  point and sends nothing more.
