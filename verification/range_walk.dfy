/**
 The resumable range walk: the client loop that pages through the revisions
 of one range. Each round sends the range together with the current cursor,
 appends the first row of the answer, and continues with the cursor the
 server returned until a page comes back with cursor 0.

 The server is a scripted page oracle: `replies[k]` is what round `k`
 receives. A round with no scripted reply is a request that got no answer.
 Since the script is finite, the walk terminates without any page limit of
 its own.
 */
module RangeWalk {
  import opened GoTypes
  import opened RangesRequest

  type Revisions = seq<int64>

  /** An inclusive range of revisions, `[min, max]`. */
  datatype RevisionMinMax = RevisionMinMax(min: int64, max: int64)

  /** One page of a ranges answer: a row of revisions per requested range,
      and the cursor to resume from, 0 when there is nothing more. */
  datatype RevisionRanges = RevisionRanges(ranges: seq<Revisions>, resume: int64)

  /** Why one exchange with the server failed. */
  datatype FetchError = TransportError | UnexpectedStatus(status: int) | BodyError

  /** What one round receives. */
  datatype Reply = Page(page: RevisionRanges) | Failed(error: FetchError)

  /** A request the walk issued: the ranges in its body, the cursor passed
      in, and the query built from them. */
  datatype RangesCall = RangesCall(ranges: seq<RevisionMinMax>, resume: int64, query: QueryParams)

  /** Why a walk ended early: a failed round trip, a page without a first
      row (the source indexes row 0 unconditionally, which panics in Go), or
      a request the script does not answer. */
  datatype WalkError = RoundFailed(error: FetchError) | NoRows | Unanswered

  datatype WalkResult = Complete(revisions: Revisions) | Aborted(reason: WalkError)

  predicate HasRows(r: Reply) {
    r.Page? && |r.page.ranges| > 0
  }

  /** A reply after which the walk asks for another page. */
  predicate Continues(r: Reply) {
    HasRows(r) && r.page.resume != 0
  }

  /** A reply that ends the walk successfully. */
  predicate Finishes(r: Reply) {
    HasRows(r) && r.page.resume == 0
  }

  /** The row a reply contributes to the walk: its first row. */
  function FirstRow(r: Reply): Revisions {
    if HasRows(r) then r.page.ranges[0] else []
  }

  /** The first rows of the pages, concatenated in order. */
  function FirstRows(replies: seq<Reply>): Revisions {
    if replies == [] then []
    else FirstRows(replies[..|replies| - 1]) + FirstRow(replies[|replies| - 1])
  }

  /** A script the walk reads to its end: every page has a row, and only the
      last page carries the zero cursor. */
  predicate WellFormedScript(replies: seq<Reply>) {
    && |replies| >= 1
    && (forall k :: 0 <= k < |replies| - 1 ==> Continues(replies[k]))
    && Finishes(replies[|replies| - 1])
  }

  /** The cursor round `k` of a walk sends: 0 first, then the cursor of the
      previous page. */
  function Cursor(replies: seq<Reply>, k: nat): int64 {
    if 0 < k <= |replies| && replies[k - 1].Page? then replies[k - 1].page.resume else 0
  }

  /** The request a walk over `bounds` sends with cursor `resume`. */
  function Request(batchId: seq<byte>, collection: seq<byte>, bounds: RevisionMinMax, resume: int64): RangesCall {
    RangesCall([bounds], resume, RangesQuery(batchId, collection, resume))
  }

  /** How a walk that sent `n` requests ends: unanswered when the script ran
      out, otherwise decided by the last reply. */
  function Outcome(replies: seq<Reply>, n: nat): WalkResult
    requires 1 <= n <= |replies| + 1
  {
    if n == |replies| + 1 then Aborted(Unanswered)
    else match replies[n - 1]
      case Failed(e) => Aborted(RoundFailed(e))
      case Page(p) => if p.ranges == [] then Aborted(NoRows) else Complete(FirstRows(replies[..n]))
  }

  /** The source's loop: request, append the first row, stop on a zero
      cursor, otherwise carry the cursor forward. */
  method Walk(batchId: seq<byte>, collection: seq<byte>, bounds: RevisionMinMax, replies: seq<Reply>)
    returns (result: WalkResult, sent: seq<RangesCall>)
    ensures 1 <= |sent| <= |replies| + 1
    ensures forall k :: 0 <= k < |sent| ==> sent[k] == Request(batchId, collection, bounds, Cursor(replies, k))
    ensures forall k :: 0 <= k < |sent| - 1 ==> Continues(replies[k])
    ensures |sent| <= |replies| ==> !Continues(replies[|sent| - 1])
    ensures result == Outcome(replies, |sent|)
  {
    var resume: int64 := 0;
    var revisions: Revisions := [];
    sent := [];
    while true
      invariant |sent| <= |replies|
      invariant forall k :: 0 <= k < |sent| ==> Continues(replies[k])
      invariant resume == Cursor(replies, |sent|)
      invariant revisions == FirstRows(replies[..|sent|])
      invariant forall k :: 0 <= k < |sent| ==> sent[k] == Request(batchId, collection, bounds, Cursor(replies, k))
      decreases |replies| - |sent|
    {
      var round := |sent|;
      sent := sent + [Request(batchId, collection, bounds, resume)];
      if round == |replies| {
        return Aborted(Unanswered), sent;
      }
      var reply := replies[round];
      if reply.Failed? {
        return Aborted(RoundFailed(reply.error)), sent;
      }
      if |reply.page.ranges| == 0 {
        return Aborted(NoRows), sent;
      }
      assert replies[..round + 1][..round] == replies[..round];
      revisions := revisions + reply.page.ranges[0];
      if reply.page.resume == 0 {
        return Complete(revisions), sent;
      }
      resume := reply.page.resume;
    }
  }

  /** The walk over the range `bounds`, returning its result and every
      request it sent, in order. */
  method GetRanges(batchId: seq<byte>, collection: seq<byte>, bounds: RevisionMinMax, replies: seq<Reply>)
    returns (result: WalkResult, sent: seq<RangesCall>)
    // at least one request, and never more than one past the script
    ensures 1 <= |sent| <= |replies| + 1
    // every request carries the range and the query for its cursor
    ensures forall k :: 0 <= k < |sent| ==>
              sent[k].ranges == [bounds] && sent[k].query == RangesQuery(batchId, collection, sent[k].resume)
    // the first request uses the zero cursor, so it has no resume parameter
    ensures sent[0].resume == 0 && "resume" !in sent[0].query
    // each later cursor is the one the previous page returned
    ensures forall k :: 0 <= k < |sent| - 1 ==>
              Continues(replies[k]) && sent[k + 1].resume == replies[k].page.resume
    // the walk stops at the first reply that does not continue it
    ensures |sent| <= |replies| ==> !Continues(replies[|sent| - 1])
    ensures result.Complete? <==> |sent| <= |replies| && Finishes(replies[|sent| - 1])
    ensures result.Complete? ==> result.revisions == FirstRows(replies[..|sent|])
    ensures result == Aborted(Unanswered) <==> |sent| == |replies| + 1
    ensures |sent| <= |replies| && replies[|sent| - 1].Failed? ==>
              result == Aborted(RoundFailed(replies[|sent| - 1].error))
    ensures |sent| <= |replies| && replies[|sent| - 1].Page? && replies[|sent| - 1].page.ranges == [] ==>
              result == Aborted(NoRows)
    // completeness: a well-formed script is read to its end
    ensures WellFormedScript(replies) ==> result == Complete(FirstRows(replies)) && |sent| == |replies|
  {
    result, sent := Walk(batchId, collection, bounds, replies);
    assert sent[0] == Request(batchId, collection, bounds, 0);
    forall k | 0 <= k < |sent| - 1
      ensures sent[k + 1].resume == replies[k].page.resume
    {
      assert sent[k + 1] == Request(batchId, collection, bounds, Cursor(replies, k + 1));
    }
    if WellFormedScript(replies) {
      var n := |sent|;
      assert n == |replies|;
      assert replies[..n] == replies;
    }
  }

  lemma {:induction false} FirstRowsCons(r: Reply, rest: seq<Reply>)
    ensures FirstRows([r] + rest) == FirstRow(r) + FirstRows(rest)
    decreases |rest|
  {
    var s := [r] + rest;
    if rest == [] {
      assert s[..0] == [];
      assert FirstRows(s) == [] + FirstRow(r);
    } else {
      var init, last := rest[..|rest| - 1], rest[|rest| - 1];
      assert s[..|s| - 1] == [r] + init;
      assert s[|s| - 1] == last;
      assert FirstRows(s) == FirstRows([r] + init) + FirstRow(last);
      assert FirstRows(rest) == FirstRows(init) + FirstRow(last);
      FirstRowsCons(r, init);
    }
  }

  /** A server that returns `revisions` in pages of `size`, each cursor
      naming the first revision of the next page. */
  function Paginate(revisions: Revisions, size: nat): (replies: seq<Reply>)
    requires size >= 1
    requires forall i :: 0 <= i < |revisions| ==> revisions[i] > 0
    decreases |revisions|
  {
    if |revisions| <= size then [Page(RevisionRanges([revisions], 0))]
    else [Page(RevisionRanges([revisions[..size]], revisions[size]))] + Paginate(revisions[size..], size)
  }

  /** Every page but the last continues the walk and the last one ends it. */
  lemma {:induction false} PaginateIsWellFormed(revisions: Revisions, size: nat)
    requires size >= 1
    requires forall i :: 0 <= i < |revisions| ==> revisions[i] > 0
    ensures WellFormedScript(Paginate(revisions, size))
    decreases |revisions|
  {
    if |revisions| > size {
      var rest := revisions[size..];
      var tail := Paginate(rest, size);
      PaginateIsWellFormed(rest, size);
      var replies := Paginate(revisions, size);
      assert replies == [replies[0]] + tail;
      forall k | 0 <= k < |replies| - 1 ensures Continues(replies[k]) {
        if k > 0 {
          assert replies[k] == tail[k - 1];
        }
      }
      assert replies[|replies| - 1] == tail[|tail| - 1];
    }
  }

  /** The pages' first rows put back together are the revisions, in order. */
  lemma {:induction false} PaginateFirstRows(revisions: Revisions, size: nat)
    requires size >= 1
    requires forall i :: 0 <= i < |revisions| ==> revisions[i] > 0
    ensures FirstRows(Paginate(revisions, size)) == revisions
    decreases |revisions|
  {
    var replies := Paginate(revisions, size);
    if |revisions| <= size {
      assert replies[..0] == [];
      assert FirstRows(replies) == [] + revisions;
    } else {
      var rest := revisions[size..];
      PaginateFirstRows(rest, size);
      var tail := Paginate(rest, size);
      assert replies == [replies[0]] + tail;
      assert FirstRow(replies[0]) == revisions[..size];
      FirstRowsCons(replies[0], tail);
      SplitAt(revisions, size);
    }
  }

  lemma SplitAt(s: Revisions, i: nat)
    requires i <= |s|
    ensures s[..i] + s[i..] == s
  {
  }

  /** A paginating server answers in ceil(n / size) pages, and one when there
      is nothing to page. */
  lemma {:induction false} PaginateLength(revisions: Revisions, size: nat)
    requires size >= 1
    requires forall i :: 0 <= i < |revisions| ==> revisions[i] > 0
    ensures |Paginate(revisions, size)| == if revisions == [] then 1 else (|revisions| + size - 1) / size
    decreases |revisions|
  {
    var n := |revisions|;
    if n <= size {
      if n > 0 {
        DivOne(n + size - 1, size);
      }
    } else {
      var rest := revisions[size..];
      PaginateLength(rest, size);
      assert |rest| + size - 1 == n - 1;
      DivStep(n + size - 1, size);
    }
  }

  /** Whatever the page size, a paginating server produces a script the walk
      reads to the end, its first rows are exactly the revisions, in order,
      and it takes ceil(n / size) rounds (one round when there is nothing). */
  lemma PaginationIsComplete(revisions: Revisions, size: nat)
    requires size >= 1
    requires forall i :: 0 <= i < |revisions| ==> revisions[i] > 0
    ensures WellFormedScript(Paginate(revisions, size))
    ensures FirstRows(Paginate(revisions, size)) == revisions
    ensures |Paginate(revisions, size)| == if revisions == [] then 1 else (|revisions| + size - 1) / size
  {
    PaginateIsWellFormed(revisions, size);
    PaginateFirstRows(revisions, size);
    PaginateLength(revisions, size);
  }

  /** The walk against a server paging `revisions` by `size` collects all of
      them, in order, in ceil(n / size) requests, as the test's length check
      expects. */
  method WalkPaginatedServer(batchId: seq<byte>, collection: seq<byte>, bounds: RevisionMinMax,
                             revisions: Revisions, size: nat)
    returns (result: WalkResult, sent: seq<RangesCall>)
    requires size >= 1
    requires forall i :: 0 <= i < |revisions| ==> revisions[i] > 0
    ensures result == Complete(revisions)
    ensures |sent| == if revisions == [] then 1 else (|revisions| + size - 1) / size
  {
    PaginationIsComplete(revisions, size);
    result, sent := GetRanges(batchId, collection, bounds, Paginate(revisions, size));
  }

  lemma DivOne(a: int, d: int)
    requires 1 <= d <= a < 2 * d
    ensures a / d == 1
  {
  }

  lemma DivStep(a: int, d: int)
    requires 1 <= d <= a
    ensures (a - d) / d + 1 == a / d
  {
    var q, r := a / d, a % d;
    var q2, r2 := (a - d) / d, (a - d) % d;
    assert d * q + r == a;
    assert d * q2 + r2 == a - d;
    assert d * (q2 + 1 - q) == r - r2;
    MultipleBelowDivisor(d, q2 + 1 - q);
  }

  /** The only multiple of `d` strictly between `-d` and `d` is zero. */
  lemma MultipleBelowDivisor(d: int, x: int)
    requires d >= 1 && -d < d * x < d
    ensures x == 0
  {
  }
}
