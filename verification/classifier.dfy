/** The batched grouping of `ai_group_bookmarks`. The language-model call is an oracle
    that, given the collections so far and one batch, answers with new collections or
    fails (request error, error status, reply that is not a JSON object). */
module Classifier {
  import opened Wrappers
  import opened Bookmarks
  import opened Collections

  /** Bookmarks sent per request. */
  const BatchSize: nat := 100

  /** The grouping oracle: current collections and a batch in, new collections or an error
      text out. A reply that succeeds was parsed by `json.loads` into a dictionary, so its
      keys are distinct. */
  type Oracle = (Mapping, seq<Bookmark>) -> Result<Dict, string>

  function Min(a: int, b: int): int {
    if a < b then a else b
  }

  /** The batches concatenated back together. */
  function Concat(bs: seq<seq<Bookmark>>): seq<Bookmark>
    decreases |bs|
  {
    if bs == [] then [] else bs[0] + Concat(bs[1..])
  }

  /** The slices `xs[start:min(start + 100, total)]` for `start` in `range(0, total, 100)`. */
  function Batches(xs: seq<Bookmark>): (bs: seq<seq<Bookmark>>)
    ensures forall k :: 0 <= k < |bs| ==> 0 < |bs[k]| <= BatchSize
    ensures forall k :: 0 <= k < |bs| - 1 ==> |bs[k]| == BatchSize
    ensures Concat(bs) == xs
    ensures |bs| == (|xs| + BatchSize - 1) / BatchSize
    decreases |xs|
  {
    if xs == [] then []
    else
      var end := Min(BatchSize, |xs|);
      assert xs[..end] + xs[end..] == xs;
      [xs[..end]] + Batches(xs[end..])
  }

  /** The requests of the loop in order, each seeing the collections the previous one
      returned; the first failure ends the loop with its error. */
  function GroupFold(acc: Mapping, bs: seq<seq<Bookmark>>, oracle: Oracle): Result<Mapping, string>
    decreases |bs|
  {
    if bs == [] then Success(acc)
    else
      match oracle(acc, bs[0])
      case Failure(e) => Failure(e)
      case Success(m) => GroupFold(m, bs[1..], oracle)
  }

  /** The loop commits dictionaries only: its result is the starting dictionary or a reply. */
  lemma {:induction false} GroupFoldUnique(acc: Mapping, bs: seq<seq<Bookmark>>, oracle: Oracle)
    requires UniqueNames(acc)
    ensures GroupFold(acc, bs, oracle).Success? ==> UniqueNames(GroupFold(acc, bs, oracle).value)
    decreases |bs|
  {
    if bs != [] {
      match oracle(acc, bs[0])
      case Failure(e) =>
      case Success(m) => GroupFoldUnique(m, bs[1..], oracle);
    }
  }

  /** The outcome after one more batch: the previous failure, or exactly what the oracle
      answered for the last batch given the collections accumulated so far. */
  lemma {:induction false} GroupFoldSnoc(acc: Mapping, bs: seq<seq<Bookmark>>, b: seq<Bookmark>, oracle: Oracle)
    ensures GroupFold(acc, bs + [b], oracle) ==
            match GroupFold(acc, bs, oracle)
            case Failure(e) => Failure(e)
            case Success(m) => oracle(m, b)
    decreases |bs|
  {
    if bs == [] {
      assert bs + [b] == [b];
      assert [b][1..] == [];
    } else {
      assert (bs + [b])[0] == bs[0];
      assert (bs + [b])[1..] == bs[1..] + [b];
      match oracle(acc, bs[0])
      case Failure(e) =>
      case Success(m) => GroupFoldSnoc(m, bs[1..], b, oracle);
    }
  }

  /** All or nothing: once the requests up to some batch have failed, the whole loop
      fails with that same error, so no later reply is ever committed. */
  lemma {:induction false} FailureIsFinal(acc: Mapping, bs: seq<seq<Bookmark>>, k: nat, oracle: Oracle)
    requires k <= |bs|
    requires GroupFold(acc, bs[..k], oracle).Failure?
    ensures GroupFold(acc, bs, oracle) == GroupFold(acc, bs[..k], oracle)
    decreases |bs|
  {
    assert k > 0;
    assert bs[..k][0] == bs[0];
    assert bs[..k][1..] == bs[1..][..k - 1];
    match oracle(acc, bs[0])
    case Failure(e) =>
    case Success(m) => FailureIsFinal(m, bs[1..], k - 1, oracle);
  }

  /** The batches from `start` on: the next slice followed by the batches after it. */
  lemma BatchesFrom(xs: seq<Bookmark>, start: nat)
    requires start < |xs|
    ensures Batches(xs[start..]) == [xs[start..Min(start + BatchSize, |xs|)]] + Batches(Rest(xs, start + BatchSize))
  {
    var end := Min(start + BatchSize, |xs|);
    var ys := xs[start..];
    assert Min(BatchSize, |ys|) == end - start;
    assert ys[..end - start] == xs[start..end];
    assert ys[end - start..] == Rest(xs, start + BatchSize);
  }

  /** `xs[start:]`, empty once `start` has run past the end. */
  function Rest(xs: seq<Bookmark>, start: nat): seq<Bookmark> {
    if start < |xs| then xs[start..] else []
  }

  /** The batch loop of `ai_group_bookmarks`: it returns the collections the last request
      answered, or the first request's error. */
  method GroupInBatches(bookmarks: seq<Bookmark>, collections: Mapping, oracle: Oracle)
    returns (res: Result<Mapping, string>)
    ensures res == GroupFold(collections, Batches(bookmarks), oracle)
  {
    var total := |bookmarks|;
    var acc := collections;
    var start := 0;
    while start < total
      invariant GroupFold(collections, Batches(bookmarks), oracle) == GroupFold(acc, Batches(Rest(bookmarks, start)), oracle)
      decreases total - start
    {
      var end := Min(start + BatchSize, total);
      var batch := bookmarks[start..end];
      BatchesFrom(bookmarks, start);
      var reply := oracle(acc, batch);
      if reply.Failure? {
        return Failure(reply.error);
      }
      acc := reply.value;
      start := start + BatchSize;
    }
    res := Success(acc);
  }
}
