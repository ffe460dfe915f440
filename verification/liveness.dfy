/** The link check of the application: the worker of `check_urls` probes every url
    once and keeps the bookmarks that answered. The HTTP probe is an oracle. */
module Liveness {
  import opened Bookmarks

  /** What the header-only probe of a url produced: a response with its status code,
      or an exception (timeout, name resolution, refused connection, malformed url). */
  datatype Probe = Response(status: int) | Raised

  /** A probe counts as alive when a response came back with a status below 400. */
  predicate IsAlive(p: Probe) {
    p.Response? && p.status < 400
  }

  /** The bookmarks whose probe is alive, in their original order. */
  function Alive(bms: seq<Bookmark>, probe: string -> Probe): (r: seq<Bookmark>)
    ensures |r| <= |bms|
    ensures forall k :: 0 <= k < |r| ==> IsAlive(probe(r[k].url))
    decreases |bms|
  {
    if bms == [] then []
    else
      var kept := Alive(bms[..|bms| - 1], probe);
      var b := bms[|bms| - 1];
      if IsAlive(probe(b.url)) then kept + [b] else kept
  }

  /** `idx` picks the elements of `a` out of `b`, at strictly increasing positions. */
  predicate Embeds(idx: seq<nat>, a: seq<Bookmark>, b: seq<Bookmark>) {
    && |idx| == |a|
    && (forall k :: 0 <= k < |idx| ==> idx[k] < |b| && a[k] == b[idx[k]])
    && (forall k, l :: 0 <= k < l < |idx| ==> idx[k] < idx[l])
  }

  /** The positions of the alive bookmarks, in increasing order. */
  function AliveIndices(bms: seq<Bookmark>, probe: string -> Probe): (idx: seq<nat>)
    ensures forall k :: 0 <= k < |idx| ==> idx[k] < |bms|
    decreases |bms|
  {
    if bms == [] then []
    else
      var kept := AliveIndices(bms[..|bms| - 1], probe);
      if IsAlive(probe(bms[|bms| - 1].url)) then kept + [|bms| - 1] else kept
  }

  lemma {:induction false} AliveIndicesEmbed(bms: seq<Bookmark>, probe: string -> Probe)
    ensures Embeds(AliveIndices(bms, probe), Alive(bms, probe), bms)
    decreases |bms|
  {
    if bms != [] {
      var init := bms[..|bms| - 1];
      AliveIndicesEmbed(init, probe);
      var idx := AliveIndices(init, probe);
      forall k | 0 <= k < |idx|
        ensures Alive(init, probe)[k] == bms[idx[k]]
      {
        assert init[idx[k]] == bms[idx[k]];
      }
    }
  }

  lemma {:induction false} AliveIndicesExact(bms: seq<Bookmark>, probe: string -> Probe)
    ensures forall i :: 0 <= i < |bms| ==> (i in AliveIndices(bms, probe) <==> IsAlive(probe(bms[i].url)))
    decreases |bms|
  {
    if bms != [] {
      var init := bms[..|bms| - 1];
      AliveIndicesExact(init, probe);
      forall i | 0 <= i < |bms|
        ensures i in AliveIndices(bms, probe) <==> IsAlive(probe(bms[i].url))
      {
        if i < |init| {
          assert init[i] == bms[i];
        }
      }
    }
  }

  /** The result is the input with exactly the dead bookmarks left out: it embeds into
      the input in order, and the positions it keeps are exactly the alive ones. */
  lemma AliveIsFilter(bms: seq<Bookmark>, probe: string -> Probe)
    ensures exists idx :: Embeds(idx, Alive(bms, probe), bms) &&
              forall i :: 0 <= i < |bms| ==> (i in idx <==> IsAlive(probe(bms[i].url)))
  {
    AliveIndicesEmbed(bms, probe);
    AliveIndicesExact(bms, probe);
    var idx := AliveIndices(bms, probe);
    assert Embeds(idx, Alive(bms, probe), bms);
  }

  /** A bookmark survives exactly when it was in the input and its probe is alive. */
  lemma {:induction false} AliveMembers(bms: seq<Bookmark>, probe: string -> Probe, b: Bookmark)
    ensures b in Alive(bms, probe) <==> b in bms && IsAlive(probe(b.url))
    decreases |bms|
  {
    if bms != [] {
      var init := bms[..|bms| - 1];
      AliveMembers(init, probe, b);
      assert bms == init + [bms[|bms| - 1]];
    }
  }

  /** The worker loop of `check_urls`: probe each bookmark in order, keep the alive ones. */
  method FilterAlive(bms: seq<Bookmark>, probe: string -> Probe) returns (alive: seq<Bookmark>)
    ensures alive == Alive(bms, probe)
    ensures bms == [] ==> alive == []
  {
    alive := [];
    var i := 0;
    while i < |bms|
      invariant i <= |bms|
      invariant alive == Alive(bms[..i], probe)
    {
      var bm := bms[i];
      if IsAlive(probe(bm.url)) {
        alive := alive + [bm];
      }
      assert bms[..i + 1][..i] == bms[..i];
      i := i + 1;
    }
    assert bms[..i] == bms;
  }
}
