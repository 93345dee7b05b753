/**
 Walking back from a remote tip: which requests are made, and when the walk fails. All of it
 follows from the main chain, the remote node's answers and the tip.
 */
module Walks {
  import opened Base
  import opened BlockHeaders
  import opened Chain
  import opened ChainSteps

  /** The answer to a request; empty when there is none. */
  function Batch(fetch: Fetch, n: nat, h: Hash): seq<Header> {
    if fetch(n, h).Some? then fetch(n, h).value else []
  }

  /** The hash that the n-th request of a walk is for: the remote tip, then the parent of the last
      header of the batch before. */
  function AskedFor(fetch: Fetch, remoteTip: Hash, n: nat): Hash {
    if n == 0 then remoteTip
    else
      var h := AskedFor(fetch, remoteTip, n - 1);
      WalkEnd(h, Batch(fetch, n - 1, h))
  }

  /** The headers of the first n batches. */
  function Gathered(fetch: Fetch, remoteTip: Hash, n: nat): seq<Header> {
    if n == 0 then []
    else Gathered(fetch, remoteTip, n - 1) + Batch(fetch, n - 1, AskedFor(fetch, remoteTip, n - 1))
  }

  ghost predicate OffMain(net: Net, byHeight: seq<Hash>, hs: seq<Header>) {
    forall i :: 0 <= i < |hs| ==> net.hashOf(hs[i]) !in byHeight
  }

  /** The n-th request is answered with headers, and neither the hash it is for nor any of them is
      on the main chain. */
  ghost predicate Passes(net: Net, byHeight: seq<Hash>, fetch: Fetch, remoteTip: Hash, n: nat) {
    var h := AskedFor(fetch, remoteTip, n);
    h !in byHeight && fetch(n, h).Some? && fetch(n, h).value != [] && OffMain(net, byHeight, fetch(n, h).value)
  }

  /** Nothing met the main chain before the n-th request. */
  ghost predicate AllPass(net: Net, byHeight: seq<Hash>, fetch: Fetch, remoteTip: Hash, n: nat) {
    forall k: nat :: k < n ==> Passes(net, byHeight, fetch, remoteTip, k)
  }

  /** A walk makes its n-th request, and has no headers for an answer. */
  ghost predicate FailsAt(net: Net, byHeight: seq<Hash>, fetch: Fetch, remoteTip: Hash, n: nat) {
    && AllPass(net, byHeight, fetch, remoteTip, n)
    && AskedFor(fetch, remoteTip, n) !in byHeight
    && fetch(n, AskedFor(fetch, remoteTip, n)) in {None, Some([])}
  }

  /** Some request that the walk makes has no answer. */
  ghost predicate Refused(net: Net, byHeight: seq<Hash>, fetch: Fetch, remoteTip: Hash) {
    exists n: nat :: RefusedAt(net, byHeight, fetch, remoteTip, n)
  }

  ghost predicate RefusedAt(net: Net, byHeight: seq<Hash>, fetch: Fetch, remoteTip: Hash, n: nat) {
    FailsAt(net, byHeight, fetch, remoteTip, n) && fetch(n, AskedFor(fetch, remoteTip, n)).None?
  }

  /** Some request that the walk makes is answered with no headers. */
  ghost predicate AnsweredEmpty(net: Net, byHeight: seq<Hash>, fetch: Fetch, remoteTip: Hash) {
    exists n: nat :: EmptyAt(net, byHeight, fetch, remoteTip, n)
  }

  ghost predicate EmptyAt(net: Net, byHeight: seq<Hash>, fetch: Fetch, remoteTip: Hash, n: nat) {
    FailsAt(net, byHeight, fetch, remoteTip, n) && fetch(n, AskedFor(fetch, remoteTip, n)).Some?
  }

  // ----- Where a walk ends

  lemma {:induction false} FailsNowhereElse(net: Net, byHeight: seq<Hash>, fetch: Fetch, remoteTip: Hash, n: nat,
                                            m: nat)
    requires AllPass(net, byHeight, fetch, remoteTip, n) && !Passes(net, byHeight, fetch, remoteTip, n)
    requires FailsAt(net, byHeight, fetch, remoteTip, m)
    ensures m == n
  {
    assert m < n ==> Passes(net, byHeight, fetch, remoteTip, m);
    assert n < m ==> Passes(net, byHeight, fetch, remoteTip, n);
  }

  /** Once a request's own hash, or a header that answers it, is on the main chain, no request
      after it matters. */
  lemma {:induction false} MetEndsWalk(net: Net, byHeight: seq<Hash>, fetch: Fetch, remoteTip: Hash, n: nat)
    requires AllPass(net, byHeight, fetch, remoteTip, n)
    requires var h := AskedFor(fetch, remoteTip, n);
             h in byHeight || !OffMain(net, byHeight, Batch(fetch, n, h))
    ensures !Refused(net, byHeight, fetch, remoteTip) && !AnsweredEmpty(net, byHeight, fetch, remoteTip)
  {
    forall m: nat
      ensures !FailsAt(net, byHeight, fetch, remoteTip, m)
    {
      if FailsAt(net, byHeight, fetch, remoteTip, m) {
        FailsNowhereElse(net, byHeight, fetch, remoteTip, n, m);
      }
    }
  }

  /** A request that is made and not answered with headers ends the walk. */
  lemma {:induction false} FailureEndsWalk(net: Net, byHeight: seq<Hash>, fetch: Fetch, remoteTip: Hash, n: nat)
    requires FailsAt(net, byHeight, fetch, remoteTip, n)
    ensures Refused(net, byHeight, fetch, remoteTip) <==> fetch(n, AskedFor(fetch, remoteTip, n)).None?
    ensures AnsweredEmpty(net, byHeight, fetch, remoteTip) <==> fetch(n, AskedFor(fetch, remoteTip, n)).Some?
  {
    assert RefusedAt(net, byHeight, fetch, remoteTip, n) || EmptyAt(net, byHeight, fetch, remoteTip, n);
    forall m: nat | FailsAt(net, byHeight, fetch, remoteTip, m)
      ensures m == n
    {
      FailsNowhereElse(net, byHeight, fetch, remoteTip, n, m);
    }
  }

  /** When the first answer holds a block of the main chain the walk does not fail, whatever the
      node refuses to answer after that. */
  lemma {:induction false} OneBatchIsEnough(net: Net, byHeight: seq<Hash>, fetch: Fetch, remoteTip: Hash, i: nat)
    requires fetch(0, remoteTip).Some? && i < |fetch(0, remoteTip).value|
    requires net.hashOf(fetch(0, remoteTip).value[i]) in byHeight
    ensures !Refused(net, byHeight, fetch, remoteTip) && !AnsweredEmpty(net, byHeight, fetch, remoteTip)
  {
    MetEndsWalk(net, byHeight, fetch, remoteTip, 0);
  }

  // ----- Step by step

  lemma {:induction false} WalkEndDescends(net: Net, distance: Hash -> nat, from: Hash, hs: seq<Header>)
    requires Backward(net, from, hs) && Descending(net, distance, hs) && |hs| > 0
    ensures distance(WalkEnd(from, hs)) < distance(from)
  {
    if |hs| > 1 {
      WalkDescends(net, distance, from, hs, 0, |hs| - 1);
    }
  }

  /** Parent-linked headers off the main chain, from one hash back to another. */
  ghost predicate IsWalk(net: Net, byHeight: seq<Hash>, distance: Hash -> nat, from: Hash, hs: seq<Header>, to: Hash) {
    Backward(net, from, hs) && Descending(net, distance, hs) && OffMain(net, byHeight, hs) && WalkEnd(from, hs) == to
  }

  lemma {:induction false} JoinWalks(net: Net, byHeight: seq<Hash>, distance: Hash -> nat, from: Hash,
                                     a: seq<Header>, mid: Hash, b: seq<Header>, to: Hash, all: seq<Header>)
    requires IsWalk(net, byHeight, distance, from, a, mid) && IsWalk(net, byHeight, distance, mid, b, to)
    requires all == a + b
    ensures IsWalk(net, byHeight, distance, from, all, to)
  {
    BackwardAppend(net, from, a, b);
  }

  lemma {:induction false} BatchIsWalk(net: Net, byHeight: seq<Hash>, distance: Hash -> nat, fetch: Fetch,
                                       remoteTip: Hash, k: nat)
    requires AllPass(net, byHeight, fetch, remoteTip, k + 1) && RemoteChain(net, fetch, distance)
    ensures var h := AskedFor(fetch, remoteTip, k);
            IsWalk(net, byHeight, distance, h, Batch(fetch, k, h), AskedFor(fetch, remoteTip, k + 1))
  {
    var h := AskedFor(fetch, remoteTip, k);
    assert Passes(net, byHeight, fetch, remoteTip, k) && HonestAnswer(net, fetch, distance, k, h);
  }

  lemma {:induction false} GatheredNext(fetch: Fetch, remoteTip: Hash, k: nat)
    ensures Gathered(fetch, remoteTip, k + 1) ==
            Gathered(fetch, remoteTip, k) + Batch(fetch, k, AskedFor(fetch, remoteTip, k))
  {
  }

  lemma {:induction false} WalkNext(net: Net, byHeight: seq<Hash>, distance: Hash -> nat, fetch: Fetch,
                                    remoteTip: Hash, k: nat)
    requires AllPass(net, byHeight, fetch, remoteTip, k + 1) && RemoteChain(net, fetch, distance)
    requires IsWalk(net, byHeight, distance, remoteTip, Gathered(fetch, remoteTip, k), AskedFor(fetch, remoteTip, k))
    ensures IsWalk(net, byHeight, distance, remoteTip, Gathered(fetch, remoteTip, k + 1),
                   AskedFor(fetch, remoteTip, k + 1))
  {
    var h := AskedFor(fetch, remoteTip, k);
    BatchIsWalk(net, byHeight, distance, fetch, remoteTip, k);
    GatheredNext(fetch, remoteTip, k);
    JoinWalks(net, byHeight, distance, remoteTip, Gathered(fetch, remoteTip, k), h, Batch(fetch, k, h),
              AskedFor(fetch, remoteTip, k + 1), Gathered(fetch, remoteTip, k + 1));
  }

  lemma {:induction false} FewerPass(net: Net, byHeight: seq<Hash>, fetch: Fetch, remoteTip: Hash, n: nat, k: nat)
    requires k <= n && AllPass(net, byHeight, fetch, remoteTip, n)
    ensures AllPass(net, byHeight, fetch, remoteTip, k)
  {
  }

  lemma {:induction false} NothingGathered(net: Net, byHeight: seq<Hash>, distance: Hash -> nat, fetch: Fetch,
                                           remoteTip: Hash)
    ensures IsWalk(net, byHeight, distance, remoteTip, Gathered(fetch, remoteTip, 0), AskedFor(fetch, remoteTip, 0))
  {
  }

  /** What is gathered before the main chain is met is a walk to where the next request begins. */
  lemma {:induction false} GatheredIsWalk(net: Net, byHeight: seq<Hash>, distance: Hash -> nat, fetch: Fetch,
                                          remoteTip: Hash, n: nat)
    requires AllPass(net, byHeight, fetch, remoteTip, n) && RemoteChain(net, fetch, distance)
    ensures IsWalk(net, byHeight, distance, remoteTip, Gathered(fetch, remoteTip, n), AskedFor(fetch, remoteTip, n))
  {
    NothingGathered(net, byHeight, distance, fetch, remoteTip);
    var k := 0;
    while k < n
      invariant k <= n
      invariant IsWalk(net, byHeight, distance, remoteTip, Gathered(fetch, remoteTip, k),
                       AskedFor(fetch, remoteTip, k))
    {
      FewerPass(net, byHeight, fetch, remoteTip, n, k + 1);
      WalkNext(net, byHeight, distance, fetch, remoteTip, k);
      k := k + 1;
    }
  }

  lemma {:induction false} GoesOn(net: Net, byHeight: seq<Hash>, distance: Hash -> nat, fetch: Fetch,
                                  remoteTip: Hash, n: nat, current: Hash, headers: seq<Header>, next: Hash)
    requires AllPass(net, byHeight, fetch, remoteTip, n) && RemoteChain(net, fetch, distance)
    requires current == AskedFor(fetch, remoteTip, n) && current !in byHeight
    requires fetch(n, current) == Some(headers) && headers != [] && OffMain(net, byHeight, headers)
    requires next == headers[|headers| - 1].prevHash
    ensures AllPass(net, byHeight, fetch, remoteTip, n + 1) && AskedFor(fetch, remoteTip, n + 1) == next
    ensures Gathered(fetch, remoteTip, n + 1) == Gathered(fetch, remoteTip, n) + headers
    ensures distance(next) < distance(current)
  {
    assert Passes(net, byHeight, fetch, remoteTip, n) && HonestAnswer(net, fetch, distance, n, current);
    WalkEndDescends(net, distance, current, headers);
  }

  /** The walk does not fail, and has found this branch. */
  ghost predicate Meets(net: Net, s: State, distance: Hash -> nat, fetch: Fetch, remoteTip: Hash,
                        branch: seq<Header>, ancestor: BlockHeader) {
    && !Refused(net, s.byHeight, fetch, remoteTip) && !AnsweredEmpty(net, s.byHeight, fetch, remoteTip)
    && FoundBranch(net, distance, s, remoteTip, branch, ancestor)
    && FromBatches(fetch, remoteTip, branch)
  }

  /** The headers are the first ones of the batches. */
  ghost predicate FromBatches(fetch: Fetch, remoteTip: Hash, branch: seq<Header>) {
    exists n: nat :: FirstOf(fetch, remoteTip, branch, n)
  }

  predicate FirstOf(fetch: Fetch, remoteTip: Hash, branch: seq<Header>, n: nat) {
    branch <= Gathered(fetch, remoteTip, n)
  }

  lemma {:induction false} MeetsHash(net: Net, s: State, distance: Hash -> nat, fetch: Fetch, remoteTip: Hash,
                                     n: nat, ancestor: BlockHeader)
    requires AllPass(net, s.byHeight, fetch, remoteTip, n) && RemoteChain(net, fetch, distance)
    requires AskedFor(fetch, remoteTip, n) == ancestor.hash && ancestor.hash in s.byHeight
    requires ancestor.hash in s.byHash && s.byHash[ancestor.hash] == ancestor
    ensures Meets(net, s, distance, fetch, remoteTip, Gathered(fetch, remoteTip, n), ancestor)
  {
    GatheredIsWalk(net, s.byHeight, distance, fetch, remoteTip, n);
    MetEndsWalk(net, s.byHeight, fetch, remoteTip, n);
    assert FirstOf(fetch, remoteTip, Gathered(fetch, remoteTip, n), n);
  }

  lemma {:induction false} MeetsHeader(net: Net, s: State, distance: Hash -> nat, fetch: Fetch, remoteTip: Hash,
                                       n: nat, headers: seq<Header>, k: nat, ancestor: BlockHeader)
    requires AllPass(net, s.byHeight, fetch, remoteTip, n) && RemoteChain(net, fetch, distance)
    requires fetch(n, AskedFor(fetch, remoteTip, n)) == Some(headers) && k < |headers|
    requires OffMain(net, s.byHeight, headers[..k]) && net.hashOf(headers[k]) == ancestor.hash
    requires ancestor.hash in s.byHeight && ancestor.hash in s.byHash && s.byHash[ancestor.hash] == ancestor
    ensures Meets(net, s, distance, fetch, remoteTip, Gathered(fetch, remoteTip, n) + headers[..k], ancestor)
  {
    var h, kept := AskedFor(fetch, remoteTip, n), Gathered(fetch, remoteTip, n) + headers[..k];
    MetEndsWalk(net, s.byHeight, fetch, remoteTip, n);
    GatheredIsWalk(net, s.byHeight, distance, fetch, remoteTip, n);
    assert HonestAnswer(net, fetch, distance, n, h);
    FirstHeaders(net, s.byHeight, distance, h, headers, k);
    JoinWalks(net, s.byHeight, distance, remoteTip, Gathered(fetch, remoteTip, n), h, headers[..k], ancestor.hash,
              kept);
    IsFirst(fetch, remoteTip, n, headers, k);
  }

  lemma {:induction false} FirstHeaders(net: Net, byHeight: seq<Hash>, distance: Hash -> nat, h: Hash,
                                        headers: seq<Header>, k: nat)
    requires k < |headers| && Backward(net, h, headers) && Descending(net, distance, headers)
    requires OffMain(net, byHeight, headers[..k])
    ensures IsWalk(net, byHeight, distance, h, headers[..k], net.hashOf(headers[k]))
  {
  }

  lemma {:induction false} IsFirst(fetch: Fetch, remoteTip: Hash, n: nat, headers: seq<Header>, k: nat)
    requires fetch(n, AskedFor(fetch, remoteTip, n)) == Some(headers) && k < |headers|
    ensures FromBatches(fetch, remoteTip, Gathered(fetch, remoteTip, n) + headers[..k])
  {
    assert FirstOf(fetch, remoteTip, Gathered(fetch, remoteTip, n) + headers[..k], n + 1);
  }
}
