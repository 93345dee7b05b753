/**
 Whether the sessions that a peer finds under an identity key are sessions with that identity,
 in the states that handshakes reach.
 */
module Listings {
  import opened Base
  import opened Sessions
  import opened Peers
  import opened Handshake
  import opened Agreement

  ghost predicate TablesExact(w: World) {
    forall p :: p in w.peers ==> Exact(w.peers[p].table)
  }

  /** The check that the handler of a response does not make: the session was started for no
      peer in particular, or for the one that answers; and for that one if certificates that
      came along are not valid, because then the key is set and the index is not. */
  predicate AnswersTarget(wallet: Wallet, p: Key, s: Session, m: Message)
    requires m.InitialResponse?
  {
    if wallet.needs(p) && |m.certificates| > 0 && !wallet.valid(p, m.identityKey, m.certificates)
    then s.peerIdentityKey == Some(m.identityKey)
    else s.peerIdentityKey in {None, Some(m.identityKey)}
  }

  predicate KeepsListing(wallet: Wallet, w: World, p: Key, step: Step)
    requires Allowed(w, p, step)
  {
    step.Deliver? && step.m.InitialResponse? && Find(w.peers[p], step.m.yourNonce).Ok? ==>
      var s := Find(w.peers[p], step.m.yourNonce).value;
      ResponseVerifies(wallet, p, s, step.m) ==> AnswersTarget(wallet, p, s, step.m)
  }

  // ----- One step

  lemma TablesReplaced(w: World, after: World, p: Key, s: PeerState)
    requires TablesExact(w) && p in w.peers && after.peers == w.peers[p := s]
    ensures TablesExact(after) <==> Exact(s.table)
  {
    if TablesExact(after) {
      assert after.peers[p] == s;
    }
  }

  /** Updating a stored session without changing its key. */
  lemma SameKeyExact(t: Table, s: Session)
    requires Exact(t) && s.sessionNonce in t.sessions
    requires s.peerIdentityKey == t.sessions[s.sessionNonce].peerIdentityKey
    ensures Exact(Update(t, s))
  {
    UpdateExact(t, s);
  }

  lemma ResponseExactIff(wallet: Wallet, p: Key, s: PeerState, m: Message, now: int)
    requires m.InitialResponse? && Exact(s.table) && Find(s, m.yourNonce).Ok?
    ensures Exact(OnInitialResponse(wallet, p, s, m, now).peer.table) <==>
            (ResponseVerifies(wallet, p, Find(s, m.yourNonce).value, m) ==>
               AnswersTarget(wallet, p, Find(s, m.yourNonce).value, m))
  {
    var t := Find(s, m.yourNonce).value;
    if ResponseVerifies(wallet, p, t, m) {
      var met := t.(peerNonce := m.initialNonce, peerIdentityKey := Some(m.identityKey), lastUpdate := now);
      FieldWriteExact(s.table, met);
      UpdateExact(s.table, met.(isAuthenticated := !wallet.needs(p) || |m.certificates| > 0));
    }
  }

  lemma MessageExact(wallet: Wallet, p: Key, s: PeerState, m: Message, now: int)
    requires m.General? || m.CertificateRequest? || m.CertificateResponse?
    requires Exact(s.table)
    ensures Exact(Handle(wallet, p, s, m, "", now).peer.table)
  {
    if Find(s, m.yourNonce).Ok? {
      var t := Find(s, m.yourNonce).value;
      SameKeyExact(s.table, t.(lastUpdate := now));
      SameKeyExact(s.table, t.(lastUpdate := now, isAuthenticated := true));
    }
  }

  lemma FreshIsUnknown(wallet: Wallet, w: World, p: Key, nonce: Nonce)
    requires Inv(wallet, w) && p in w.peers && Fresh(w, nonce)
    ensures nonce !in SessionsOf(w, p)
  {
    OwnSession(wallet, w, p, nonce);
  }

  /** When every peer's index is exact, a step keeps that so if and only if a response that it
      accepts is from the peer that was asked for. */
  lemma StepExactIff(wallet: Wallet, w: World, p: Key, step: Step, now: int)
    requires Inv(wallet, w) && TablesExact(w) && Allowed(w, p, step)
    ensures TablesExact(Next(wallet, w, p, step, now)) <==> KeepsListing(wallet, w, p, step)
  {
    var after, s := Next(wallet, w, p, step, now), w.peers[p];
    match step
    case Start(nonce, target) =>
      FreshIsUnknown(wallet, w, p, nonce);
      AddExact(s.table, Session(false, nonce, "", target, now));
      TablesReplaced(w, after, p, after.peers[p]);
    case Respond(m, nonce) =>
      FreshIsUnknown(wallet, w, p, nonce);
      AddExact(s.table, Session(!wallet.needs(p), nonce, m.initialNonce, Some(m.identityKey), now));
      TablesReplaced(w, after, p, after.peers[p]);
    case Deliver(m) =>
      TablesReplaced(w, after, p, after.peers[p]);
      if m.InitialResponse? {
        if Find(s, m.yourNonce).Ok? {
          ResponseExactIff(wallet, p, s, m, now);
        }
      } else {
        MessageExact(wallet, p, s, m, now);
      }
    case Sign(n, _, _, _, _) =>
      SameKeyExact(s.table, SessionsOf(w, p)[n].(lastUpdate := now));
      TablesReplaced(w, after, p, after.peers[p]);
  }

  // ----- Runs

  ghost predicate ExactAt(run: seq<World>, i: nat)
    requires i < |run|
  {
    TablesExact(run[i])
  }

  predicate KeepsListingAt(wallet: Wallet, moves: seq<Move>, run: seq<World>, i: nat)
    requires i < |moves| && |run| == |moves| + 1
  {
    Allowed(run[i], moves[i].peer, moves[i].step) && KeepsListing(wallet, run[i], moves[i].peer, moves[i].step)
  }

  lemma ExactStepAt(wallet: Wallet, moves: seq<Move>, run: seq<World>, i: nat)
    requires IsRun(wallet, moves, run) && i < |moves| && ExactAt(run, i)
    ensures ExactAt(run, i + 1) <==> KeepsListingAt(wallet, moves, run, i)
  {
    assert MoveAt(wallet, moves, run, i);
    RunKeepsInv(wallet, moves, run, i);
    StepExactIff(wallet, run[i], moves[i].peer, moves[i].step, moves[i].now);
  }

  lemma InitialExact(w: World)
    requires Initial(w)
    ensures TablesExact(w)
  {
    forall p | p in w.peers
      ensures Exact(w.peers[p].table)
    {
      assert forall k, n :: !Listed(NO_SESSIONS, k, n) && !HasKey(NO_SESSIONS, k, n);
    }
  }

  /** In every run every peer's index is exact, after every step, if and only if every response
      that is accepted comes from the peer that was asked for. */
  lemma {:induction false} RunExactIff(wallet: Wallet, moves: seq<Move>, run: seq<World>, n: nat)
    requires IsRun(wallet, moves, run) && n <= |moves|
    ensures (forall i :: 0 <= i <= n ==> ExactAt(run, i)) <==>
            (forall i :: 0 <= i < n ==> KeepsListingAt(wallet, moves, run, i))
  {
    if n == 0 {
      InitialExact(run[0]);
    } else {
      RunExactIff(wallet, moves, run, n - 1);
      if ExactAt(run, n - 1) {
        ExactStepAt(wallet, moves, run, n - 1);
      }
    }
  }

  // ----- A session found under the wrong key

  /** A handshake started for t and answered by b leaves an authenticated session with b listed
      under t: it is what looking for an authenticated session with t finds. */
  lemma OtherPeerIsListed(wallet: Wallet, w: World, a: Key, b: Key, t: Key, n: Nonce, i: Nonce, now: int)
    returns (met: World)
    requires Reachable(wallet, w) && a in w.peers && b in w.peers && b != t && Fresh(w, n) && Fresh(w, i) && n != i
    requires !wallet.needs(a)
    ensures Reachable(wallet, met) && a in met.peers && n in SessionsOf(met, a)
    ensures SessionsOf(met, a)[n].isAuthenticated && SessionsOf(met, a)[n].peerIdentityKey == Some(b)
    ensures Listed(met.peers[a].table, t, n) && !Exact(met.peers[a].table)
  {
    ReachableInv(wallet, w);
    var first := Session(false, n, "", Some(t), now);
    var asked := Next(wallet, w, a, Start(n, Some(t)), now);
    ReachableNext(wallet, w, a, Start(n, Some(t)), now);
    ListedAfterAdd(w.peers[a].table, first, t, n);
    AddSessions(w.peers[a].table, first);
    var answered := Answers(wallet, asked, a, n, b, i, now);
    StillListed(wallet, asked, answered, a, b, t, n, i, now);
    met := Next(wallet, answered, a, Deliver(Reply(wallet, a, n, b, i)), now);
    ReachableNext(wallet, answered, a, Deliver(Reply(wallet, a, n, b, i)), now);
    ReachableInv(wallet, answered);
    OwnSession(wallet, answered, a, n);
    ReplyMoves(wallet, answered.peers[a], a, n, b, i, t, SessionsOf(answered, a)[n], now);
  }

  lemma StillListed(wallet: Wallet, asked: World, answered: World, a: Key, b: Key, t: Key, n: Nonce, i: Nonce, now: int)
    requires a in asked.peers && b in asked.peers && answered.peers.Keys == asked.peers.Keys && IsNonce(i) && i != n
    requires Listed(asked.peers[a].table, t, n) && n in SessionsOf(asked, a)
    requires b != a ==> answered.peers[a] == asked.peers[a]
    requires answered.peers[b].table == Add(asked.peers[b].table, Session(!wallet.needs(b), i, n, Some(a), now))
    ensures Listed(answered.peers[a].table, t, n) && n in SessionsOf(answered, a)
  {
    if a == b {
      ListedAfterAdd(asked.peers[a].table, Session(!wallet.needs(b), i, n, Some(a), now), t, n);
    }
  }

  /** A reply that is accepted lists the session under its sender, beside the old listing. */
  lemma ReplyMoves(wallet: Wallet, p: PeerState, a: Key, n: Nonce, b: Key, i: Nonce, t: Key, s: Session, now: int)
    requires Find(p, n) == Ok(s) && s.sessionNonce == n && n != "" && !wallet.needs(a)
    requires Listed(p.table, t, n) && b != t
    ensures var after := Handle(wallet, a, p, Reply(wallet, a, n, b, i), "", now).peer.table;
            && n in after.sessions && after.sessions[n].isAuthenticated && after.sessions[n].peerIdentityKey == Some(b)
            && Listed(after, t, n) && !Exact(after)
  {
    var met := s.(peerNonce := i, peerIdentityKey := Some(b), lastUpdate := now, isAuthenticated := true);
    AddSessions(p.table, met);
    OldListingStays(p.table, met, t);
  }
}
