/** What the handshake guarantees, in every state of every run. */
module Agreement {
  import opened Base
  import opened Sessions
  import opened Peers
  import opened Handshake

  /** One step of a run: which peer, what it does, and when. */
  datatype Move = Move(peer: Key, step: Step, now: int)

  predicate MoveAt(wallet: Wallet, moves: seq<Move>, run: seq<World>, i: nat)
    requires i < |moves| && |run| == |moves| + 1
  {
    && Allowed(run[i], moves[i].peer, moves[i].step)
    && run[i + 1] == Next(wallet, run[i], moves[i].peer, moves[i].step, moves[i].now)
  }

  ghost predicate IsRun(wallet: Wallet, moves: seq<Move>, run: seq<World>) {
    && |run| == |moves| + 1
    && Initial(run[0])
    && forall i :: 0 <= i < |moves| ==> MoveAt(wallet, moves, run, i)
  }

  /** A state that some run reaches. */
  ghost predicate Reachable(wallet: Wallet, w: World) {
    exists moves, run :: IsRun(wallet, moves, run) && run[|moves|] == w
  }

  lemma {:induction false} RunKeepsInv(wallet: Wallet, moves: seq<Move>, run: seq<World>, n: nat)
    requires IsRun(wallet, moves, run) && n < |run|
    ensures Inv(wallet, run[n])
  {
    if n == 0 {
      InitialInv(wallet, run[0]);
    } else {
      RunKeepsInv(wallet, moves, run, n - 1);
      assert MoveAt(wallet, moves, run, n - 1);
      StepKeeps(wallet, run[n - 1], moves[n - 1].peer, moves[n - 1].step, moves[n - 1].now);
    }
  }

  lemma ReachableInv(wallet: Wallet, w: World)
    requires Reachable(wallet, w)
    ensures Inv(wallet, w)
  {
    var moves, run :| IsRun(wallet, moves, run) && run[|moves|] == w;
    RunKeepsInv(wallet, moves, run, |moves|);
  }

  lemma OwnSession(wallet: Wallet, w: World, p: Key, n: Nonce)
    requires Inv(wallet, w) && p in w.peers
    ensures n in SessionsOf(w, p) <==> Owns(w, p, n)
    ensures n in SessionsOf(w, p) ==>
              SessionOk(wallet, w, p, n, SessionsOf(w, p)[n]) && Find(w.peers[p], n) == Ok(SessionsOf(w, p)[n])
  {
    assert PeerOk(wallet, w, p, w.peers[p]);
  }

  /** A session of b answers to session n of a: crossed nonces, and each other's identity. */
  predicate Matches(w: World, a: Key, n: Nonce, b: Key) {
    && a in w.peers && b in w.peers && n in SessionsOf(w, a)
    && var s := SessionsOf(w, a)[n];
    && s.peerIdentityKey == Some(b)
    && s.peerNonce in SessionsOf(w, b)
    && var t := SessionsOf(w, b)[s.peerNonce];
    && t.peerNonce == n
    && t.peerIdentityKey == Some(a)
  }

  /** An initiator's session that accepted a response has a matching responder's session. */
  lemma InitiatorAgreement(wallet: Wallet, w: World, a: Key, n: Nonce)
    requires Reachable(wallet, w) && a in w.peers && n in SessionsOf(w, a) && n in w.requests
    requires SessionsOf(w, a)[n].peerNonce != ""
    ensures SessionsOf(w, a)[n].peerIdentityKey.Some?
    ensures Matches(w, a, n, SessionsOf(w, a)[n].peerIdentityKey.value)
  {
    ReachableInv(wallet, w);
    OwnSession(wallet, w, a, n);
    var s := SessionsOf(w, a)[n];
    assert AnswerOk(w, w.answers[s.peerNonce]);
    OwnSession(wallet, w, s.peerIdentityKey.value, s.peerNonce);
  }

  /** Two initiator sessions never match the same responder session. */
  lemma AgreementIsInjective(wallet: Wallet, w: World, a: Key, n: Nonce, a': Key, n': Nonce)
    requires Reachable(wallet, w) && a in w.peers && a' in w.peers
    requires n in SessionsOf(w, a) && n in w.requests && n' in SessionsOf(w, a') && n' in w.requests
    requires SessionsOf(w, a)[n].peerNonce == SessionsOf(w, a')[n'].peerNonce != ""
    ensures a == a' && n == n'
  {
    ReachableInv(wallet, w);
    OwnSession(wallet, w, a, n);
    OwnSession(wallet, w, a', n');
  }

  /** A responder's session names a session that its peer did start, with that nonce. */
  lemma ResponderSession(wallet: Wallet, w: World, b: Key, n: Nonce)
    requires Reachable(wallet, w) && b in w.peers && n in SessionsOf(w, b) && n !in w.requests
    ensures var t := SessionsOf(w, b)[n];
            && t.peerIdentityKey.Some? && t.peerIdentityKey.value in w.peers
            && t.peerNonce in SessionsOf(w, t.peerIdentityKey.value) && t.peerNonce in w.requests
  {
    ReachableInv(wallet, w);
    OwnSession(wallet, w, b, n);
    var t := SessionsOf(w, b)[n];
    assert AnswerOk(w, w.answers[n]);
    OwnSession(wallet, w, t.peerIdentityKey.value, t.peerNonce);
  }

  /** A general message signed on a session verifies at the other end under the receiver's key
      ID, and is accepted exactly when the receiver's session is authenticated; without a demand
      for certificates the receiver's session is, once it knows its peer's nonce. */
  lemma GeneralMessageVerifies(wallet: Wallet, w: World, a: Key, n: Nonce, nonce: Nonce, payload: Data, now: int)
    requires Reachable(wallet, w) && a in w.peers && n in SessionsOf(w, a) && SessionsOf(w, a)[n].peerNonce != ""
    ensures var s := SessionsOf(w, a)[n];
            && s.peerIdentityKey.Some? && s.peerIdentityKey.value in w.peers
            && var b := s.peerIdentityKey.value;
               var m := GeneralMessage(a, s, nonce, payload);
            && m.yourNonce in SessionsOf(w, b)
            && var t := SessionsOf(w, b)[m.yourNonce];
            && Verifies(b, t, m, payload)
            && (OnGeneral(b, w.peers[b], m, now).error.None? <==> t.isAuthenticated)
            && (t.peerNonce != "" && !wallet.needs(b) ==> OnGeneral(b, w.peers[b], m, now).error.None?)
  {
    ReachableInv(wallet, w);
    OwnSession(wallet, w, a, n);
    if n in w.requests {
      InitiatorAgreement(wallet, w, a, n);
    } else {
      ResponderSession(wallet, w, a, n);
    }
    var s := SessionsOf(w, a)[n];
    OwnSession(wallet, w, s.peerIdentityKey.value, s.peerNonce);
  }

  /** A general message that is accepted was signed, for this receiver, by a peer that has a
      session with it: on a responder's session by the session's own peer, on an initiator's
      session by a peer that answered the request. */
  lemma AcceptedIsAuthentic(wallet: Wallet, w: World, p: Key, m: Message, now: int)
    requires Reachable(wallet, w) && p in w.peers && m.General? && m.signature in w.signed
    requires OnGeneral(p, w.peers[p], m, now).error.None?
    ensures m.yourNonce in SessionsOf(w, p) && SessionsOf(w, p)[m.yourNonce].isAuthenticated
    ensures m.signature == Signature(m.identityKey, p, KeyID(m.nonce, m.yourNonce), m.payload)
    ensures m.yourNonce !in w.requests ==> SessionsOf(w, p)[m.yourNonce].peerIdentityKey == Some(m.identityKey)
    ensures m.yourNonce in w.requests ==> Answered(w, m.identityKey, m.yourNonce, p)
  {
    ReachableInv(wallet, w);
    OwnSession(wallet, w, p, m.yourNonce);
    MessageBinds(wallet, w, p, SessionsOf(w, p)[m.yourNonce], m, m.payload);
    if m.yourNonce in w.requests {
      LinkedAnswered(wallet, w, m.identityKey, m.yourNonce, p);
    }
  }

  /** A request for certificates that is accepted, and certificates that are, were likewise signed for
      this receiver. */
  lemma RequestIsAuthentic(wallet: Wallet, w: World, p: Key, m: Message, now: int)
    requires Reachable(wallet, w) && p in w.peers && m.CertificateRequest? && m.signature in w.signed
    requires OnCertificateRequest(p, w.peers[p], m, now).error.None?
    ensures m.yourNonce in SessionsOf(w, p)
    ensures m.signature == Signature(m.identityKey, p, KeyID(m.nonce, m.yourNonce), m.requested)
    ensures m.yourNonce !in w.requests ==> SessionsOf(w, p)[m.yourNonce].peerIdentityKey == Some(m.identityKey)
    ensures m.yourNonce in w.requests ==> Answered(w, m.identityKey, m.yourNonce, p)
  {
    ReachableInv(wallet, w);
    OwnSession(wallet, w, p, m.yourNonce);
    MessageBinds(wallet, w, p, SessionsOf(w, p)[m.yourNonce], m, m.requested);
    if m.yourNonce in w.requests {
      LinkedAnswered(wallet, w, m.identityKey, m.yourNonce, p);
    }
  }

  lemma CertificatesAreAuthentic(wallet: Wallet, w: World, p: Key, m: Message, now: int)
    requires Reachable(wallet, w) && p in w.peers && m.CertificateResponse? && m.signature in w.signed
    requires OnCertificateResponse(wallet, p, w.peers[p], m, now).error.None?
    ensures m.yourNonce in SessionsOf(w, p)
    ensures m.signature == Signature(m.identityKey, p, KeyID(m.nonce, m.yourNonce), wallet.encode(m.certificates))
    ensures m.yourNonce !in w.requests ==> SessionsOf(w, p)[m.yourNonce].peerIdentityKey == Some(m.identityKey)
    ensures m.yourNonce in w.requests ==> Answered(w, m.identityKey, m.yourNonce, p)
  {
    ReachableInv(wallet, w);
    OwnSession(wallet, w, p, m.yourNonce);
    MessageBinds(wallet, w, p, SessionsOf(w, p)[m.yourNonce], m, wallet.encode(m.certificates));
    if m.yourNonce in w.requests {
      LinkedAnswered(wallet, w, m.identityKey, m.yourNonce, p);
    }
  }

  /** Peer k has a session that answers session n of peer p. */
  ghost predicate Answered(w: World, k: Key, n: Nonce, p: Key) {
    && k in w.peers
    && exists z ::
         && z in SessionsOf(w, k)
         && SessionsOf(w, k)[z].peerNonce == n
         && SessionsOf(w, k)[z].peerIdentityKey == Some(p)
  }

  lemma LinkedAnswered(wallet: Wallet, w: World, k: Key, n: Nonce, p: Key)
    requires Inv(wallet, w) && Linked(w, k, n, p) && n in w.requests
    ensures Answered(w, k, n, p)
  {
    var z :| z in w.answers && w.answers[z] == Answer(k, p, n);
    assert AnswerOk(w, w.answers[z]);
    OwnSession(wallet, w, k, z);
  }

  /** Where certificates are required, no session is authenticated before certificates were
      validated for it. On a responder's session these are the certificates of its peer, on an
      initiator's session those of a peer that answered the request. */
  lemma CertificatesFirst(wallet: Wallet, w: World, p: Key, n: Nonce)
    requires Reachable(wallet, w) && p in w.peers && wallet.needs(p)
    requires n in SessionsOf(w, p) && SessionsOf(w, p)[n].isAuthenticated
    ensures n !in w.requests ==>
              SessionsOf(w, p)[n].peerIdentityKey.Some? && (n, SessionsOf(w, p)[n].peerIdentityKey.value) in w.validated
    ensures n in w.requests ==> exists id :: (n, id) in w.validated && Answered(w, id, n, p)
  {
    ReachableInv(wallet, w);
    OwnSession(wallet, w, p, n);
    assert Certified(w, n);
    var id :| (n, id) in w.validated;
    assert ValidatedAt(w, n, id);
    if n in w.requests {
      LinkedAnswered(wallet, w, id, n, p);
    }
  }

  /** Only peer t has answered the request n. */
  ghost predicate OnlyAnswerer(w: World, n: Nonce, t: Key) {
    forall z :: z in w.answers && w.answers[z].requestNonce == n ==> w.answers[z].responder == t
  }

  /** A general message that peer a would accept on session n. */
  predicate AcceptsOn(w: World, a: Key, n: Nonce, m: Message, now: int) {
    && a in w.peers && m.General? && m.yourNonce == n && m.signature in w.signed
    && OnGeneral(a, w.peers[a], m, now).error.None?
  }

  /** When only the peer that was asked for has answered, the session's peer, the sender of every
      general message accepted on it, and the identity of all certificates validated for it are
      that peer. */
  lemma SoleAnswerer(wallet: Wallet, w: World, a: Key, n: Nonce, t: Key)
    requires Reachable(wallet, w) && a in w.peers && n in SessionsOf(w, a) && n in w.requests && OnlyAnswerer(w, n, t)
    ensures SessionsOf(w, a)[n].peerNonce != "" ==> SessionsOf(w, a)[n].peerIdentityKey == Some(t)
    ensures forall id :: (n, id) in w.validated ==> id == t
    ensures forall m: Message, now: int :: AcceptsOn(w, a, n, m, now) ==> m.identityKey == t
  {
    ReachableInv(wallet, w);
    OwnSession(wallet, w, a, n);
    forall id | (n, id) in w.validated
      ensures id == t
    {
      assert ValidatedAt(w, n, id);
      var z :| z in w.answers && w.answers[z] == Answer(id, a, n);
    }
    forall m: Message, now: int | AcceptsOn(w, a, n, m, now)
      ensures m.identityKey == t
    {
      MessageBinds(wallet, w, a, SessionsOf(w, a)[n], m, m.payload);
      var z :| z in w.answers && w.answers[z] == Answer(m.identityKey, a, n);
    }
  }

  /** A request, its answer and the delivery of the answer complete a handshake from any state:
      the two sessions match, and each end is authenticated unless it requires certificates. */
  lemma HandshakeCompletes(wallet: Wallet, w: World, a: Key, b: Key, n: Nonce, i: Nonce, target: Option<Key>, now: int)
    requires Inv(wallet, w) && a in w.peers && b in w.peers && Fresh(w, n) && Fresh(w, i) && n != i
    ensures var asked := Next(wallet, w, a, Start(n, target), now);
            var request := InitialRequest(a, n);
            && Allowed(asked, b, Respond(request, i))
            && var answered := Next(wallet, asked, b, Respond(request, i), now);
               var response := OnInitialRequest(wallet, b, asked.peers[b], request, i, now).reply;
            && response.Some? && Allowed(answered, a, Deliver(response.value))
            && var met := Next(wallet, answered, a, Deliver(response.value), now);
            && Matches(met, a, n, b)
            && SessionsOf(met, a)[n].isAuthenticated == !wallet.needs(a)
            && SessionsOf(met, b)[i].isAuthenticated == !wallet.needs(b)
  {
    var asked := Next(wallet, w, a, Start(n, target), now);
    AddSessions(w.peers[a].table, Session(false, n, "", target, now));
    StepKeeps(wallet, w, a, Start(n, target), now);
    var request := InitialRequest(a, n);
    var answered := Next(wallet, asked, b, Respond(request, i), now);
    AddSessions(asked.peers[b].table, Session(!wallet.needs(b), i, n, Some(a), now));
    ResponseArrives(wallet, asked, answered, a, b, n, i, target, now);
  }

  lemma ResponseArrives(wallet: Wallet, asked: World, answered: World, a: Key, b: Key, n: Nonce, i: Nonce,
                        target: Option<Key>, now: int)
    requires a in asked.peers && b in asked.peers && a in answered.peers && b in answered.peers && IsNonce(n) && n != i
    requires n in SessionsOf(answered, a) && n in answered.peers[a].issued
    requires SessionsOf(answered, a)[n] == Session(false, n, "", target, now)
    requires i in SessionsOf(answered, b) && SessionsOf(answered, b)[i] == Session(!wallet.needs(b), i, n, Some(a), now)
    requires OnInitialRequest(wallet, b, asked.peers[b], InitialRequest(a, n), i, now).reply.Some?
    requires
      OnInitialRequest(wallet, b, asked.peers[b], InitialRequest(a, n), i, now).reply.value.signature in answered.signed
    ensures var response := OnInitialRequest(wallet, b, asked.peers[b], InitialRequest(a, n), i, now).reply.value;
            && Allowed(answered, a, Deliver(response))
            && var met := Next(wallet, answered, a, Deliver(response), now);
            && Matches(met, a, n, b)
            && SessionsOf(met, a)[n].isAuthenticated == !wallet.needs(a)
            && SessionsOf(met, b)[i].isAuthenticated == !wallet.needs(b)
  {
    var response := OnInitialRequest(wallet, b, asked.peers[b], InitialRequest(a, n), i, now).reply.value;
    HandleTouchesOne(wallet, a, answered.peers[a], response, now);
  }

  lemma ReachableNext(wallet: Wallet, w: World, p: Key, step: Step, now: int)
    requires Reachable(wallet, w) && Allowed(w, p, step)
    ensures Reachable(wallet, Next(wallet, w, p, step, now))
  {
    var moves, run :| IsRun(wallet, moves, run) && run[|moves|] == w;
    var moves', run' := moves + [Move(p, step, now)], run + [Next(wallet, w, p, step, now)];
    forall i | 0 <= i < |moves'|
      ensures MoveAt(wallet, moves', run', i)
    {
      if i < |moves| {
        assert MoveAt(wallet, moves, run, i);
      }
    }
    assert IsRun(wallet, moves', run') && run'[|moves'|] == Next(wallet, w, p, step, now);
  }

  /** The peer that answers is not compared with the one that was asked for: a handshake started
      for t and answered by b ends in an authenticated session with b. */
  lemma TargetIsNotCompared(wallet: Wallet, w: World, a: Key, b: Key, t: Key, n: Nonce, i: Nonce, now: int)
    returns (met: World)
    requires Reachable(wallet, w) && a in w.peers && b in w.peers && b != t && Fresh(w, n) && Fresh(w, i) && n != i
    requires !wallet.needs(a)
    ensures Reachable(wallet, met) && a in met.peers && n in SessionsOf(met, a)
    ensures var asked := Next(wallet, w, a, Start(n, Some(t)), now);
            a in asked.peers && n in SessionsOf(asked, a) && SessionsOf(asked, a)[n].peerIdentityKey == Some(t)
    ensures SessionsOf(met, a)[n].isAuthenticated && SessionsOf(met, a)[n].peerIdentityKey == Some(b)
  {
    ReachableInv(wallet, w);
    HandshakeCompletes(wallet, w, a, b, n, i, Some(t), now);
    AddSessions(w.peers[a].table, Session(false, n, "", Some(t), now));
    var asked := Next(wallet, w, a, Start(n, Some(t)), now);
    var request := InitialRequest(a, n);
    var answered := Next(wallet, asked, b, Respond(request, i), now);
    var response := OnInitialRequest(wallet, b, asked.peers[b], request, i, now).reply.value;
    met := Next(wallet, answered, a, Deliver(response), now);
    ReachableNext(wallet, w, a, Start(n, Some(t)), now);
    ReachableNext(wallet, asked, b, Respond(request, i), now);
    ReachableNext(wallet, answered, a, Deliver(response), now);
  }

  // ----- Steps of a handshake, one by one

  /** A reply to the request n of a, by a peer that made session i for it. */
  function Reply(wallet: Wallet, a: Key, n: Nonce, b: Key, i: Nonce): Message {
    InitialResponse(b, n, i, [], Signature(b, a, KeyID(n, i), ResponseData(wallet, n, i)))
  }

  /** Peer b answers the request n of a, and nothing else changes. */
  lemma Answers(wallet: Wallet, w: World, a: Key, n: Nonce, b: Key, i: Nonce, now: int) returns (after: World)
    requires Reachable(wallet, w) && b in w.peers && n in w.requests && w.requests[n] == a && Fresh(w, i)
    ensures Reachable(wallet, after) && after.peers.Keys == w.peers.Keys && after.requests == w.requests
    ensures after.used == w.used + {i} && after.validated == w.validated
    ensures forall q :: q in w.peers && q != b ==> after.peers[q] == w.peers[q]
    ensures after.peers[b].table == Add(w.peers[b].table, Session(!wallet.needs(b), i, n, Some(a), now))
    ensures i in SessionsOf(after, b) && SessionsOf(after, b)[i] == Session(!wallet.needs(b), i, n, Some(a), now)
    ensures Reply(wallet, a, n, b, i).signature in after.signed && w.signed <= after.signed
  {
    ReachableInv(wallet, w);
    var step := Respond(InitialRequest(a, n), i);
    after := Next(wallet, w, b, step, now);
    AddSessions(w.peers[b].table, Session(!wallet.needs(b), i, n, Some(a), now));
    ReachableNext(wallet, w, b, step, now);
  }
}
