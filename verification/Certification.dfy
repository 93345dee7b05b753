/**
 Whether an authenticated session's own peer was certified. The handler of a certificate
 response does not compare the sender with the session's peer, so this needs more than the
 handshake alone; here is exactly what.
 */
module Certification {
  import opened Base
  import opened Sessions
  import opened Peers
  import opened Handshake
  import opened Agreement

  /** Where certificates are required, an authenticated session knows its peer, and certificates
      of that peer were validated for it. */
  ghost predicate CertifiedSession(wallet: Wallet, w: World, p: Key, n: Nonce, s: Session) {
    wallet.needs(p) && s.isAuthenticated ==>
      s.peerIdentityKey.Some? && (n, s.peerIdentityKey.value) in w.validated
  }

  ghost predicate PeersCertified(wallet: Wallet, w: World) {
    forall p, n :: p in w.peers && n in SessionsOf(w, p) ==> CertifiedSession(wallet, w, p, n, SessionsOf(w, p)[n])
  }

  /** The certificates that came with this message make the handler authenticate the session. */
  predicate Authenticates(wallet: Wallet, p: Key, s: Session, m: Message) {
    && m.CertificateResponse? && |m.certificates| > 0
    && Verifies(p, s, m, wallet.encode(m.certificates)) && wallet.valid(p, m.identityKey, m.certificates)
  }

  /** The response is accepted, but certificates that came with it are not valid. */
  predicate MeetsWithoutCertificates(wallet: Wallet, p: Key, s: Session, m: Message) {
    && m.InitialResponse? && |m.certificates| > 0
    && ResponseVerifies(wallet, p, s, m) && !wallet.valid(p, m.identityKey, m.certificates)
  }

  /** The two checks that the handlers do not make: the sender of certificates that authenticate
      a session is the session's peer, unless that peer was certified before; and a peer that
      takes over an authenticated session was certified before. */
  predicate GuardsHold(wallet: Wallet, w: World, p: Key, s: Session, m: Message)
    requires !m.InitialRequest?
  {
    && (Authenticates(wallet, p, s, m) ==>
          && s.peerIdentityKey.Some?
          && (m.identityKey == s.peerIdentityKey.value || (m.yourNonce, s.peerIdentityKey.value) in w.validated))
    && (MeetsWithoutCertificates(wallet, p, s, m) && s.isAuthenticated ==> (m.yourNonce, m.identityKey) in w.validated)
  }

  predicate KeepsCertified(wallet: Wallet, w: World, p: Key, step: Step)
    requires Allowed(w, p, step)
  {
    step.Deliver? && wallet.needs(p) && Find(w.peers[p], step.m.yourNonce).Ok? ==>
      GuardsHold(wallet, w, p, Find(w.peers[p], step.m.yourNonce).value, step.m)
  }

  // ----- One step

  /** One session of one peer changed, and nothing was unvalidated. */
  lemma CertifiedReplaced(wallet: Wallet, w: World, after: World, p: Key, s: PeerState, n: Nonce, t: Session)
    requires PeersCertified(wallet, w) && p in w.peers && after.peers == w.peers[p := s]
    requires s.table.sessions == SessionsOf(w, p)[n := t] && w.validated <= after.validated
    ensures PeersCertified(wallet, after) <==> CertifiedSession(wallet, after, p, n, t)
  {
    if PeersCertified(wallet, after) {
      assert n in SessionsOf(after, p);
    }
    if CertifiedSession(wallet, after, p, n, t) {
      forall q, m | q in after.peers && m in SessionsOf(after, q)
        ensures CertifiedSession(wallet, after, q, m, SessionsOf(after, q)[m])
      {
        if q != p || m != n {
          assert CertifiedSession(wallet, w, q, m, SessionsOf(w, q)[m]);
        }
      }
    }
  }

  /** What the handled session needs is exactly the guards. */
  lemma HandledIsCertifiedIff(wallet: Wallet, w: World, after: World, p: Key, s: Session, m: Message, now: int)
    requires p in w.peers && !m.InitialRequest? && wallet.needs(p) && Find(w.peers[p], m.yourNonce) == Ok(s)
    requires CertifiedSession(wallet, w, p, m.yourNonce, s)
    requires after.validated ==
             if Certifies(wallet, p, w.peers[p], m) then w.validated + {(m.yourNonce, m.identityKey)} else w.validated
    ensures CertifiedSession(wallet, after, p, m.yourNonce, After(wallet, p, s, m, now)) <==>
            GuardsHold(wallet, w, p, s, m)
  {
    match m
    case InitialResponse(_, _, _, _, _) =>
    case CertificateRequest(_, _, _, _, _) =>
    case CertificateResponse(_, _, _, _, _) =>
    case General(_, _, _, _, _) =>
  }

  lemma DeliverCertifiedIff(wallet: Wallet, w: World, p: Key, m: Message, now: int, after: World)
    requires Inv(wallet, w) && PeersCertified(wallet, w) && Allowed(w, p, Deliver(m))
    requires after == Next(wallet, w, p, Deliver(m), now)
    ensures PeersCertified(wallet, after) <==> KeepsCertified(wallet, w, p, Deliver(m))
  {
    OwnSession(wallet, w, p, m.yourNonce);
    HandleTouchesOne(wallet, p, w.peers[p], m, now);
    if Find(w.peers[p], m.yourNonce).Ok? {
      var s := Find(w.peers[p], m.yourNonce).value;
      assert CertifiedSession(wallet, w, p, m.yourNonce, s);
      CertifiedReplaced(wallet, w, after, p, after.peers[p], m.yourNonce, After(wallet, p, s, m, now));
      if wallet.needs(p) {
        HandledIsCertifiedIff(wallet, w, after, p, s, m, now);
      }
    } else {
      assert after.peers == w.peers;
    }
  }

  /** When every authenticated session's peer is certified, a step keeps that so if and only if
      the guards hold of it. */
  lemma StepCertifiedIff(wallet: Wallet, w: World, p: Key, step: Step, now: int)
    requires Inv(wallet, w) && PeersCertified(wallet, w) && Allowed(w, p, step)
    ensures PeersCertified(wallet, Next(wallet, w, p, step, now)) <==> KeepsCertified(wallet, w, p, step)
  {
    var after := Next(wallet, w, p, step, now);
    match step
    case Start(nonce, target) =>
      var t := Session(false, nonce, "", target, now);
      AddSessions(w.peers[p].table, t);
      CertifiedReplaced(wallet, w, after, p, after.peers[p], nonce, t);
    case Respond(m, nonce) =>
      assert IsNonce(m.initialNonce);
      var t := Session(!wallet.needs(p), nonce, m.initialNonce, Some(m.identityKey), now);
      AddSessions(w.peers[p].table, t);
      CertifiedReplaced(wallet, w, after, p, after.peers[p], nonce, t);
    case Deliver(m) =>
      DeliverCertifiedIff(wallet, w, p, m, now, after);
    case Sign(n, _, _, _, _) =>
      OwnSession(wallet, w, p, n);
      var t := SessionsOf(w, p)[n].(lastUpdate := now);
      AddSessions(w.peers[p].table, t);
      assert CertifiedSession(wallet, w, p, n, SessionsOf(w, p)[n]);
      CertifiedReplaced(wallet, w, after, p, after.peers[p], n, t);
  }

  // ----- Runs

  ghost predicate CertifiedAt(wallet: Wallet, run: seq<World>, i: nat)
    requires i < |run|
  {
    PeersCertified(wallet, run[i])
  }

  predicate KeepsCertifiedAt(wallet: Wallet, moves: seq<Move>, run: seq<World>, i: nat)
    requires i < |moves| && |run| == |moves| + 1
  {
    Allowed(run[i], moves[i].peer, moves[i].step) && KeepsCertified(wallet, run[i], moves[i].peer, moves[i].step)
  }

  lemma CertifiedStepAt(wallet: Wallet, moves: seq<Move>, run: seq<World>, i: nat)
    requires IsRun(wallet, moves, run) && i < |moves| && CertifiedAt(wallet, run, i)
    ensures CertifiedAt(wallet, run, i + 1) <==> KeepsCertifiedAt(wallet, moves, run, i)
  {
    assert MoveAt(wallet, moves, run, i);
    RunKeepsInv(wallet, moves, run, i);
    StepCertifiedIff(wallet, run[i], moves[i].peer, moves[i].step, moves[i].now);
  }

  /** In every run every authenticated session's peer is certified, after every step, if and only
      if the guards hold of every step. */
  lemma {:induction false} RunCertifiedIff(wallet: Wallet, moves: seq<Move>, run: seq<World>, n: nat)
    requires IsRun(wallet, moves, run) && n <= |moves|
    ensures (forall i :: 0 <= i <= n ==> CertifiedAt(wallet, run, i)) <==>
            (forall i :: 0 <= i < n ==> KeepsCertifiedAt(wallet, moves, run, i))
  {
    if n > 0 {
      RunCertifiedIff(wallet, moves, run, n - 1);
      if CertifiedAt(wallet, run, n - 1) {
        CertifiedStepAt(wallet, moves, run, n - 1);
      }
    }
  }

  // ----- A peer that was never certified

  lemma FoundByNonce(wallet: Wallet, w: World, a: Key, n: Nonce)
    requires Reachable(wallet, w) && a in w.peers && n in SessionsOf(w, a)
    ensures n != "" && SessionsOf(w, a)[n].sessionNonce == n && Find(w.peers[a], n) == Ok(SessionsOf(w, a)[n])
  {
    ReachableInv(wallet, w);
    OwnSession(wallet, w, a, n);
  }

  lemma FreshIsNotValidated(wallet: Wallet, w: World, n: Nonce, id: Key)
    requires Reachable(wallet, w) && Fresh(w, n)
    ensures (n, id) !in w.validated
  {
    ReachableInv(wallet, w);
    assert (n, id) in w.validated ==> ValidatedAt(w, n, id);
  }

  /** A message delivered on a known session. */
  lemma Delivered(wallet: Wallet, w: World, a: Key, m: Message, now: int) returns (after: World)
    requires Reachable(wallet, w) && a in w.peers && !m.InitialRequest? && m.signature in w.signed
    requires m.yourNonce in SessionsOf(w, a)
    ensures Reachable(wallet, after) && after.peers.Keys == w.peers.Keys
    ensures after.used == w.used && after.signed == w.signed
    ensures after.validated ==
            if Certifies(wallet, a, w.peers[a], m) then w.validated + {(m.yourNonce, m.identityKey)} else w.validated
    ensures forall q :: q in w.peers && q != a ==> after.peers[q] == w.peers[q]
    ensures SessionsOf(after, a) ==
            SessionsOf(w, a)[m.yourNonce := After(wallet, a, SessionsOf(w, a)[m.yourNonce], m, now)]
  {
    FoundByNonce(wallet, w, a, m.yourNonce);
    after := Next(wallet, w, a, Deliver(m), now);
    HandleTouchesOne(wallet, a, w.peers[a], m, now);
    ReachableNext(wallet, w, a, Deliver(m), now);
  }

  /** Delivering the reply makes its sender the session's peer. */
  lemma Meets(wallet: Wallet, w: World, a: Key, n: Nonce, b: Key, i: Nonce, now: int) returns (after: World)
    requires Reachable(wallet, w) && a in w.peers && n in SessionsOf(w, a)
    requires SessionsOf(w, a)[n].sessionNonce == n && Reply(wallet, a, n, b, i).signature in w.signed
    ensures Reachable(wallet, after) && after.peers.Keys == w.peers.Keys
    ensures after.used == w.used && after.validated == w.validated
    ensures forall q :: q in w.peers && q != a ==> after.peers[q] == w.peers[q]
    ensures n in SessionsOf(after, a) && SessionsOf(after, a)[n].peerIdentityKey == Some(b)
    ensures SessionsOf(after, a)[n].sessionNonce == n && SessionsOf(after, a)[n].isAuthenticated == !wallet.needs(a)
  {
    after := Delivered(wallet, w, a, Reply(wallet, a, n, b, i), now);
  }

  function CertificateMessage(wallet: Wallet, a: Key, n: Nonce, b: Key, r: Nonce, certs: seq<Certificate>): Message {
    CertificateResponse(b, r, n, certs, Signature(b, a, KeyID(r, n), wallet.encode(certs)))
  }

  /** Peer b signs its certificates on its own session. */
  lemma SignsCertificates(wallet: Wallet, w: World, a: Key, n: Nonce, b: Key, i: Nonce, r: Nonce,
                          certs: seq<Certificate>, now: int)
    returns (after: World)
    requires Reachable(wallet, w) && a in w.peers && b in w.peers && a != b && Fresh(w, r)
    requires i in SessionsOf(w, b) && SessionsOf(w, b)[i].peerNonce == n
    ensures Reachable(wallet, after) && after.peers.Keys == w.peers.Keys && after.peers[a] == w.peers[a]
    ensures after.validated == w.validated && CertificateMessage(wallet, a, n, b, r, certs).signature in after.signed
  {
    var step := Sign(i, r, a, wallet.encode(certs), true);
    after := Next(wallet, w, b, step, now);
    ReachableNext(wallet, w, b, step, now);
  }

  /** They authenticate the session at the other end, whoever that session's peer is. */
  lemma CertificatesArrive(wallet: Wallet, w: World, a: Key, n: Nonce, b: Key, r: Nonce, certs: seq<Certificate>,
                           now: int)
    returns (after: World)
    requires Reachable(wallet, w) && a in w.peers && n in SessionsOf(w, a) && SessionsOf(w, a)[n].sessionNonce == n
    requires CertificateMessage(wallet, a, n, b, r, certs).signature in w.signed
    requires |certs| > 0 && wallet.valid(a, b, certs)
    ensures Reachable(wallet, after) && a in after.peers && n in SessionsOf(after, a)
    ensures SessionsOf(after, a)[n].isAuthenticated
    ensures SessionsOf(after, a)[n].peerIdentityKey == SessionsOf(w, a)[n].peerIdentityKey
    ensures after.validated <= w.validated + {(n, b)}
  {
    after := Delivered(wallet, w, a, CertificateMessage(wallet, a, n, b, r, certs), now);
  }

  /** Peers b and c answer the request n of a, and the reply of c is delivered. */
  lemma TwoAnswers(wallet: Wallet, w: World, a: Key, b: Key, c: Key, n: Nonce, i: Nonce, j: Nonce, now: int)
    returns (after: World)
    requires Reachable(wallet, w) && a in w.peers && b in w.peers && c in w.peers && a != b && a != c && b != c
    requires Fresh(w, n) && Fresh(w, i) && Fresh(w, j) && n != i && n != j && i != j
    ensures Reachable(wallet, after) && after.peers.Keys == w.peers.Keys
    ensures after.used == w.used + {n, i, j} && after.validated == w.validated
    ensures n in SessionsOf(after, a) && SessionsOf(after, a)[n].peerIdentityKey == Some(c)
    ensures SessionsOf(after, a)[n].isAuthenticated == !wallet.needs(a)
    ensures i in SessionsOf(after, b) && SessionsOf(after, b)[i].peerNonce == n
    ensures SessionsOf(after, b)[i].peerIdentityKey == Some(a)
  {
    var asked := Asks(wallet, w, a, n, now);
    var once := Answers(wallet, asked, a, n, b, i, now);
    var twice := Answers(wallet, once, a, n, c, j, now);
    FoundByNonce(wallet, twice, a, n);
    after := Meets(wallet, twice, a, n, c, j, now);
  }

  lemma Asks(wallet: Wallet, w: World, a: Key, n: Nonce, now: int) returns (after: World)
    requires Reachable(wallet, w) && a in w.peers && Fresh(w, n)
    ensures Reachable(wallet, after) && after.peers.Keys == w.peers.Keys && n in SessionsOf(after, a)
    ensures after.used == w.used + {n} && after.validated == w.validated && n in after.requests
    ensures after.requests[n] == a
  {
    after := Next(wallet, w, a, Start(n, None), now);
    ReachableNext(wallet, w, a, Start(n, None), now);
    AddSessions(w.peers[a].table, Session(false, n, "", None, now));
  }

  /** Peer a requires certificates. Two peers answer its request; c is the session's peer, b sends
      certificates. The session is authenticated, and c was never certified. */
  lemma UncertifiedPeerIsAuthenticated(wallet: Wallet, w: World, a: Key, b: Key, c: Key, certs: seq<Certificate>,
                                       n: Nonce, i: Nonce, j: Nonce, r: Nonce, now: int) returns (after: World)
    requires Reachable(wallet, w) && a in w.peers && b in w.peers && c in w.peers && a != b && a != c && b != c
    requires Fresh(w, n) && Fresh(w, i) && Fresh(w, j) && Fresh(w, r)
    requires n != i && n != j && n != r && i != j && i != r && j != r
    requires wallet.needs(a) && |certs| > 0 && wallet.valid(a, b, certs)
    ensures Reachable(wallet, after) && a in after.peers && n in SessionsOf(after, a)
    ensures SessionsOf(after, a)[n].isAuthenticated && SessionsOf(after, a)[n].peerIdentityKey == Some(c)
    ensures (n, c) !in after.validated && !PeersCertified(wallet, after)
  {
    FreshIsNotValidated(wallet, w, n, c);
    var met := TwoAnswers(wallet, w, a, b, c, n, i, j, now);
    var sent := SignsCertificates(wallet, met, a, n, b, i, r, certs, now);
    FoundByNonce(wallet, sent, a, n);
    after := CertificatesArrive(wallet, sent, a, n, b, r, certs, now);
    assert !CertifiedSession(wallet, after, a, n, SessionsOf(after, a)[n]);
  }

  // ----- Whose messages are accepted

  /** On an authenticated session a message from every peer that answered the request is accepted,
      not only one from the session's peer. With `AcceptedIsAuthentic` the senders that are
      accepted on an initiator's session are exactly those peers. */
  lemma EveryAnswererIsAccepted(wallet: Wallet, w: World, a: Key, n: Nonce, b: Key, i: Nonce, nonce: Nonce,
                                payload: Data, now: int)
    requires Reachable(wallet, w) && a in w.peers && b in w.peers && n in SessionsOf(w, a)
    requires SessionsOf(w, a)[n].isAuthenticated
    requires i in SessionsOf(w, b) && SessionsOf(w, b)[i].peerNonce == n
    requires SessionsOf(w, b)[i].peerIdentityKey == Some(a)
    ensures OnGeneral(a, w.peers[a], GeneralMessage(b, SessionsOf(w, b)[i], nonce, payload), now).error.None?
  {
    FoundByNonce(wallet, w, a, n);
    GeneralMessageVerifies(wallet, w, b, i, nonce, payload, now);
  }

  /** So a message from b is accepted on a session whose peer is c. */
  lemma SenderIsNotCompared(wallet: Wallet, w: World, a: Key, b: Key, c: Key, n: Nonce, i: Nonce, j: Nonce,
                            nonce: Nonce, payload: Data, now: int) returns (after: World)
    requires Reachable(wallet, w) && a in w.peers && b in w.peers && c in w.peers && a != b && a != c && b != c
    requires Fresh(w, n) && Fresh(w, i) && Fresh(w, j) && n != i && n != j && i != j && !wallet.needs(a)
    ensures Reachable(wallet, after) && a in after.peers && b in after.peers && n in SessionsOf(after, a)
    ensures SessionsOf(after, a)[n].peerIdentityKey == Some(c)
    ensures i in SessionsOf(after, b) && SessionsOf(after, b)[i].peerIdentityKey.Some?
    ensures OnGeneral(a, after.peers[a], GeneralMessage(b, SessionsOf(after, b)[i], nonce, payload), now).error.None?
  {
    after := TwoAnswers(wallet, w, a, b, c, n, i, j, now);
    EveryAnswererIsAccepted(wallet, after, a, n, b, i, nonce, payload, now);
  }
}
