/**
 Many peers and a network: what the handshake guarantees in every run.

 The network loses, repeats, reorders and misdelivers messages, and may change any field of a
 message that carries a signature; it cannot make signatures. A request, which carries none,
 arrives as it was sent. Nonces are fresh.
 */
module Handshake {
  import opened Base
  import opened Sessions
  import opened Peers

  /** The session that a responder made for a request. */
  datatype Answer = Answer(responder: Key, requester: Key, requestNonce: Nonce)

  /** The peers, and the history of the run: who sent a request with which nonce, which session
      answers it, all signatures made, all nonces used, and for which sessions certificates of
      which identity were validated. */
  datatype World = World(
    peers: map<Key, PeerState>,
    requests: map<Nonce, Key>,
    answers: map<Nonce, Answer>,
    signed: set<Signature>,
    used: set<Nonce>,
    validated: set<(Nonce, Key)>)

  function SessionsOf(w: World, p: Key): map<Nonce, Session>
    requires p in w.peers
  {
    w.peers[p].table.sessions
  }

  // ----- Steps

  datatype Step =
    | Start(nonce: Nonce, target: Option<Key>)
    | Respond(request: Message, nonce: Nonce)
    | Deliver(m: Message)
    | Sign(session: Nonce, nonce: Nonce, counterparty: Key, data: Data, issued: bool)

  predicate Fresh(w: World, nonce: Nonce) {
    IsNonce(nonce) && nonce !in w.used
  }

  predicate Allowed(w: World, p: Key, step: Step) {
    p in w.peers &&
    match step
    case Start(nonce, _) => Fresh(w, nonce)
    case Respond(request, nonce) =>
      && request.InitialRequest? && Fresh(w, nonce)
      && request.initialNonce in w.requests && w.requests[request.initialNonce] == request.identityKey
    case Deliver(m) => !m.InitialRequest? && m.signature in w.signed
    case Sign(session, nonce, _, _, _) => session in SessionsOf(w, p) && Fresh(w, nonce)
  }

  /** Certificates that came with this message are validated while it is handled. */
  predicate Certifies(wallet: Wallet, p: Key, s: PeerState, m: Message)
    requires !m.InitialRequest?
  {
    Find(s, m.yourNonce).Ok? &&
    match m
    case InitialResponse(_, _, _, certs, _) =>
      && wallet.needs(p) && |certs| > 0 && ResponseVerifies(wallet, p, Find(s, m.yourNonce).value, m)
      && wallet.valid(p, m.identityKey, certs)
    case CertificateResponse(_, _, _, certs, _) =>
      && |certs| > 0 && Verifies(p, Find(s, m.yourNonce).value, m, wallet.encode(certs))
      && wallet.valid(p, m.identityKey, certs)
    case _ => false
  }

  /** Step by step; `now` is the clock. */
  function Next(wallet: Wallet, w: World, p: Key, step: Step, now: int): World
    requires Allowed(w, p, step)
  {
    var s := w.peers[p];
    match step
    case Start(nonce, target) =>
      w.(peers := w.peers[p := Initiate(s, nonce, target, now)],
         requests := w.requests[nonce := p], used := w.used + {nonce})
    case Respond(request, nonce) =>
      var o := OnInitialRequest(wallet, p, s, request, nonce, now);
      if o.reply.None? then w
      else
        w.(peers := w.peers[p := o.peer],
           answers := w.answers[nonce := Answer(p, request.identityKey, request.initialNonce)],
           signed := w.signed + {o.reply.value.signature}, used := w.used + {nonce})
    case Deliver(m) =>
      w.(peers := w.peers[p := Handle(wallet, p, s, m, "", now).peer],
         validated := if Certifies(wallet, p, s, m) then w.validated + {(m.yourNonce, m.identityKey)} else w.validated)
    case Sign(session, nonce, counterparty, data, issued) =>
      var t := s.table.sessions[session];
      w.(peers := w.peers[p := Put(s.(issued := s.issued + (if issued then {nonce} else {})), t.(lastUpdate := now))],
         signed := w.signed + {SessionSignature(p, t, nonce, counterparty, data)}, used := w.used + {nonce})
  }

  predicate Initial(w: World) {
    && w.requests == map[] && w.answers == map[] && w.signed == {} && w.validated == {}
    && forall p :: p in w.peers ==> w.peers[p] == PeerState({}, NO_SESSIONS)
  }

  // ----- The invariant

  predicate Owns(w: World, p: Key, n: Nonce) {
    (n in w.requests && w.requests[n] == p) || (n in w.answers && w.answers[n].responder == p)
  }

  /** Peer k has a session whose peer nonce is y, and y is the nonce of the session of peer c
      at the other end of it. */
  ghost predicate Linked(w: World, k: Key, y: Nonce, c: Key) {
    || (y in w.answers && w.answers[y].responder == c && w.answers[y].requester == k)
    || (y in w.requests && w.requests[y] == c && exists z :: z in w.answers && w.answers[z] == Answer(k, c, y))
  }

  ghost predicate HistoryOk(w: World) {
    && (forall n :: n in w.requests ==> n in w.used && n !in w.answers && IsNonce(n) && w.requests[n] in w.peers)
    && (forall n :: n in w.answers ==> n in w.used && IsNonce(n) && AnswerOk(w, w.answers[n]))
  }

  ghost predicate AnswerOk(w: World, a: Answer) {
    a.responder in w.peers && a.requestNonce in w.requests && w.requests[a.requestNonce] == a.requester
  }

  /** A response's signature, for the session i that answers a request. */
  ghost predicate IsResponseSignature(wallet: Wallet, w: World, g: Signature, i: Nonce) {
    && i in w.answers
    && g == Signature(w.answers[i].responder, w.answers[i].requester, KeyID(w.answers[i].requestNonce, i),
                      ResponseData(wallet, w.answers[i].requestNonce, i))
  }

  /** A signature made within a session, under a nonce of its own. */
  ghost predicate IsSessionSignature(w: World, g: Signature, n: Nonce, y: Nonce, c: Key) {
    && g.keyID == KeyID(n, y) && IsNonce(n) && n in w.used && n !in w.requests && n !in w.answers
    && (y == "" || Linked(w, g.signer, y, c))
  }

  ghost predicate SignatureOk(wallet: Wallet, w: World, g: Signature) {
    || (exists i :: IsResponseSignature(wallet, w, g, i))
    || (exists n, y, c :: IsSessionSignature(w, g, n, y, c))
  }

  ghost predicate Certified(w: World, n: Nonce) {
    exists id :: (n, id) in w.validated
  }

  /** What holds of session s, with nonce n, of peer p. */
  ghost predicate SessionOk(wallet: Wallet, w: World, p: Key, n: Nonce, s: Session) {
    && s.sessionNonce == n
    && (n in w.answers ==>
         s.peerNonce == w.answers[n].requestNonce && s.peerIdentityKey == Some(w.answers[n].requester))
    && (n in w.requests && s.peerNonce != "" ==>
          && s.peerIdentityKey.Some? && s.peerNonce in w.answers
          && w.answers[s.peerNonce] == Answer(s.peerIdentityKey.value, p, n))
    && (wallet.needs(p) && s.isAuthenticated ==> Certified(w, n))
    && (!wallet.needs(p) && s.peerNonce != "" ==> s.isAuthenticated)
  }

  ghost predicate PeerOk(wallet: Wallet, w: World, p: Key, s: PeerState) {
    && (forall n :: n in s.table.sessions <==> Owns(w, p, n))
    && (forall n :: n in s.table.sessions ==> n in s.issued && SessionOk(wallet, w, p, n, s.table.sessions[n]))
  }

  ghost predicate Inv(wallet: Wallet, w: World) {
    && HistoryOk(w)
    && (forall p :: p in w.peers ==> PeerOk(wallet, w, p, w.peers[p]))
    && (forall g :: g in w.signed ==> SignatureOk(wallet, w, g))
    && ValidatedOk(w)
  }

  /** Certificates validated for a responder's session are those of the requester, and for an
      initiator's session those of a peer that answered the request. */
  ghost predicate ValidatedAt(w: World, n: Nonce, id: Key) {
    && n in w.used
    && (n in w.answers ==> id == w.answers[n].requester)
    && (n in w.requests ==> Linked(w, id, n, w.requests[n]))
  }

  ghost predicate ValidatedOk(w: World) {
    forall v :: v in w.validated ==> ValidatedAt(w, v.0, v.1)
  }

  lemma InitialInv(wallet: Wallet, w: World)
    requires Initial(w)
    ensures Inv(wallet, w)
  {
  }

  // ----- History only grows

  ghost predicate Extends(w: World, after: World) {
    && (forall n :: n in w.requests ==> n in after.requests && after.requests[n] == w.requests[n])
    && (forall n :: n in w.answers ==> n in after.answers && after.answers[n] == w.answers[n])
    && w.used <= after.used && w.validated <= after.validated
    && w.peers.Keys <= after.peers.Keys
    && (forall n :: n in w.used ==>
         (n in after.requests ==> n in w.requests) && (n in after.answers ==> n in w.answers))
  }

  lemma LinkedStays(w: World, after: World, k: Key, y: Nonce, c: Key)
    requires Extends(w, after) && Linked(w, k, y, c)
    ensures Linked(after, k, y, c)
  {
    if y !in w.answers {
      var z :| z in w.answers && w.answers[z] == Answer(k, c, y);
      assert z in after.answers && after.answers[z] == Answer(k, c, y);
    }
  }

  lemma ValidatedStays(w: World, after: World, n: Nonce, id: Key)
    requires Extends(w, after) && ValidatedAt(w, n, id)
    ensures ValidatedAt(after, n, id)
  {
    if n in w.requests {
      LinkedStays(w, after, id, n, w.requests[n]);
    }
  }

  lemma AllValidatedStay(w: World, after: World)
    requires Extends(w, after) && ValidatedOk(w)
    ensures forall v :: v in w.validated ==> ValidatedAt(after, v.0, v.1)
  {
    forall v | v in w.validated
      ensures ValidatedAt(after, v.0, v.1)
    {
      ValidatedStays(w, after, v.0, v.1);
    }
  }

  lemma SignatureStays(wallet: Wallet, w: World, after: World, g: Signature)
    requires Extends(w, after) && SignatureOk(wallet, w, g)
    ensures SignatureOk(wallet, after, g)
  {
    if i :| IsResponseSignature(wallet, w, g, i) {
      assert IsResponseSignature(wallet, after, g, i);
    } else {
      var n, y, c :| IsSessionSignature(w, g, n, y, c);
      if y != "" {
        LinkedStays(w, after, g.signer, y, c);
      }
      assert IsSessionSignature(after, g, n, y, c);
    }
  }

  lemma SessionStays(wallet: Wallet, w: World, after: World, p: Key, n: Nonce, s: Session)
    requires Extends(w, after) && SessionOk(wallet, w, p, n, s) && n in w.used
    ensures SessionOk(wallet, after, p, n, s)
  {
    if Certified(w, n) {
      var id :| (n, id) in w.validated;
      assert (n, id) in after.validated;
    }
  }

  /** A peer that a step does not touch, when the step adds no nonce to it. */
  lemma PeerStays(wallet: Wallet, w: World, after: World, p: Key, s: PeerState)
    requires HistoryOk(w) && Extends(w, after) && PeerOk(wallet, w, p, s)
    requires forall n :: Owns(after, p, n) ==> Owns(w, p, n)
    ensures PeerOk(wallet, after, p, s)
  {
    forall n
      ensures n in s.table.sessions <==> Owns(after, p, n)
      ensures n in s.table.sessions ==> SessionOk(wallet, after, p, n, s.table.sessions[n])
    {
      if n in s.table.sessions {
        assert Owns(w, p, n);
        SessionStays(wallet, w, after, p, n, s.table.sessions[n]);
      }
    }
  }

  // ----- What the table operations do to the sessions

  lemma AddSessions(t: Table, s: Session)
    requires s.sessionNonce != ""
    ensures Add(t, s).sessions == t.sessions[s.sessionNonce := s]
    ensures Update(t, s).sessions == t.sessions[s.sessionNonce := s]
  {
  }

  /** Replacing one session of a peer by another that is right in the new world. */
  lemma PeerReplaced(wallet: Wallet, w: World, after: World, p: Key, s: PeerState, n: Nonce, t: Session, s': PeerState)
    requires HistoryOk(w) && Extends(w, after) && PeerOk(wallet, w, p, s)
    requires forall m :: Owns(after, p, m) <==> Owns(w, p, m) || m == n
    requires s'.table.sessions == s.table.sessions[n := t] && s.issued + {n} <= s'.issued
    requires SessionOk(wallet, after, p, n, t)
    ensures PeerOk(wallet, after, p, s')
  {
    forall m
      ensures m in s'.table.sessions <==> Owns(after, p, m)
      ensures m in s'.table.sessions ==> m in s'.issued && SessionOk(wallet, after, p, m, s'.table.sessions[m])
    {
      if m in s.table.sessions && m != n {
        assert Owns(w, p, m);
        SessionStays(wallet, w, after, p, m, s.table.sessions[m]);
      }
    }
  }

  // ----- What signatures bind

  /** A response that verifies was made by the claimed peer for this very request. */
  lemma ResponseBinds(wallet: Wallet, w: World, p: Key, s: Session, m: Message)
    requires HistoryOk(w) && m.InitialResponse? && SignatureOk(wallet, w, m.signature)
    requires Owns(w, p, s.sessionNonce) && ResponseVerifies(wallet, p, s, m)
    ensures m.initialNonce in w.answers && w.answers[m.initialNonce] == Answer(m.identityKey, p, s.sessionNonce)
  {
    if i :| IsResponseSignature(wallet, w, m.signature, i) {
      assert AnswerOk(w, w.answers[i]);
      KeyIDParts(s.sessionNonce, m.initialNonce, w.answers[i].requestNonce, i);
    } else {
      var n, y, c :| IsSessionSignature(w, m.signature, n, y, c);
      KeyIDParts(s.sessionNonce, m.initialNonce, n, y);
    }
  }

  /** A message within a session that verifies comes from the peer whose request a responder's session
      answers, and on an initiator's session from some peer that answered its request. */
  lemma MessageBinds(wallet: Wallet, w: World, p: Key, s: Session, m: Message, data: Data)
    requires HistoryOk(w) && (m.General? || m.CertificateRequest? || m.CertificateResponse?)
    requires SignatureOk(wallet, w, m.signature)
    requires Owns(w, p, s.sessionNonce) && Verifies(p, s, m, data)
    ensures Linked(w, m.identityKey, s.sessionNonce, p)
  {
    if i :| IsResponseSignature(wallet, w, m.signature, i) {
      assert AnswerOk(w, w.answers[i]);
      KeyIDParts(m.nonce, s.sessionNonce, w.answers[i].requestNonce, i);
    } else {
      var n, y, c :| IsSessionSignature(w, m.signature, n, y, c);
      LinkedIsNonce(w, m.signature.signer, y, c);
      KeyIDParts(m.nonce, s.sessionNonce, n, y);
    }
  }

  lemma LinkedIsNonce(w: World, k: Key, y: Nonce, c: Key)
    requires HistoryOk(w) && (y == "" || Linked(w, k, y, c))
    ensures SpaceFree(y)
    ensures y != "" ==> Owns(w, c, y)
  {
  }

  /** The peer nonce of a session leads to the other end of it. */
  lemma SessionLinked(wallet: Wallet, w: World, p: Key, n: Nonce, s: Session)
    requires HistoryOk(w) && Owns(w, p, n) && SessionOk(wallet, w, p, n, s) && s.peerNonce != ""
    ensures s.peerIdentityKey.Some? && Linked(w, p, s.peerNonce, s.peerIdentityKey.value)
  {
    if n in w.answers {
      assert AnswerOk(w, w.answers[n]);
      assert w.answers[n] == Answer(p, s.peerIdentityKey.value, s.peerNonce);
    }
  }

  // ----- Every step keeps the invariant

  /** Only peer p changed, history grew, and the new parts are right. */
  lemma Keeps(wallet: Wallet, w: World, after: World, p: Key)
    requires Inv(wallet, w) && Extends(w, after) && HistoryOk(after) && p in w.peers
    requires after.peers.Keys == w.peers.Keys && forall q :: q in w.peers && q != p ==> after.peers[q] == w.peers[q]
    requires forall q, n :: q != p && Owns(after, q, n) ==> Owns(w, q, n)
    requires PeerOk(wallet, after, p, after.peers[p])
    requires forall g :: g in after.signed && g !in w.signed ==> SignatureOk(wallet, after, g)
    requires ValidatedOk(after)
    ensures Inv(wallet, after)
  {
    forall q | q in after.peers
      ensures PeerOk(wallet, after, q, after.peers[q])
    {
      if q != p {
        PeerStays(wallet, w, after, q, w.peers[q]);
      }
    }
    forall g | g in after.signed
      ensures SignatureOk(wallet, after, g)
    {
      if g in w.signed {
        SignatureStays(wallet, w, after, g);
      }
    }
  }

  /** One more nonce in use. */
  ghost predicate Recorded(w: World, after: World, nonce: Nonce) {
    after.used == w.used + {nonce} && after.validated == w.validated && after.peers.Keys == w.peers.Keys
  }

  /** History grew, by nothing that concerns a peer other than p. */
  ghost predicate Grown(w: World, after: World, p: Key) {
    && Extends(w, after) && HistoryOk(after) && ValidatedOk(after)
    && forall q, n :: q != p && Owns(after, q, n) ==> Owns(w, q, n)
  }

  /** The nonce of a request. */
  lemma RequestGrows(w: World, after: World, p: Key, nonce: Nonce)
    requires HistoryOk(w) && ValidatedOk(w) && p in w.peers && Fresh(w, nonce) && Recorded(w, after, nonce)
    requires after.requests == w.requests[nonce := p] && after.answers == w.answers
    ensures Grown(w, after, p) && forall n :: Owns(after, p, n) ==> Owns(w, p, n) || n == nonce
  {
    assert Extends(w, after);
    AllValidatedStay(w, after);
  }

  /** The nonce of an answer. */
  lemma AnswerGrows(w: World, after: World, p: Key, nonce: Nonce, a: Answer)
    requires HistoryOk(w) && ValidatedOk(w) && p in w.peers && Fresh(w, nonce) && Recorded(w, after, nonce)
    requires after.requests == w.requests && after.answers == w.answers[nonce := a] && AnswerOk(w, a)
    requires a.responder == p
    ensures Grown(w, after, p) && forall n :: Owns(after, p, n) ==> Owns(w, p, n) || n == nonce
  {
    assert Extends(w, after);
    AllValidatedStay(w, after);
  }

  /** The nonce of a single message. */
  lemma MessageGrows(w: World, after: World, p: Key, nonce: Nonce)
    requires HistoryOk(w) && ValidatedOk(w) && p in w.peers && Fresh(w, nonce) && Recorded(w, after, nonce)
    requires after.requests == w.requests && after.answers == w.answers
    ensures Grown(w, after, p) && forall n :: Owns(after, p, n) ==> Owns(w, p, n) || n == nonce
  {
    assert Extends(w, after);
    AllValidatedStay(w, after);
  }

  /** One session of p replaced or added, and history grown: what is left to show. */
  lemma Settled(wallet: Wallet, w: World, after: World, p: Key, s: PeerState, n: Nonce, t: Session)
    requires Inv(wallet, w) && p in w.peers && Grown(w, after, p) && after.peers == w.peers[p := s]
    requires forall m :: Owns(after, p, m) <==> Owns(w, p, m) || m == n
    requires s.table.sessions == SessionsOf(w, p)[n := t] && w.peers[p].issued + {n} <= s.issued
    requires SessionOk(wallet, after, p, n, t)
    requires forall g :: g in after.signed && g !in w.signed ==> SignatureOk(wallet, after, g)
    ensures Inv(wallet, after)
  {
    PeerReplaced(wallet, w, after, p, w.peers[p], n, t, s);
    Keeps(wallet, w, after, p);
  }

  lemma StartKeeps(wallet: Wallet, w: World, p: Key, step: Step, now: int, after: World)
    requires Inv(wallet, w) && step.Start? && Allowed(w, p, step) && after == Next(wallet, w, p, step, now)
    ensures Inv(wallet, after)
  {
    var t := Session(false, step.nonce, "", step.target, now);
    RequestGrows(w, after, p, step.nonce);
    AddSessions(w.peers[p].table, t);
    Settled(wallet, w, after, p, after.peers[p], step.nonce, t);
  }

  lemma RespondKeeps(wallet: Wallet, w: World, p: Key, step: Step, now: int, after: World)
    requires Inv(wallet, w) && step.Respond? && Allowed(w, p, step) && after == Next(wallet, w, p, step, now)
    ensures Inv(wallet, after)
  {
    var m := step.request;
    var a := Answer(p, m.identityKey, m.initialNonce);
    var t := Session(!wallet.needs(p), step.nonce, m.initialNonce, Some(m.identityKey), now);
    assert AnswerOk(w, a) && after.answers == w.answers[step.nonce := a];
    AnswerGrows(w, after, p, step.nonce, a);
    AddSessions(w.peers[p].table, t);
    var g := OnInitialRequest(wallet, p, w.peers[p], m, step.nonce, now).reply.value.signature;
    assert IsResponseSignature(wallet, after, g, step.nonce);
    Settled(wallet, w, after, p, after.peers[p], step.nonce, t);
  }

  lemma NewSignature(wallet: Wallet, w: World, after: World, p: Key, n: Nonce, t: Session, nonce: Nonce, g: Signature)
    requires Inv(wallet, w) && Extends(w, after) && Owns(w, p, n) && SessionOk(wallet, w, p, n, t)
    requires IsNonce(nonce) && nonce in after.used && nonce !in after.requests && nonce !in after.answers
    requires g.signer == p && g.keyID == KeyID(nonce, t.peerNonce)
    ensures SignatureOk(wallet, after, g)
  {
    if t.peerNonce != "" {
      SessionLinked(wallet, w, p, n, t);
      LinkedStays(w, after, p, t.peerNonce, t.peerIdentityKey.value);
      assert IsSessionSignature(after, g, nonce, t.peerNonce, t.peerIdentityKey.value);
    } else {
      assert IsSessionSignature(after, g, nonce, "", p);
    }
  }

  lemma SignKeeps(wallet: Wallet, w: World, p: Key, step: Step, now: int, after: World)
    requires Inv(wallet, w) && step.Sign? && Allowed(w, p, step) && after == Next(wallet, w, p, step, now)
    ensures Inv(wallet, after)
  {
    var n := step.session;
    var t := SessionsOf(w, p)[n];
    assert PeerOk(wallet, w, p, w.peers[p]) && Owns(w, p, n);
    MessageGrows(w, after, p, step.nonce);
    AddSessions(w.peers[p].table, t.(lastUpdate := now));
    SessionStays(wallet, w, after, p, n, t);
    NewSignature(wallet, w, after, p, n, t, step.nonce,
      SessionSignature(p, t, step.nonce, step.counterparty, step.data));
    Settled(wallet, w, after, p, after.peers[p], n, t.(lastUpdate := now));
  }

  // ----- Delivering a message

  /** The session that a message names, after the message is handled. */
  function After(wallet: Wallet, p: Key, s: Session, m: Message, now: int): Session
    requires !m.InitialRequest?
  {
    match m
    case InitialResponse(_, _, _, certs, _) =>
      if !ResponseVerifies(wallet, p, s, m) then s
      else
        var met := s.(peerNonce := m.initialNonce, peerIdentityKey := Some(m.identityKey), lastUpdate := now);
        if wallet.needs(p) && |certs| > 0 && !wallet.valid(p, m.identityKey, certs) then met
        else met.(isAuthenticated := !wallet.needs(p) || |certs| > 0)
    case CertificateRequest(_, _, _, _, _) => s.(lastUpdate := now)
    case CertificateResponse(_, _, _, certs, _) =>
      s.(lastUpdate := now,
         isAuthenticated := s.isAuthenticated ||
           (Verifies(p, s, m, wallet.encode(certs)) && |certs| > 0 && wallet.valid(p, m.identityKey, certs)))
    case General(_, _, _, _, _) =>
      if s.isAuthenticated && Verifies(p, s, m, m.payload) then s.(lastUpdate := now) else s
  }

  lemma HandleTouchesOne(wallet: Wallet, p: Key, s: PeerState, m: Message, now: int)
    requires !m.InitialRequest?
    requires Find(s, m.yourNonce).Ok? ==> m.yourNonce != "" && Find(s, m.yourNonce).value.sessionNonce == m.yourNonce
    ensures Find(s, m.yourNonce).Err? ==> Handle(wallet, p, s, m, "", now).peer == s
    ensures Find(s, m.yourNonce).Ok? ==>
              && Handle(wallet, p, s, m, "", now).peer.issued == s.issued
              && Handle(wallet, p, s, m, "", now).peer.table.sessions ==
                 s.table.sessions[m.yourNonce := After(wallet, p, Find(s, m.yourNonce).value, m, now)]
  {
    if Find(s, m.yourNonce).Ok? {
      var t := Find(s, m.yourNonce).value;
      AddSessions(s.table, After(wallet, p, t, m, now));
      assert s.table.sessions == s.table.sessions[m.yourNonce := t];
    }
  }

  lemma AfterOk(wallet: Wallet, w: World, after: World, p: Key, s: Session, m: Message, now: int)
    requires Inv(wallet, w) && !m.InitialRequest? && SignatureOk(wallet, w, m.signature)
    requires Owns(w, p, m.yourNonce) && SessionOk(wallet, w, p, m.yourNonce, s)
    requires after.requests == w.requests && after.answers == w.answers && w.validated <= after.validated
    requires p in w.peers && Find(w.peers[p], m.yourNonce) == Ok(s)
    requires Certifies(wallet, p, w.peers[p], m) ==> (m.yourNonce, m.identityKey) in after.validated
    ensures SessionOk(wallet, after, p, m.yourNonce, After(wallet, p, s, m, now))
  {
    var n := m.yourNonce;
    if Certified(w, n) {
      var id :| (n, id) in w.validated;
      assert (n, id) in after.validated;
    }
    assert Certifies(wallet, p, w.peers[p], m) ==> Certified(after, n);
    if m.InitialResponse? && ResponseVerifies(wallet, p, s, m) {
      ResponseBinds(wallet, w, p, s, m);
      assert AnswerOk(w, w.answers[m.initialNonce]);
    }
  }

  lemma CertifiedRequester(wallet: Wallet, w: World, p: Key, m: Message)
    requires Inv(wallet, w) && p in w.peers && !m.InitialRequest? && m.signature in w.signed
    requires Certifies(wallet, p, w.peers[p], m)
    ensures ValidatedAt(w, m.yourNonce, m.identityKey)
  {
    var s := Find(w.peers[p], m.yourNonce).value;
    assert PeerOk(wallet, w, p, w.peers[p]) && Owns(w, p, m.yourNonce) && SessionOk(wallet, w, p, m.yourNonce, s);
    if m.InitialResponse? {
      ResponseBinds(wallet, w, p, s, m);
      assert AnswerOk(w, w.answers[m.initialNonce]);
    } else {
      MessageBinds(wallet, w, p, s, m, wallet.encode(m.certificates));
    }
  }

  lemma DeliverGrows(w: World, after: World, p: Key, n: Nonce, id: Key)
    requires HistoryOk(w) && ValidatedOk(w) && after.peers.Keys == w.peers.Keys
    requires after.requests == w.requests && after.answers == w.answers && after.used == w.used
    requires after.validated == w.validated || after.validated == w.validated + {(n, id)}
    requires after.validated != w.validated ==> ValidatedAt(w, n, id)
    ensures Grown(w, after, p)
  {
    assert Extends(w, after);
    AllValidatedStay(w, after);
    if after.validated != w.validated {
      ValidatedStays(w, after, n, id);
    }
  }

  lemma DeliverFound(wallet: Wallet, w: World, after: World, p: Key, s: PeerState, m: Message, now: int, t: Session)
    requires Inv(wallet, w) && p in w.peers && !m.InitialRequest? && m.signature in w.signed
    requires Find(w.peers[p], m.yourNonce) == Ok(t) && Owns(w, p, m.yourNonce)
    requires SessionOk(wallet, w, p, m.yourNonce, t)
    requires after == w.(peers := w.peers[p := s], validated := after.validated)
    requires after.validated ==
             if Certifies(wallet, p, w.peers[p], m) then w.validated + {(m.yourNonce, m.identityKey)} else w.validated
    requires s.issued == w.peers[p].issued && m.yourNonce in s.issued
    requires s.table.sessions == SessionsOf(w, p)[m.yourNonce := After(wallet, p, t, m, now)]
    ensures Inv(wallet, after)
  {
    if Certifies(wallet, p, w.peers[p], m) {
      CertifiedRequester(wallet, w, p, m);
    }
    DeliverGrows(w, after, p, m.yourNonce, m.identityKey);
    AfterOk(wallet, w, after, p, t, m, now);
    Settled(wallet, w, after, p, s, m.yourNonce, After(wallet, p, t, m, now));
  }

  lemma DeliverKeeps(wallet: Wallet, w: World, p: Key, m: Message, now: int, after: World)
    requires Inv(wallet, w) && Allowed(w, p, Deliver(m)) && after == Next(wallet, w, p, Deliver(m), now)
    ensures Inv(wallet, after)
  {
    var s := w.peers[p];
    assert PeerOk(wallet, w, p, s);
    HandleTouchesOne(wallet, p, s, m, now);
    if Find(s, m.yourNonce).Err? {
      assert w.peers[p := s] == w.peers;
      assert after == w;
    } else {
      assert Owns(w, p, m.yourNonce);
      DeliverFound(wallet, w, after, p, Handle(wallet, p, s, m, "", now).peer, m, now, s.table.sessions[m.yourNonce]);
    }
  }

  /** Every step of every peer keeps the invariant. */
  lemma StepKeeps(wallet: Wallet, w: World, p: Key, step: Step, now: int)
    requires Inv(wallet, w) && Allowed(w, p, step)
    ensures Inv(wallet, Next(wallet, w, p, step, now))
  {
    var after := Next(wallet, w, p, step, now);
    match step
    case Start(_, _) => StartKeeps(wallet, w, p, step, now, after);
    case Respond(_, _) => RespondKeeps(wallet, w, p, step, now, after);
    case Deliver(m) => DeliverKeeps(wallet, w, p, m, now, after);
    case Sign(_, _, _, _, _) => SignKeeps(wallet, w, p, step, now, after);
  }
}
