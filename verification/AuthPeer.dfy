/** The peer as an object around its session manager. */
module AuthPeers {
  import opened Base
  import opened Sessions
  import opened Peers

  class AuthPeer {
    const me: Key
    const wallet: Wallet
    const manager: SessionManager
    /** The nonces that the wallet recognises as its own. */
    var issued: set<Nonce>

    ghost function S(): PeerState
      reads this, manager
    {
      PeerState(issued, manager.T())
    }

    constructor (me: Key, wallet: Wallet)
      ensures this.me == me && this.wallet == wallet && fresh(manager)
      ensures S() == PeerState({}, NO_SESSIONS)
    {
      this.me, this.wallet, issued := me, wallet, {};
      manager := new SessionManager();
    }

    /** Records a session that waits for a response, and gives the request to send. */
    method InitiateHandshake(target: Option<Key>, sessionNonce: Nonce, now: int) returns (request: Message)
      requires IsNonce(sessionNonce)
      modifies this, manager
      ensures S() == Initiate(old(S()), sessionNonce, target, now)
      ensures request == InitialRequest(me, sessionNonce)
      ensures issued == old(issued) + {sessionNonce}
      ensures manager.sessions == old(manager.sessions)[sessionNonce := Session(false, sessionNonce, "", target, now)]
    {
      issued := issued + {sessionNonce};
      var _ := manager.AddSession(Session(false, sessionNonce, "", target, now));
      return InitialRequest(me, sessionNonce);
    }

    method HandleInitialRequest(m: Message, ourNonce: Nonce, now: int)
      returns (reply: Option<Message>, error: Option<AuthError>)
      requires m.InitialRequest? && IsNonce(ourNonce)
      modifies this, manager
      ensures Outcome(S(), reply, error) == OnInitialRequest(wallet, me, old(S()), m, ourNonce, now)
      ensures error == if m.initialNonce == "" then Some(InvalidNonce) else None
      ensures error.Some? ==> reply.None? && S() == old(S())
      ensures error.None? ==>
                && issued == old(issued) + {ourNonce}
                && manager.sessions == old(manager.sessions)
                     [ourNonce := Session(!wallet.needs(me), ourNonce, m.initialNonce, Some(m.identityKey), now)]
                && reply == Some(InitialResponse(me, m.initialNonce, ourNonce, [],
                     Signature(me, m.identityKey, m.initialNonce + " " + ourNonce,
                               wallet.decode(m.initialNonce) + wallet.decode(ourNonce))))
    {
      if m.initialNonce == "" {
        return None, Some(InvalidNonce);
      }
      issued := issued + {ourNonce};
      var session := Session(true, ourNonce, m.initialNonce, Some(m.identityKey), now);
      if wallet.needs(me) {
        session := session.(isAuthenticated := false);
      }
      var _ := manager.AddSession(session);
      var data := wallet.decode(m.initialNonce) + wallet.decode(session.sessionNonce);
      var signature := Signature(me, m.identityKey, KeyID(m.initialNonce, session.sessionNonce), data);
      return Some(InitialResponse(me, m.initialNonce, session.sessionNonce, [], signature)), None;
    }

    /** Why the session that a message names is not found: the nonce is not the wallet's own, or no
        session is stored under it. */
    function FindError(nonce: Nonce): Option<AuthError>
      reads this, manager
    {
      if nonce !in issued then Some(InvalidNonce)
      else if nonce !in manager.sessions then Some(SessionNotFound)
      else None
    }

    /** The session that a message names. Nonces and identity keys have different encodings, so
        a nonce is never found as an identity key. */
    method FindSession(nonce: Nonce) returns (found: Result<Session, AuthError>)
      requires nonce !in manager.byKey
      ensures found == Find(S(), nonce)
      ensures nonce !in issued ==> found == Err(InvalidNonce)
      ensures nonce in issued && nonce !in manager.sessions ==> found == Err(SessionNotFound)
      ensures nonce in issued && nonce in manager.sessions ==> found == Ok(manager.sessions[nonce])
    {
      if nonce !in issued {
        return Err(InvalidNonce);
      }
      var ok, session := manager.GetSession(nonce);
      if !ok || session.None? {
        return Err(SessionNotFound);
      }
      return Ok(session.value);
    }

    method HandleInitialResponse(m: Message, now: int) returns (error: Option<AuthError>)
      requires m.InitialResponse? && m.yourNonce !in manager.byKey
      modifies manager
      ensures Outcome(S(), None, error) == OnInitialResponse(wallet, me, old(S()), m, now)
      ensures old(FindError(m.yourNonce)).Some? ==> error == old(FindError(m.yourNonce)) && S() == old(S())
      ensures old(FindError(m.yourNonce)).None? ==>
                var s := old(manager.sessions[m.yourNonce]);
                && (error == Some(InvalidSignature) <==>
                      m.signature != Signature(m.identityKey, me, s.sessionNonce + " " + m.initialNonce,
                                               wallet.decode(s.sessionNonce) + wallet.decode(m.initialNonce)))
                && (error == Some(CertificateValidation) <==>
                      && error != Some(InvalidSignature) && wallet.needs(me)
                      && |m.certificates| > 0 && !wallet.valid(me, m.identityKey, m.certificates))
                && error in {None, Some(InvalidSignature), Some(CertificateValidation)}
                && (error == Some(InvalidSignature) ==> S() == old(S()))
                && (s.sessionNonce == m.yourNonce != "" && error != Some(InvalidSignature) ==>
                      manager.sessions == old(manager.sessions)
                        [m.yourNonce := Session(
                           if error.None? then !wallet.needs(me) || |m.certificates| > 0 else s.isAuthenticated,
                           m.yourNonce, m.initialNonce, Some(m.identityKey), now)])
    {
      var found := FindSession(m.yourNonce);
      if found.Err? {
        return Some(found.error);
      }
      var session := found.value;
      var data := wallet.decode(session.sessionNonce) + wallet.decode(m.initialNonce);
      if m.signature != Signature(m.identityKey, me, KeyID(session.sessionNonce, m.initialNonce), data) {
        return Some(InvalidSignature);
      }
      session := session.(peerNonce := m.initialNonce, peerIdentityKey := Some(m.identityKey), lastUpdate := now);
      if !wallet.needs(me) {
        session := session.(isAuthenticated := true);
      } else if |m.certificates| > 0 {
        if !wallet.valid(me, m.identityKey, m.certificates) {
          manager.sessions := manager.sessions[m.yourNonce := session];
          return Some(CertificateValidation);
        }
        session := session.(isAuthenticated := true);
      } else {
        session := session.(isAuthenticated := false);
      }
      manager.UpdateSession(session);
      return None;
    }

    method HandleCertificateResponse(m: Message, now: int) returns (error: Option<AuthError>)
      requires m.CertificateResponse? && m.yourNonce !in manager.byKey
      requires m.yourNonce in manager.sessions ==>
                 m.yourNonce != "" && manager.sessions[m.yourNonce].sessionNonce == m.yourNonce
      modifies manager
      ensures Outcome(S(), None, error) == OnCertificateResponse(wallet, me, old(S()), m, now)
      ensures old(FindError(m.yourNonce)).Some? ==> error == old(FindError(m.yourNonce)) && S() == old(S())
      ensures old(FindError(m.yourNonce)).None? ==>
                var s := old(manager.sessions[m.yourNonce]);
                && (error == Some(InvalidSignature) <==>
                      m.signature != Signature(m.identityKey, me, m.nonce + " " + m.yourNonce,
                                               wallet.encode(m.certificates)))
                && (error == Some(CertificateValidation) <==>
                      && error != Some(InvalidSignature)
                      && |m.certificates| > 0 && !wallet.valid(me, m.identityKey, m.certificates))
                && error in {None, Some(InvalidSignature), Some(CertificateValidation)}
                && manager.sessions == old(manager.sessions)
                     [m.yourNonce := s.(
                        lastUpdate := now,
                        isAuthenticated := s.isAuthenticated || (error.None? && |m.certificates| > 0))]
    {
      var found := FindSession(m.yourNonce);
      if found.Err? {
        return Some(found.error);
      }
      var session := found.value.(lastUpdate := now);
      manager.UpdateSession(session);
      var signature := Signature(m.identityKey, me, KeyID(m.nonce, session.sessionNonce),
        wallet.encode(m.certificates));
      if m.signature != signature {
        return Some(InvalidSignature);
      }
      if |m.certificates| > 0 {
        if !wallet.valid(me, m.identityKey, m.certificates) {
          return Some(CertificateValidation);
        }
        UpdateTwice(old(manager.T()), session, session.(isAuthenticated := true));
        session := session.(isAuthenticated := true);
        manager.UpdateSession(session);
      }
      return None;
    }

    method HandleCertificateRequest(m: Message, now: int) returns (error: Option<AuthError>)
      requires m.CertificateRequest? && m.yourNonce !in manager.byKey
      modifies manager
      ensures Outcome(S(), None, error) == OnCertificateRequest(me, old(S()), m, now)
      ensures old(FindError(m.yourNonce)).Some? ==> error == old(FindError(m.yourNonce)) && S() == old(S())
      ensures old(FindError(m.yourNonce)).None? ==>
                var s := old(manager.sessions[m.yourNonce]);
                && (error == Some(InvalidSignature) <==>
                      m.signature != Signature(m.identityKey, me, m.nonce + " " + s.sessionNonce, m.requested))
                && error in {None, Some(InvalidSignature)}
                && (s.sessionNonce == m.yourNonce != "" ==>
                      manager.sessions == old(manager.sessions)[m.yourNonce := s.(lastUpdate := now)])
    {
      var found := FindSession(m.yourNonce);
      if found.Err? {
        return Some(found.error);
      }
      var session := found.value.(lastUpdate := now);
      manager.UpdateSession(session);
      if m.signature != Signature(m.identityKey, me, KeyID(m.nonce, session.sessionNonce), m.requested) {
        return Some(InvalidSignature);
      }
      return None;
    }

    method HandleGeneralMessage(m: Message, now: int) returns (error: Option<AuthError>)
      requires m.General? && m.yourNonce !in manager.byKey
      modifies manager
      ensures Outcome(S(), None, error) == OnGeneral(me, old(S()), m, now)
      ensures old(FindError(m.yourNonce)).Some? ==> error == old(FindError(m.yourNonce))
      ensures old(FindError(m.yourNonce)).None? ==>
                var s := old(manager.sessions[m.yourNonce]);
                && (error == Some(NotAuthenticated) <==> !s.isAuthenticated)
                && (error == Some(InvalidSignature) <==>
                      && s.isAuthenticated
                      && m.signature != Signature(m.identityKey, me, m.nonce + " " + s.sessionNonce, m.payload))
                && error in {None, Some(NotAuthenticated), Some(InvalidSignature)}
                && (s.sessionNonce == m.yourNonce != "" && error.None? ==>
                      manager.sessions == old(manager.sessions)[m.yourNonce := s.(lastUpdate := now)])
      ensures error.Some? ==> S() == old(S())
    {
      var found := FindSession(m.yourNonce);
      if found.Err? {
        return Some(found.error);
      }
      var session := found.value;
      if !session.isAuthenticated {
        return Some(NotAuthenticated);
      }
      if m.signature != Signature(m.identityKey, me, KeyID(m.nonce, session.sessionNonce), m.payload) {
        return Some(InvalidSignature);
      }
      manager.UpdateSession(session.(lastUpdate := now));
      return None;
    }

    /** An authenticated session with the peer, if there is any; without one a handshake follows. */
    method GetAuthenticatedSession(key: Key) returns (session: Option<Session>)
      requires key !in manager.sessions
      ensures session.Some? <==>
                exists n :: Listed(manager.T(), key, n) && n in manager.sessions && manager.sessions[n].isAuthenticated
      ensures session.Some? ==> session.value.isAuthenticated
      ensures session.Some? ==>
                forall n :: Listed(manager.T(), key, n) && n in manager.sessions ==>
                    && AtMost(manager.sessions[n], session.value)
                    && (manager.sessions[n].isAuthenticated ==>
                          manager.sessions[n].lastUpdate <= session.value.lastUpdate)
      ensures session.Some? && Exact(manager.T()) ==> session.value.peerIdentityKey == Some(key)
    {
      var ok, found := manager.GetSession(key);
      if found.Some? && found.value.isAuthenticated {
        return found;
      }
      return None;
    }

    /** Signs a message on a session that knows its peer. */
    method ToPeer(session: Session, requestNonce: Nonce, payload: Data, now: int) returns (m: Message)
      requires session.peerIdentityKey.Some?
      modifies manager
      ensures S() == Put(old(S()), session.(lastUpdate := now))
      ensures m == GeneralMessage(me, session, requestNonce, payload)
      ensures m == General(me, requestNonce, session.peerNonce, payload,
                           Signature(me, session.peerIdentityKey.value, requestNonce + " " + session.peerNonce,
                                     payload))
    {
      var signature := Signature(me, session.peerIdentityKey.value, KeyID(requestNonce, session.peerNonce), payload);
      manager.UpdateSession(session.(lastUpdate := now));
      return General(me, requestNonce, session.peerNonce, payload, signature);
    }
  }

  /** Updating a session twice under the same key is the same as updating it once. */
  lemma UpdateTwice(t: Table, s: Session, s': Session)
    requires s.sessionNonce == s'.sessionNonce != "" && s.peerIdentityKey == s'.peerIdentityKey
    ensures Update(Update(t, s), s') == Update(t, s')
  {
    assert Update(Update(t, s), s').sessions == Update(t, s').sessions;
    assert Update(Update(t, s), s').byKey == Update(t, s').byKey;
  }
}
