/**
 The message handlers of an authenticating peer (BRC-31, Authrite), as functions of the peer's
 state. Signatures are ideal: one verifies exactly when it was made by the claimed signer for
 the verifier, under the same key ID and over the same data.
 */
module Peers {
  import opened Base
  import opened Sessions

  type Data = seq<byte>
  type Certificate = seq<byte>

  datatype Signature = Signature(signer: Key, counterparty: Key, keyID: string, data: Data)

  datatype Message =
    | InitialRequest(identityKey: Key, initialNonce: Nonce)
    | InitialResponse(identityKey: Key, yourNonce: Nonce, initialNonce: Nonce, certificates: seq<Certificate>,
        signature: Signature)
    | CertificateRequest(identityKey: Key, nonce: Nonce, yourNonce: Nonce, requested: Data, signature: Signature)
    | CertificateResponse(identityKey: Key, nonce: Nonce, yourNonce: Nonce, certificates: seq<Certificate>,
        signature: Signature)
    | General(identityKey: Key, nonce: Nonce, yourNonce: Nonce, payload: Data, signature: Signature)

  /** What the handlers use from outside: nonce bytes, the JSON form of certificates, whether
      certificates satisfy what a verifier requests of a subject, and who requests any. */
  datatype Wallet = Wallet(
    decode: Nonce -> Data,
    encode: seq<Certificate> -> Data,
    valid: (Key, Key, seq<Certificate>) -> bool,
    needs: Key -> bool)

  datatype AuthError = InvalidNonce | SessionNotFound | InvalidSignature | NotAuthenticated | CertificateValidation

  /** The nonces created by this peer's wallet, and its sessions. */
  datatype PeerState = PeerState(issued: set<Nonce>, table: Table)

  datatype Outcome = Outcome(peer: PeerState, reply: Option<Message>, error: Option<AuthError>)

  function Fail(p: PeerState, error: AuthError): Outcome {
    Outcome(p, None, Some(error))
  }

  function Done(p: PeerState): Outcome {
    Outcome(p, None, None)
  }

  function KeyID(prefix: string, suffix: string): string {
    prefix + " " + suffix
  }

  function ResponseData(w: Wallet, initialNonce: Nonce, sessionNonce: Nonce): Data {
    w.decode(initialNonce) + w.decode(sessionNonce)
  }

  /** A stored session found by nonce, or why it was not. */
  function Find(p: PeerState, nonce: Nonce): Result<Session, AuthError> {
    if nonce !in p.issued then Err(InvalidNonce)
    else if nonce !in p.table.sessions then Err(SessionNotFound)
    else Ok(p.table.sessions[nonce])
  }

  function Put(p: PeerState, s: Session): PeerState {
    p.(table := Update(p.table, s))
  }

  // ----- Starting a handshake

  function Initiate(p: PeerState, sessionNonce: Nonce, target: Option<Key>, now: int): PeerState {
    p.(issued := p.issued + {sessionNonce}, table := Add(p.table, Session(false, sessionNonce, "", target, now)))
  }

  function OnInitialRequest(w: Wallet, me: Key, p: PeerState, m: Message, ourNonce: Nonce, now: int): Outcome
    requires m.InitialRequest?
  {
    if m.initialNonce == "" then Fail(p, InvalidNonce)
    else
      var session := Session(!w.needs(me), ourNonce, m.initialNonce, Some(m.identityKey), now);
      var signature := Signature(me, m.identityKey, KeyID(m.initialNonce, ourNonce),
        ResponseData(w, m.initialNonce, ourNonce));
      Outcome(p.(issued := p.issued + {ourNonce}, table := Add(p.table, session)),
              Some(InitialResponse(me, m.initialNonce, ourNonce, [], signature)), None)
  }

  predicate ResponseVerifies(w: Wallet, me: Key, s: Session, m: Message)
    requires m.InitialResponse?
  {
    m.signature == Signature(m.identityKey, me, KeyID(s.sessionNonce, m.initialNonce),
      ResponseData(w, s.sessionNonce, m.initialNonce))
  }

  /** The session's fields are set as soon as the signature verifies, even when certificates
      that came along turn out to be invalid. */
  function OnInitialResponse(w: Wallet, me: Key, p: PeerState, m: Message, now: int): Outcome
    requires m.InitialResponse?
  {
    match Find(p, m.yourNonce)
    case Err(e) => Fail(p, e)
    case Ok(s) =>
      if !ResponseVerifies(w, me, s, m) then Fail(p, InvalidSignature)
      else
        var met := s.(peerNonce := m.initialNonce, peerIdentityKey := Some(m.identityKey), lastUpdate := now);
        if w.needs(me) && |m.certificates| > 0 && !w.valid(me, m.identityKey, m.certificates) then
          Fail(p.(table := p.table.(sessions := p.table.sessions[m.yourNonce := met])), CertificateValidation)
        else
          var authenticated := !w.needs(me) || |m.certificates| > 0;
          Done(Put(p, met.(isAuthenticated := authenticated)))
  }

  // ----- Messages within a session

  predicate Verifies(me: Key, s: Session, m: Message, data: Data)
    requires m.General? || m.CertificateRequest? || m.CertificateResponse?
  {
    m.signature == Signature(m.identityKey, me, KeyID(m.nonce, s.sessionNonce), data)
  }

  function OnCertificateRequest(me: Key, p: PeerState, m: Message, now: int): Outcome
    requires m.CertificateRequest?
  {
    match Find(p, m.yourNonce)
    case Err(e) => Fail(p, e)
    case Ok(s) =>
      var seen := s.(lastUpdate := now);
      if !Verifies(me, s, m, m.requested) then Fail(Put(p, seen), InvalidSignature) else Done(Put(p, seen))
  }

  /** The time stamp is updated before the signature is looked at. */
  function OnCertificateResponse(w: Wallet, me: Key, p: PeerState, m: Message, now: int): Outcome
    requires m.CertificateResponse?
  {
    match Find(p, m.yourNonce)
    case Err(e) => Fail(p, e)
    case Ok(s) =>
      var seen := s.(lastUpdate := now);
      if !Verifies(me, s, m, w.encode(m.certificates)) then Fail(Put(p, seen), InvalidSignature)
      else if |m.certificates| == 0 then Done(Put(p, seen))
      else if !w.valid(me, m.identityKey, m.certificates) then Fail(Put(p, seen), CertificateValidation)
      else Done(Put(p, seen.(isAuthenticated := true)))
  }

  function OnGeneral(me: Key, p: PeerState, m: Message, now: int): Outcome
    requires m.General?
  {
    match Find(p, m.yourNonce)
    case Err(e) => Fail(p, e)
    case Ok(s) =>
      if !s.isAuthenticated then Fail(p, NotAuthenticated)
      else if !Verifies(me, s, m, m.payload) then Fail(p, InvalidSignature)
      else Done(Put(p, s.(lastUpdate := now)))
  }

  function Handle(w: Wallet, me: Key, p: PeerState, m: Message, ourNonce: Nonce, now: int): Outcome {
    match m
    case InitialRequest(_, _) => OnInitialRequest(w, me, p, m, ourNonce, now)
    case InitialResponse(_, _, _, _, _) => OnInitialResponse(w, me, p, m, now)
    case CertificateRequest(_, _, _, _, _) => OnCertificateRequest(me, p, m, now)
    case CertificateResponse(_, _, _, _, _) => OnCertificateResponse(w, me, p, m, now)
    case General(_, _, _, _, _) => OnGeneral(me, p, m, now)
  }

  // ----- Sending within a session

  function SessionSignature(me: Key, s: Session, nonce: Nonce, counterparty: Key, data: Data): Signature {
    Signature(me, counterparty, KeyID(nonce, s.peerNonce), data)
  }

  function GeneralMessage(me: Key, s: Session, nonce: Nonce, payload: Data): Message
    requires s.peerIdentityKey.Some?
  {
    General(me, nonce, s.peerNonce, payload, SessionSignature(me, s, nonce, s.peerIdentityKey.value, payload))
  }

  // ----- Key IDs

  predicate SpaceFree(s: string) {
    ' ' !in s
  }

  /** Base64 text: not empty, and without spaces. */
  predicate IsNonce(s: string) {
    s != "" && SpaceFree(s)
  }

  /** A response signs the bytes of the request's nonce, then those of the session's. */
  lemma ResponseDataParts(w: Wallet, initialNonce: Nonce, sessionNonce: Nonce)
    ensures var data, first := ResponseData(w, initialNonce, sessionNonce), w.decode(initialNonce);
            |data| >= |first| && data[..|first|] == first && data[|first|..] == w.decode(sessionNonce)
  {
  }

  lemma SpaceSplits(a: string, b: string)
    ensures KeyID(a, b)[|a|] == ' ' && KeyID(a, b)[..|a|] == a && KeyID(a, b)[|a| + 1..] == b
    ensures SpaceFree(a) ==> forall i :: 0 <= i < |a| ==> KeyID(a, b)[i] != ' '
    ensures SpaceFree(b) ==> forall i :: |a| < i < |KeyID(a, b)| ==> KeyID(a, b)[i] != ' '
  {
  }

  /** With prefixes free of spaces, or with suffixes free of spaces, equal key IDs have equal
      parts. */
  lemma KeyIDParts(a: string, b: string, c: string, d: string)
    requires KeyID(a, b) == KeyID(c, d)
    requires (SpaceFree(a) && SpaceFree(c)) || (SpaceFree(b) && SpaceFree(d))
    ensures a == c && b == d
  {
    SpaceSplits(a, b);
    SpaceSplits(c, d);
    assert |a| == |c|;
  }
}
