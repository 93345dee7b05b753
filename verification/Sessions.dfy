/**
 The session table of an authenticating peer: sessions by nonce, and the nonces of each
 identity key. Sessions are values here; a caller that changes the fields of a stored session
 and then calls `Update` appears as one `Update` with the changed value.
 */
module Sessions {
  import opened Base

  type Nonce = string

  /** An identity key, in the form in which it indexes the table. */
  type Key = string

  datatype Session = Session(isAuthenticated: bool, sessionNonce: Nonce, peerNonce: Nonce,
                             peerIdentityKey: Option<Key>, lastUpdate: int)

  datatype Table = Table(sessions: map<Nonce, Session>, byKey: map<Key, set<Nonce>>)

  const NO_SESSIONS := Table(map[], map[])

  // ----- The index

  predicate Listed(t: Table, k: Key, n: Nonce) {
    k in t.byKey && n in t.byKey[k]
  }

  predicate HasKey(t: Table, k: Key, n: Nonce) {
    n in t.sessions && t.sessions[n].peerIdentityKey == Some(k)
  }

  /** A nonce is listed under a key exactly when its session has that key. */
  ghost predicate IndexRight(t: Table) {
    forall k, n :: Listed(t, k, n) <==> HasKey(t, k, n)
  }

  ghost predicate Exact(t: Table) {
    && IndexRight(t)
    && (forall n :: n in t.sessions ==> n != "" && t.sessions[n].sessionNonce == n)
    && (forall k :: k in t.byKey ==> t.byKey[k] != {})
  }

  // ----- The operations on values

  function List(byKey: map<Key, set<Nonce>>, k: Key, n: Nonce): map<Key, set<Nonce>> {
    byKey[k := (if k in byKey then byKey[k] else {}) + {n}]
  }

  function Unlist(byKey: map<Key, set<Nonce>>, k: Key, n: Nonce): map<Key, set<Nonce>> {
    if k !in byKey then byKey
    else if byKey[k] - {n} == {} then byKey - {k}
    else byKey[k := byKey[k] - {n}]
  }

  /** Refused without a nonce. */
  function Add(t: Table, s: Session): Table {
    if s.sessionNonce == "" then t
    else Table(t.sessions[s.sessionNonce := s],
               if s.peerIdentityKey.Some? then List(t.byKey, s.peerIdentityKey.value, s.sessionNonce) else t.byKey)
  }

  function Remove(t: Table, s: Session): Table {
    Table(if s.sessionNonce == "" then t.sessions else t.sessions - {s.sessionNonce},
          if s.peerIdentityKey.Some? then Unlist(t.byKey, s.peerIdentityKey.value, s.sessionNonce) else t.byKey)
  }

  function Update(t: Table, s: Session): Table {
    Add(Remove(t, s), s)
  }

  // ----- When the index stays exact

  /** What a caller can check beforehand: the session stored under this nonce, if any, has no
      identity key or the same one. */
  predicate KeepsKey(t: Table, s: Session) {
    s.sessionNonce in t.sessions ==>
      t.sessions[s.sessionNonce].peerIdentityKey in {None, s.peerIdentityKey}
  }

  lemma ListedAfterAdd(t: Table, s: Session, k: Key, n: Nonce)
    requires s.sessionNonce != ""
    ensures Listed(Add(t, s), k, n) <==> Listed(t, k, n) || (n == s.sessionNonce && s.peerIdentityKey == Some(k))
    ensures HasKey(Add(t, s), k, n) <==>
            if n == s.sessionNonce then s.peerIdentityKey == Some(k) else HasKey(t, k, n)
  {
  }

  lemma ListedAfterRemove(t: Table, s: Session, k: Key, n: Nonce)
    ensures Listed(Remove(t, s), k, n) <==> Listed(t, k, n) && !(n == s.sessionNonce && s.peerIdentityKey == Some(k))
    ensures HasKey(Remove(t, s), k, n) <==> HasKey(t, k, n) && (n != s.sessionNonce || n == "")
  {
  }

  /** Adding keeps the index exact if and only if it does not move a nonce to another key. */
  lemma AddExact(t: Table, s: Session)
    requires Exact(t)
    ensures Exact(Add(t, s)) <==> KeepsKey(t, s)
  {
    if s.sessionNonce != "" {
      forall k, n
        ensures Listed(Add(t, s), k, n) <==> Listed(t, k, n) || (n == s.sessionNonce && s.peerIdentityKey == Some(k))
        ensures HasKey(Add(t, s), k, n) <==>
                if n == s.sessionNonce then s.peerIdentityKey == Some(k) else HasKey(t, k, n)
      {
        ListedAfterAdd(t, s, k, n);
      }
      if !KeepsKey(t, s) {
        StaleListing(t, s, Add(t, s));
      }
    }
  }

  lemma StaleListing(t: Table, s: Session, after: Table)
    requires Exact(t) && !KeepsKey(t, s)
    requires forall k, n :: Listed(t, k, n) && s.peerIdentityKey != Some(k) ==> Listed(after, k, n)
    requires forall k :: HasKey(after, k, s.sessionNonce) ==> s.peerIdentityKey == Some(k)
    ensures !Exact(after)
  {
    var k := t.sessions[s.sessionNonce].peerIdentityKey.value;
    assert HasKey(t, k, s.sessionNonce);
    assert Listed(after, k, s.sessionNonce) && !HasKey(after, k, s.sessionNonce);
  }

  /** Removing likewise, because it looks under the key of the session it is given. */
  lemma RemoveExact(t: Table, s: Session)
    requires Exact(t)
    ensures Exact(Remove(t, s)) <==> KeepsKey(t, s)
  {
    forall k, n
      ensures Listed(Remove(t, s), k, n) <==> Listed(t, k, n) && !(n == s.sessionNonce && s.peerIdentityKey == Some(k))
      ensures HasKey(Remove(t, s), k, n) <==> HasKey(t, k, n) && (n != s.sessionNonce || n == "")
    {
      ListedAfterRemove(t, s, k, n);
    }
    if !KeepsKey(t, s) {
      StaleListing(t, s, Remove(t, s));
    }
  }

  /** Updating likewise: it removes under the new key, so an old listing under another key stays. */
  lemma UpdateExact(t: Table, s: Session)
    requires Exact(t)
    ensures Exact(Update(t, s)) <==> KeepsKey(t, s)
    ensures !KeepsKey(t, s) ==>
              var k := t.sessions[s.sessionNonce].peerIdentityKey.value;
              Listed(Update(t, s), k, s.sessionNonce) && !HasKey(Update(t, s), k, s.sessionNonce)
  {
    if KeepsKey(t, s) {
      RemoveExact(t, s);
      AddExact(Remove(t, s), s);
    } else {
      forall k, n
        ensures Listed(t, k, n) && s.peerIdentityKey != Some(k) ==> Listed(Update(t, s), k, n)
        ensures HasKey(Update(t, s), k, s.sessionNonce) ==> s.peerIdentityKey == Some(k)
      {
        ListedAfterRemove(t, s, k, n);
        ListedAfterAdd(Remove(t, s), s, k, n);
        ListedAfterAdd(Remove(t, s), s, k, s.sessionNonce);
      }
      StaleListing(t, s, Update(t, s));
      var k := t.sessions[s.sessionNonce].peerIdentityKey.value;
      assert HasKey(t, k, s.sessionNonce);
      assert Listed(t, k, s.sessionNonce);
    }
  }

  /** Writing to the fields of a stored session leaves the index alone, so it stays exact if and
      only if the key is the same. */
  lemma FieldWriteExact(t: Table, s: Session)
    requires Exact(t) && s.sessionNonce in t.sessions
    ensures Exact(t.(sessions := t.sessions[s.sessionNonce := s])) <==>
            s.peerIdentityKey == t.sessions[s.sessionNonce].peerIdentityKey
  {
    var n := s.sessionNonce;
    var was, after := t.sessions[n].peerIdentityKey, t.(sessions := t.sessions[n := s]);
    forall k, m
      ensures Listed(after, k, m) <==> HasKey(t, k, m)
      ensures HasKey(after, k, m) <==> if m == n then s.peerIdentityKey == Some(k) else HasKey(t, k, m)
    {
      assert Listed(t, k, m) <==> HasKey(t, k, m);
    }
    if s.peerIdentityKey != was {
      var k := if was.Some? then was.value else s.peerIdentityKey.value;
      assert !(Listed(after, k, n) <==> HasKey(after, k, n));
    }
  }

  /** A listing under another key survives an update. */
  lemma OldListingStays(t: Table, s: Session, k: Key)
    requires Listed(t, k, s.sessionNonce) && s.sessionNonce != "" && s.peerIdentityKey != Some(k)
    ensures Listed(Update(t, s), k, s.sessionNonce) && !HasKey(Update(t, s), k, s.sessionNonce)
    ensures !Exact(Update(t, s))
  {
    ListedAfterRemove(t, s, k, s.sessionNonce);
    ListedAfterAdd(Remove(t, s), s, k, s.sessionNonce);
  }

  // ----- Whole runs

  datatype Op = AddOp(s: Session) | UpdateOp(s: Session) | RemoveOp(s: Session)

  function Apply(t: Table, op: Op): Table {
    match op
    case AddOp(s) => Add(t, s)
    case UpdateOp(s) => Update(t, s)
    case RemoveOp(s) => Remove(t, s)
  }

  function Run(t: Table, ops: seq<Op>): Table {
    if ops == [] then t else Apply(Run(t, ops[..|ops| - 1]), ops[|ops| - 1])
  }

  lemma ApplyExact(t: Table, op: Op)
    requires Exact(t)
    ensures Exact(Apply(t, op)) <==> KeepsKey(t, op.s)
  {
    match op
    case AddOp(s) => AddExact(t, s);
    case UpdateOp(s) => UpdateExact(t, s);
    case RemoveOp(s) => RemoveExact(t, s);
  }

  ghost predicate ExactAfter(ops: seq<Op>, i: nat)
    requires i <= |ops|
  {
    Exact(Run(NO_SESSIONS, ops[..i]))
  }

  predicate KeepsKeyAt(ops: seq<Op>, i: nat)
    requires i < |ops|
  {
    KeepsKey(Run(NO_SESSIONS, ops[..i]), ops[i].s)
  }

  lemma ExactStep(ops: seq<Op>, i: nat)
    requires i < |ops| && ExactAfter(ops, i)
    ensures ExactAfter(ops, i + 1) <==> KeepsKeyAt(ops, i)
  {
    assert ops[..i + 1][..i] == ops[..i];
    ApplyExact(Run(NO_SESSIONS, ops[..i]), ops[i]);
  }

  /** The index is exact after every operation of a run exactly when no operation moved a nonce
      from one key to another. */
  lemma {:induction false} RunExact(ops: seq<Op>, n: nat)
    requires n <= |ops|
    ensures (forall i :: 0 <= i <= n ==> ExactAfter(ops, i)) <==> (forall i :: 0 <= i < n ==> KeepsKeyAt(ops, i))
  {
    if n == 0 {
      assert ops[..0] == [];
      assert forall k, n :: !Listed(NO_SESSIONS, k, n) && !HasKey(NO_SESSIONS, k, n);
    } else {
      RunExact(ops, n - 1);
      if ExactAfter(ops, n - 1) {
        ExactStep(ops, n - 1);
      }
    }
  }

  // ----- The better of two sessions

  /** Lexicographic order: authenticated first, then the time of the last update. */
  predicate AtMost(a: Session, b: Session) {
    if a.isAuthenticated == b.isAuthenticated then a.lastUpdate <= b.lastUpdate else b.isAuthenticated
  }

  // ----- The table as an object

  class SessionManager {
    var sessions: map<Nonce, Session>
    var byKey: map<Key, set<Nonce>>

    function T(): Table
      reads this
    {
      Table(sessions, byKey)
    }

    constructor ()
      ensures T() == NO_SESSIONS && Exact(T())
    {
      sessions, byKey := map[], map[];
    }

    method AddSession(s: Session) returns (ok: bool)
      modifies this
      ensures ok <==> s.sessionNonce != ""
      ensures T() == Add(old(T()), s)
      ensures sessions == if ok then old(sessions)[s.sessionNonce := s] else old(sessions)
      ensures forall k, n :: Listed(T(), k, n) <==>
                old(Listed(T(), k, n)) || (ok && n == s.sessionNonce && s.peerIdentityKey == Some(k))
      ensures old(Exact(T()) && KeepsKey(T(), s)) ==> Exact(T())
    {
      ghost var t := T();
      if Exact(t) {
        AddExact(t, s);
      }
      if s.sessionNonce == "" {
        return false;
      }
      sessions := sessions[s.sessionNonce := s];
      if s.peerIdentityKey.Some? {
        var k := s.peerIdentityKey.value;
        var nonces := if k in byKey then byKey[k] else {};
        byKey := byKey[k := nonces + {s.sessionNonce}];
      }
      return true;
    }

    method RemoveSession(s: Session)
      modifies this
      ensures T() == Remove(old(T()), s)
      ensures s.sessionNonce != "" ==> sessions == old(sessions) - {s.sessionNonce}
      ensures forall k, n :: Listed(T(), k, n) <==>
                old(Listed(T(), k, n)) && !(n == s.sessionNonce && s.peerIdentityKey == Some(k))
      ensures old(Exact(T()) && KeepsKey(T(), s)) ==> Exact(T())
    {
      ghost var t := T();
      if Exact(t) {
        RemoveExact(t, s);
      }
      if s.sessionNonce != "" {
        sessions := sessions - {s.sessionNonce};
      }
      if s.peerIdentityKey.Some? {
        var k := s.peerIdentityKey.value;
        if k in byKey {
          var nonces := byKey[k] - {s.sessionNonce};
          if nonces == {} {
            byKey := byKey - {k};
          } else {
            byKey := byKey[k := nonces];
          }
        }
      }
      forall k, n
        ensures Listed(T(), k, n) <==> Listed(t, k, n) && !(n == s.sessionNonce && s.peerIdentityKey == Some(k))
      {
        ListedAfterRemove(t, s, k, n);
      }
    }

    method UpdateSession(s: Session)
      modifies this
      ensures T() == Update(old(T()), s)
      ensures s.sessionNonce != "" ==> sessions == old(sessions)[s.sessionNonce := s]
      ensures s.sessionNonce != "" ==>
                forall k, n :: Listed(T(), k, n) <==>
                  old(Listed(T(), k, n)) || (n == s.sessionNonce && s.peerIdentityKey == Some(k))
      ensures old(Exact(T()) && KeepsKey(T(), s)) ==> Exact(T())
    {
      ghost var t := T();
      if Exact(t) {
        UpdateExact(t, s);
      }
      RemoveSession(s);
      var _ := AddSession(s);
    }

    /** By nonce, or else the best session of an identity key, whatever the order in which the
        nonces of the key are visited. Not ok stands for "session-not-found"; a key whose listed
        nonces are all gone gives ok and no session, which an exact index rules out. */
    method GetSession(identifier: string) returns (ok: bool, found: Option<Session>)
      ensures ok <==> identifier in sessions || (identifier in byKey && byKey[identifier] != {})
      ensures identifier in sessions ==> found == Some(sessions[identifier])
      ensures identifier !in sessions ==>
                && (found.Some? <==> exists n :: Listed(T(), identifier, n) && n in sessions)
                && (found.Some? ==>
                     exists n :: Listed(T(), identifier, n) && n in sessions && sessions[n] == found.value)
                && (found.Some? ==>
                     forall n :: Listed(T(), identifier, n) && n in sessions ==> AtMost(sessions[n], found.value))
                && (found.Some? ==>
                     forall n :: Listed(T(), identifier, n) && n in sessions ==>
                       && (sessions[n].isAuthenticated ==> found.value.isAuthenticated)
                       && (sessions[n].isAuthenticated == found.value.isAuthenticated ==>
                             sessions[n].lastUpdate <= found.value.lastUpdate))
      ensures identifier !in sessions && Exact(T()) ==>
                && (ok <==> found.Some?)
                && (found.Some? ==> found.value.peerIdentityKey == Some(identifier))
                && (found.Some? ==> forall n :: HasKey(T(), identifier, n) ==> AtMost(sessions[n], found.value))
    {
      if identifier in sessions {
        return true, Some(sessions[identifier]);
      }
      if identifier !in byKey || byKey[identifier] == {} {
        return false, None;
      }
      var todo := byKey[identifier];
      found := None;
      while todo != {}
        invariant todo <= byKey[identifier]
        invariant BestOf(byKey[identifier] - todo, found)
        decreases todo
      {
        var n :| n in todo;
        ghost var seen := byKey[identifier] - todo;
        todo := todo - {n};
        assert byKey[identifier] - todo == seen + {n};
        if n in sessions {
          var s := sessions[n];
          if found.None? {
            found := Some(s);
          } else if s.lastUpdate > found.value.lastUpdate {
            if s.isAuthenticated || !found.value.isAuthenticated {
              found := Some(s);
            }
          } else if s.isAuthenticated && !found.value.isAuthenticated {
            found := Some(s);
          }
        }
      }
      assert byKey[identifier] - todo == byKey[identifier];
      BestIsListed(identifier, found);
      return true, found;
    }

    /** The best stored session among these nonces, if any is stored. */
    ghost predicate BestOf(nonces: set<Nonce>, best: Option<Session>)
      reads this
    {
      && (best.None? ==> forall n :: n in nonces ==> n !in sessions)
      && (best.Some? ==> exists n :: n in nonces && n in sessions && sessions[n] == best.value)
      && (best.Some? ==> forall n :: n in nonces && n in sessions ==> AtMost(sessions[n], best.value))
    }

    lemma BestIsListed(k: Key, best: Option<Session>)
      requires k in byKey && byKey[k] != {} && BestOf(byKey[k], best)
      ensures best.Some? <==> exists n :: Listed(T(), k, n) && n in sessions
      ensures best.Some? ==> exists n :: Listed(T(), k, n) && n in sessions && sessions[n] == best.value
      ensures best.Some? ==> forall n :: Listed(T(), k, n) && n in sessions ==> AtMost(sessions[n], best.value)
      ensures Exact(T()) ==> best.Some? && best.value.peerIdentityKey == Some(k)
      ensures Exact(T()) ==> forall n :: HasKey(T(), k, n) ==> AtMost(sessions[n], best.value)
    {
      if best.Some? {
        var n :| n in byKey[k] && n in sessions && sessions[n] == best.value;
        assert Listed(T(), k, n);
      }
      if Exact(T()) {
        var n :| n in byKey[k];
        assert Listed(T(), k, n) && HasKey(T(), k, n);
        forall n | HasKey(T(), k, n)
          ensures AtMost(sessions[n], best.value)
        {
          assert Listed(T(), k, n);
        }
      }
    }

    /** Whether a nonce or an identity key has a session. */
    method HasSession(identifier: string) returns (has: bool)
      ensures has <==> identifier in sessions || exists n :: Listed(T(), identifier, n)
      ensures Exact(T()) ==> (has <==> identifier in sessions || exists n :: HasKey(T(), identifier, n))
    {
      has := identifier in sessions || (identifier in byKey && byKey[identifier] != {});
      if identifier in byKey && byKey[identifier] != {} {
        var n :| n in byKey[identifier];
        assert Listed(T(), identifier, n);
        assert Exact(T()) ==> HasKey(T(), identifier, n);
      } else {
        assert forall n :: !Listed(T(), identifier, n);
      }
    }
  }
}
