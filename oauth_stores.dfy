/**
 * The OAuth client's two stores over the database: `oauth_session` keyed by DID and
 * `oauth_state` keyed by state key. Writes are upserts; reading a state deletes it when it
 * has expired; `PruneExpiredStates` deletes every expired state at once. Each operation
 * writes only its own table, which its frame states.
 */
module OAuthStores {
  import opened Wrappers
  import opened Schema

  type SessionTable = map<string, SessionRow>
  type StateTable = map<string, StateRow>

  // ---- sessions ----

  /** A write to the session table, as the store's callers issue them. */
  datatype SessionOp =
    | SetSession(did: string, session: StoredSession, now: int)
    | DeleteSession(did: string)
    | ClearSessions

  /** The session table after one write: an upsert that stamps `updatedAt`, a delete by key,
      or a delete of every row. */
  function ApplySessionOp(t: SessionTable, op: SessionOp): (r: SessionTable)
    ensures op.SetSession? ==>
              r.Keys == t.Keys + {op.did} &&
              r[op.did] == SessionRow(op.session, op.now) &&
              forall k :: k in t && k != op.did ==> r[k] == t[k]
    ensures op.DeleteSession? ==>
              r.Keys == t.Keys - {op.did} && forall k :: k in r ==> r[k] == t[k]
    ensures op.ClearSessions? ==> r == map[]
  {
    match op
    case SetSession(did, session, now) => t[did := SessionRow(session, now)]
    case DeleteSession(did) => t - {did}
    case ClearSessions => map[]
  }

  /** The session table after a sequence of writes, in order. */
  function ReplaySessions(t: SessionTable, ops: seq<SessionOp>): SessionTable
    decreases |ops|
  {
    if ops == [] then t else ApplySessionOp(ReplaySessions(t, ops[..|ops| - 1]), ops[|ops| - 1])
  }

  /** What `sessions.get` returns for `did`. */
  function SessionLookup(t: SessionTable, did: string): Option<StoredSession>
  {
    if did in t then Some(t[did].session) else None
  }

  /** The session most recently written for `did` by `ops`, None if the latest write that
      concerns `did` removed it, and the initial table's answer if no write concerns it. */
  function LastSessionFor(t: SessionTable, ops: seq<SessionOp>, did: string): Option<StoredSession>
    decreases |ops|
  {
    if ops == [] then SessionLookup(t, did)
    else
      match ops[|ops| - 1]
      case SetSession(d, s, _) => if d == did then Some(s) else LastSessionFor(t, ops[..|ops| - 1], did)
      case DeleteSession(d) => if d == did then None else LastSessionFor(t, ops[..|ops| - 1], did)
      case ClearSessions => None
  }

  /** `sessions.get` returns the last session set for the DID, or nothing once it was deleted
      or the table cleared. */
  lemma {:induction false} SessionGetReturnsLastSet(t: SessionTable, ops: seq<SessionOp>, did: string)
    ensures SessionLookup(ReplaySessions(t, ops), did) == LastSessionFor(t, ops, did)
  {
    if ops != [] {
      SessionGetReturnsLastSet(t, ops[..|ops| - 1], did);
    }
  }

  method SessionsGet(db: Database, did: string) returns (r: Option<StoredSession>)
    ensures r.Some? <==> did in db.oauthSession
    ensures r.Some? ==> r.value == db.oauthSession[did].session
  {
    if did in db.oauthSession {
      r := Some(db.oauthSession[did].session);
    } else {
      r := None;
    }
  }

  method SessionsSet(db: Database, did: string, session: StoredSession, now: int)
    modifies db`oauthSession
    ensures db.oauthSession == ApplySessionOp(old(db.oauthSession), SetSession(did, session, now))
  {
    db.oauthSession := db.oauthSession[did := SessionRow(session, now)];
  }

  method SessionsDelete(db: Database, did: string)
    modifies db`oauthSession
    ensures db.oauthSession == ApplySessionOp(old(db.oauthSession), DeleteSession(did))
  {
    db.oauthSession := db.oauthSession - {did};
  }

  method SessionsClear(db: Database)
    modifies db`oauthSession
    ensures db.oauthSession == ApplySessionOp(old(db.oauthSession), ClearSessions)
  {
    db.oauthSession := map[];
  }

  // ---- states ----

  /** A state row is live strictly before its expiry time. */
  predicate Unexpired(row: StateRow, now: int)
  {
    now < row.expiresAt
  }

  /** What `states.get` returns: the state of a live row, nothing otherwise. */
  function StateLookup(t: StateTable, key: string, now: int): (r: Option<StoredState>)
    ensures r.Some? <==> key in t && Unexpired(t[key], now)
    ensures r.Some? ==> r.value == t[key].state
  {
    if key in t && Unexpired(t[key], now) then Some(t[key].state) else None
  }

  /** The state table with every expired row removed. */
  function PruneExpired(t: StateTable, now: int): (r: StateTable)
    ensures forall k :: k in r <==> k in t && Unexpired(t[k], now)
    ensures forall k :: k in r ==> r[k] == t[k]
  {
    map k | k in t && Unexpired(t[k], now) :: t[k]
  }

  /** `states.get`: an absent key yields nothing and changes nothing; an expired row is
      deleted and yields nothing; a live row yields its state and changes nothing. */
  method StatesGet(db: Database, key: string, now: int) returns (r: Option<StoredState>)
    modifies db`oauthState
    ensures r == StateLookup(old(db.oauthState), key, now)
    ensures key !in old(db.oauthState) ==> db.oauthState == old(db.oauthState)
    ensures key in old(db.oauthState) && !Unexpired(old(db.oauthState)[key], now) ==>
              db.oauthState == old(db.oauthState) - {key}
    ensures r.Some? ==> db.oauthState == old(db.oauthState)
  {
    if key !in db.oauthState {
      return None;
    }
    var row := db.oauthState[key];
    if row.expiresAt <= now {
      db.oauthState := db.oauthState - {key};
      return None;
    }
    r := Some(row.state);
  }

  /** `states.set`: upsert with the expiry time taken from the state itself. */
  method StatesSet(db: Database, key: string, state: StoredState)
    modifies db`oauthState
    ensures db.oauthState.Keys == old(db.oauthState).Keys + {key}
    ensures db.oauthState[key] == StateRow(state, state.expiresAt)
    ensures forall k :: k in old(db.oauthState) && k != key ==> db.oauthState[k] == old(db.oauthState)[k]
  {
    db.oauthState := db.oauthState[key := StateRow(state, state.expiresAt)];
  }

  method StatesDelete(db: Database, key: string)
    modifies db`oauthState
    ensures db.oauthState == old(db.oauthState) - {key}
  {
    db.oauthState := db.oauthState - {key};
  }

  method StatesClear(db: Database)
    modifies db`oauthState
    ensures db.oauthState == map[]
  {
    db.oauthState := map[];
  }

  /** `pruneExpiredStates`: deletes exactly the rows with `expiresAt <= now`. */
  method PruneExpiredStates(db: Database, now: int)
    modifies db`oauthState
    ensures db.oauthState == PruneExpired(old(db.oauthState), now)
  {
    db.oauthState := map k | k in db.oauthState && now < db.oauthState[k].expiresAt :: db.oauthState[k];
  }

  /** Pruning twice at the same time removes nothing more. */
  lemma PruneIdempotent(t: StateTable, now: int)
    ensures PruneExpired(PruneExpired(t, now), now) == PruneExpired(t, now)
  {
    var p := PruneExpired(t, now);
    assert PruneExpired(p, now).Keys == p.Keys;
  }

  /** Pruning never changes what `states.get` returns at the same time, and a get that follows
      a prune deletes nothing. */
  lemma PruneInvisibleToGet(t: StateTable, now: int, key: string)
    ensures StateLookup(PruneExpired(t, now), key, now) == StateLookup(t, key, now)
    ensures key in PruneExpired(t, now) ==> Unexpired(PruneExpired(t, now)[key], now)
  {
  }

  /** A state that expires later than `now` reads back as written. */
  lemma SetThenGetState(t: StateTable, key: string, state: StoredState, now: int)
    requires now < state.expiresAt
    ensures StateLookup(t[key := StateRow(state, state.expiresAt)], key, now) == Some(state)
  {
  }
}
