/** Refresh tokens: issuing, finding, revoking and using them. */
module RefreshTokens {
  import opened Options

  const SECOND := 1000
  const MINUTE := 60 * SECOND
  const HOUR := 60 * MINUTE
  const DEFAULT_DURATION := 30 * 24 * HOUR
  const SESSION_DURATION := 8 * HOUR
  const RE_ISSUE_AGE := SESSION_DURATION - HOUR
  const GRACE := 5 * SECOND

  datatype Token = Token(
    id: Id, profileId: Id, expiresAt: Instant, nextToken: Option<Id>, isMfaEnabled: bool, createdAt: Instant)

  /** The table by primary key; the generated ids are fresh. */
  datatype Store = Store(tokens: map<Id, Token>, nextId: Id)

  // ----- the arithmetic of dates -----

  function RefreshTokenExpires(isSession: bool, now: Instant): Instant {
    now + if isSession then SESSION_DURATION else DEFAULT_DURATION
  }

  predicate IsSessionToken(createdAt: Instant, expiresAt: Instant) {
    expiresAt < createdAt + DEFAULT_DURATION - MINUTE
  }

  predicate ShouldReIssue(token: Token, now: Instant) {
    now - token.createdAt >= RE_ISSUE_AGE
  }

  /**
   The kind is read back from the dates exactly while the database stamps a row soon enough after its expiry was
   computed.
  */
  lemma KindIsRecognised(isSession: bool, issued: Instant, created: Instant)
    ensures IsSessionToken(created, RefreshTokenExpires(isSession, issued)) == isSession
       <==> if isSession then created - issued > SESSION_DURATION - DEFAULT_DURATION + MINUTE
         else created - issued <= MINUTE
  {
  }

  // ----- the table -----

  /** `create`: the expiry is computed at `issued`, and the database stamps the row at `created`. */
  function Issue(store: Store, profileId: Id, isSession: bool, isMfaEnabled: bool, issued: Instant,
                 created: Instant): (Store, Token) {
    var token := Token(store.nextId, profileId, RefreshTokenExpires(isSession, issued), None, isMfaEnabled, created);
    (Store(store.tokens[token.id := token], store.nextId + 1), token)
  }

  function Lookup(store: Store, id: Id, now: Instant): Option<Token> {
    if id in store.tokens && store.tokens[id].expiresAt > now then Some(store.tokens[id]) else None
  }

  predicate IsUpdatable(store: Store, id: Id, now: Instant) {
    id in store.tokens && store.tokens[id].expiresAt >= now
  }

  /** `revokeToken` with a successor: the token stays usable for the grace period. */
  function Revoke(store: Store, id: Id, newToken: Id, extended: Instant, now: Instant): Store {
    if IsUpdatable(store, id, now)
    then store.(tokens := store.tokens[id := store.tokens[id].(expiresAt := extended + GRACE,
                                                               nextToken := Some(newToken))])
    else store
  }

  /** `revokeToken` without a successor. */
  function Remove(store: Store, id: Id): Store {
    store.(tokens := store.tokens - {id})
  }

  // ----- using a token -----

  datatype Answer = Unknown | Replay(token: Token) | Current(token: Token) | ReIssue(token: Token)

  /** What `use` decides after reading the row at `found`; the age is checked at `checked`. */
  function Begin(store: Store, id: Id, found: Instant, checked: Instant): Answer {
    match Lookup(store, id, found)
    case None => Unknown
    case Some(token) =>
      if token.nextToken.Some? then Replay(token.(id := token.nextToken.value))
      else if ShouldReIssue(token, checked) then ReIssue(token) else Current(token)
  }

  /** The readings of the clock during one `use`, in order. */
  datatype Times = Times(found: Instant, checked: Instant, issued: Instant, created: Instant, extended: Instant,
                         updated: Instant)

  function Used(store: Store, id: Id, times: Times): (Store, Option<Token>) {
    match Begin(store, id, times.found, times.checked)
    case Unknown => (store, None)
    case Replay(token) => (store, Some(token))
    case Current(token) => (store, Some(token))
    case ReIssue(token) =>
      var (issued, newToken) := Issue(store, token.profileId, IsSessionToken(token.createdAt, token.expiresAt),
                                      token.isMfaEnabled,
                                      times.issued, times.created);
      (Revoke(issued, id, newToken.id, times.extended, times.updated), Some(token.(id := newToken.id)))
  }

  /** A new token can be found until it expires, as an unused one, and every other id answers as before. */
  lemma IssuedIsFound(store: Store, profileId: Id, isSession: bool, isMfaEnabled: bool, issued: Instant,
                      created: Instant,
                      id: Id, found: Instant, checked: Instant)
    ensures var (after, token) := Issue(store, profileId, isSession, isMfaEnabled, issued, created);
      && token.id == store.nextId && token.profileId == profileId && token.isMfaEnabled == isMfaEnabled
      && token.expiresAt == RefreshTokenExpires(isSession, issued) && token.createdAt == created
        && token.nextToken.None?
      && Lookup(after, token.id, found)
         == (if found < RefreshTokenExpires(isSession, issued) then Some(token) else None)
      && Begin(after, token.id, found, checked)
         == (if RefreshTokenExpires(isSession, issued) <= found then Unknown
             else if checked < created + RE_ISSUE_AGE then Current(token) else ReIssue(token))
      && (id != token.id ==> Begin(after, id, found, checked) == Begin(store, id, found, checked))
      && after.nextId != token.id
  {
  }

  /**
   A token that is revoked while it is live answers with its successor, but only for the grace period, however long it
   would have lived; one that expired before answers nothing, and every other id answers as before.
  */
  lemma RevokedIsReplayed(store: Store, revoked: Id, next: Id, extended: Instant, now: Instant, id: Id, found: Instant,
                          checked: Instant)
    requires now <= found
    ensures var after := Revoke(store, revoked, next, extended, now);
      && Begin(after, revoked, found, checked)
         == (if revoked in store.tokens && now <= store.tokens[revoked].expiresAt && found < extended + GRACE
             then Replay(after.tokens[revoked].(id := next)) else Unknown)
      && (Begin(after, revoked, found, checked).Replay? ==>
            after.tokens[revoked].profileId == store.tokens[revoked].profileId
            && after.tokens[revoked].isMfaEnabled == store.tokens[revoked].isMfaEnabled)
      && (id != revoked ==> Begin(after, id, found, checked) == Begin(store, id, found, checked))
  {
  }

  /** The lifetimes: eight hours for a session, thirty days otherwise. */
  lemma Lifetimes(isSession: bool, now: Instant)
    ensures RefreshTokenExpires(isSession, now) - now == if isSession then 8 * 3600000 else 30 * 24 * 3600000
  {
  }

  /**
   What a use answers, told from the row: nothing if there is none or it has expired; its successor if it has one; the
   row itself in its first seven hours; and then the row under the id of a new token.
  */
  lemma UseAnswers(store: Store, id: Id, times: Times)
    ensures var (after, result) := Used(store, id, times);
      && (result == None <==> id !in store.tokens || store.tokens[id].expiresAt <= times.found)
      && (result == None ==> after == store)
      && (id in store.tokens && times.found < store.tokens[id].expiresAt ==>
            var row := store.tokens[id];
            if row.nextToken.Some? then
              after == store
              && result
                == Some(Token(row.nextToken.value, row.profileId, row.expiresAt, row.nextToken, row.isMfaEnabled,
                              row.createdAt))
            else if times.checked - row.createdAt < 7 * 3600000 then after == store && result == Some(row)
            else
              && result
                == Some(Token(store.nextId, row.profileId, row.expiresAt, None, row.isMfaEnabled, row.createdAt))
              && after.nextId == store.nextId + 1)
  {
  }

  /** A token that was signed out answers nothing at any time, and every other id answers as before. */
  lemma RemovedIsUnknown(store: Store, removed: Id, id: Id, found: Instant, checked: Instant)
    ensures Begin(Remove(store, removed), removed, found, checked) == Unknown
    ensures id != removed ==> Begin(Remove(store, removed), id, found, checked) == Begin(store, id, found, checked)
  {
  }

  predicate InOrder(times: Times) {
    times.found <= times.checked <= times.issued <= times.created <= times.extended <= times.updated
  }

  /**
   Using a live token without successor: for its first seven hours it is returned as it is; from then on it is replaced
   by a token of the same profile, flag and kind with a full lifetime, and stays usable for the grace period if it is
   still live by then. No other row changes.
  */
  lemma UseRenews(store: Store, id: Id, isSession: bool, issued: Instant, times: Times)
    requires id in store.tokens && store.tokens[id].id == id && store.tokens[id].nextToken.None?
    requires store.tokens[id].expiresAt == RefreshTokenExpires(isSession, issued)
    requires 0 <= store.tokens[id].createdAt - issued <= MINUTE
    requires InOrder(times) && store.tokens[id].expiresAt > times.found
    requires store.nextId !in store.tokens
    ensures var (after, result), token, next := Used(store, id, times), store.tokens[id], store.nextId;
      && result.Some?
      && (times.checked < token.createdAt + RE_ISSUE_AGE ==> after == store && result.value == token)
      && (times.checked >= token.createdAt + RE_ISSUE_AGE ==>
            && result.value == token.(id := next) && next in after.tokens
            && after.tokens[next].profileId == token.profileId && after.tokens[next].isMfaEnabled == token.isMfaEnabled
            && after.tokens[next].expiresAt == RefreshTokenExpires(isSession, times.issued)
            && after.tokens[next].nextToken.None? && after.tokens[next].createdAt == times.created
            && (token.expiresAt >= times.updated ==>
                  after.tokens[id] == token.(expiresAt := times.extended + GRACE, nextToken := Some(next)))
            && (token.expiresAt < times.updated ==> after.tokens[id] == token)
            && (forall other :: other in store.tokens && other != id ==>
              other in after.tokens && after.tokens[other] == store.tokens[other]))
  {
    KindIsRecognised(isSession, issued, store.tokens[id].createdAt);
  }

  /** A token can be replaced for at least its last 59 minutes, so regular use keeps a session alive. */
  lemma ReplacementWindow(isSession: bool, issued: Instant, created: Instant)
    requires 0 <= created - issued <= MINUTE
    ensures RefreshTokenExpires(isSession, issued) - (created + RE_ISSUE_AGE) >= HOUR - MINUTE
  {
  }

  class RefreshTokenService {
    var tokens: map<Id, Token>
    var nextId: Id

    ghost function Contents(): Store
      reads this
    {
      Store(tokens, nextId)
    }

    constructor ()
      ensures Contents() == Store(map[], 0)
    {
      tokens, nextId := map[], 0;
    }

    method Create(profileId: Id, isSession: bool, isMfaEnabled: bool, issued: Instant, created: Instant)
      returns (token: Token)
      modifies this
      ensures (Contents(), token) == Issue(old(Contents()), profileId, isSession, isMfaEnabled, issued, created)
    {
      token := Token(nextId, profileId, RefreshTokenExpires(isSession, issued), None, isMfaEnabled, created);
      tokens, nextId := tokens[token.id := token], nextId + 1;
    }

    /** Tells whether a row was updated. */
    method Update(id: Id, expiresAt: Instant, newToken: Id, now: Instant) returns (updated: bool)
      modifies this`tokens
      ensures updated <==> id in old(tokens) && old(tokens)[id].expiresAt >= now
      ensures tokens == if updated
        then old(tokens)[id := old(tokens)[id].(expiresAt := expiresAt, nextToken := Some(newToken))] else old(tokens)
    {
      updated := id in tokens && tokens[id].expiresAt >= now;
      if updated {
        tokens := tokens[id := tokens[id].(expiresAt := expiresAt, nextToken := Some(newToken))];
      }
    }

    method RevokeToken(id: Id, newToken: Option<Id>, extended: Instant, now: Instant) returns (revoked: bool)
      modifies this`tokens
      ensures Contents() == match newToken
                            case Some(next) => Revoke(old(Contents()), id, next, extended, now)
                            case None => Remove(old(Contents()), id)
      ensures revoked <==> if newToken.Some? then IsUpdatable(old(Contents()), id, now) else id in old(tokens)
    {
      if newToken.Some? {
        revoked := Update(id, extended + GRACE, newToken.value, now);
      } else {
        revoked := id in tokens;
        tokens := tokens - {id};
      }
    }

    method Use(id: Id, times: Times) returns (result: Option<Token>)
      modifies this
      ensures (Contents(), result) == Used(old(Contents()), id, times)
    {
      var current := Lookup(Store(tokens, nextId), id, times.found);
      if current.None? {
        return None;
      }
      var currentRefreshToken := current.value;
      if currentRefreshToken.nextToken.Some? {
        return Some(currentRefreshToken.(id := currentRefreshToken.nextToken.value));
      }
      if !ShouldReIssue(currentRefreshToken, times.checked) {
        return Some(currentRefreshToken);
      }
      var isSession := IsSessionToken(currentRefreshToken.createdAt, currentRefreshToken.expiresAt);
      var newToken := Create(currentRefreshToken.profileId, isSession, currentRefreshToken.isMfaEnabled, times.issued,
                             times.created);
      var _ := RevokeToken(id, Some(newToken.id), times.extended, times.updated);
      result := Some(currentRefreshToken.(id := newToken.id));
    }
  }
}
